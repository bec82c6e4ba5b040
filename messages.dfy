/**
 * One message slot (class Message of design.py) and how it resolves the
 * bitmap it sends (`genBitmap`). Text rendering belongs to the GUI toolkit
 * and comes in as a Rasterizer: a rough width estimate and a drawing call.
 */
module Messages {
  import opened Wrappers
  import opened Bitmaps

  /** The device's animations, in the order of their mode numbers. */
  const ANIMS: seq<string> :=
    ["Left", "Right", "Up", "Down", "Freeze", "Animate", "Pileup", "Split", "Laser", "Smooth", "Rotate"]

  /** The nine fields of a message slot. */
  datatype Message = Message(
    active: bool,
    flash: bool,
    border: bool,
    anim: int,                 // index into ANIMS
    speed: int,                // 0..15 from the editor
    bitmap: Option<Bitmap>,    // a stored bitmap, or None to render `text`
    text: string,
    font: string,              // serialized font description
    offset: int)               // vertical shift of the rendered text

  /** A freshly constructed message. */
  const DefaultMessage: Message := Message(false, false, false, 0, 3, None, "", "Sans", 0)

  /** What the toolkit's painter leaves behind: the canvas and the width it really drew. */
  datatype Drawing = Drawing(image: MonoImage, realWidth: nat)

  /**
   * A drawing whose reported width fits the canvas's scan line: every column
   * group lies within the bytes of one line. The model assumes this of every
   * drawing; a reported width past the scan line makes the conversion raise,
   * which is not modelled.
   */
  type Rendering = d: Drawing | Fits(d.image, d.realWidth) witness Drawing(MonoImage([], 0), 0)

  /**
   * The text renderer: `measure(font, text)` is the font metrics' rough
   * width; `draw(font, text, canvasWidth, offset)` paints the text at
   * height `-offset` on a HEIGHT-line canvas and reports the drawn width.
   */
  datatype Rasterizer = Rasterizer(
    measure: (string, string) -> nat,
    draw: (string, string, nat, int) -> Rendering)

  /**
   * `genBitmap`: a stored bitmap is returned as it is; otherwise the text
   * is drawn on a canvas twice the estimated width and converted, cut to
   * the drawn width and not capped; an empty estimate gives the absent bitmap.
   */
  function GenBitmap(m: Message, r: Rasterizer): (b: Bitmap)
    ensures m.bitmap.Some? ==> b == m.bitmap.value
    ensures m.bitmap.None? ==> WellFormed(b)
    ensures m.bitmap.None? && r.measure(m.font, m.text) == 0 ==> b == Empty
    ensures m.bitmap.None? && r.measure(m.font, m.text) != 0 ==>
      var d := r.draw(m.font, m.text, 2 * r.measure(m.font, m.text), m.offset);
      b == FromImage(d.image, d.realWidth) &&
      NBytes(b) == (d.realWidth + 7) / 8 && (IsPresent(b) <==> d.realWidth > 0)
  {
    match m.bitmap
    case Some(stored) => stored
    case None =>
      var width := r.measure(m.font, m.text);
      if width == 0 then Empty
      else
        var d := r.draw(m.font, m.text, 2 * width, m.offset);
        FromImage(d.image, d.realWidth)
  }

  /** A bitmap loaded from an image file: at most 4096 pixels are kept. */
  function ImportedBitmap(img: MonoImage, imageWidth: nat): (b: Bitmap)
    requires Fits(img, if imageWidth < 4096 then imageWidth else 4096)
    ensures WellFormed(b) && NBytes(b) <= 512
    ensures imageWidth <= 4096 ==> NBytes(b) == (imageWidth + 7) / 8
    ensures imageWidth >= 4096 ==> NBytes(b) == 512
    ensures IsPresent(b) <==> imageWidth > 0
  {
    FromImage(img, if imageWidth < 4096 then imageWidth else 4096)
  }
}
