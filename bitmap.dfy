/**
 * The column-major monochrome bitmap the name tag expects (class Bitmap of
 * design.py). A bitmap is a byte buffer holding, for every 8-pixel-wide
 * column group, the HEIGHT row bytes of that group; within a byte the most
 * significant bit is the leftmost pixel.
 */
module Bitmaps {
  import opened Bytes

  /** Number of LED rows on the display. */
  const HEIGHT: nat := 11

  /** A bitmap is just its buffer; it is never changed after construction. */
  datatype Bitmap = Bitmap(data: seq<byte>)

  /** The absent bitmap, `Bitmap()` in the source. */
  const Empty: Bitmap := Bitmap([])

  /** A buffer made only of whole column groups. */
  predicate WellFormed(b: Bitmap) {
    |b.data| % HEIGHT == 0
  }

  /** Truth value of a bitmap (`__bool__`): it has any data at all. */
  predicate IsPresent(b: Bitmap) {
    |b.data| != 0
  }

  /** Number of whole column groups (`nbytes`). */
  function NBytes(b: Bitmap): (n: nat)
    ensures n * HEIGHT <= |b.data| < (n + 1) * HEIGHT
  {
    |b.data| / HEIGHT
  }

  /** Width in pixels (`width`). */
  function Width(b: Bitmap): (w: nat)
    ensures w == 8 * NBytes(b)
  {
    8 * (|b.data| / HEIGHT)
  }

  /** For a buffer of whole column groups, truth and a non-zero group count agree. */
  lemma PresentIffGroups(b: Bitmap)
    requires WellFormed(b)
    ensures IsPresent(b) <==> NBytes(b) > 0
    ensures |b.data| == NBytes(b) * HEIGHT
  {
    assert |b.data| == NBytes(b) * HEIGHT + |b.data| % HEIGHT;
  }

  /** Bit `k` (0 = least significant) of a byte is set: `b & (1 << k) != 0`. */
  predicate BitSet(b: byte, k: nat)
    requires k < 8
  {
    TestBit(b as nat, k)
  }

  /*
   * Conversion from a row-major monochrome image.
   */

  /**
   * The first HEIGHT scan lines of a 1-bit image in row-major order, `stride`
   * bytes per line, pixels packed most significant bit first.
   */
  datatype MonoImage = MonoImage(bits: seq<byte>, stride: nat)

  /**
   * The image buffer holds HEIGHT lines and a scan line is wide enough for
   * `width` pixels: this is what the image library guarantees the caller.
   */
  predicate Fits(img: MonoImage, width: nat) {
    |img.bits| == img.stride * HEIGHT && (width + 7) / 8 <= img.stride
  }

  /** Byte `col` of scan line `row` of the image. */
  function ImageByte(img: MonoImage, col: nat, row: nat): byte
    requires row < HEIGHT && col < img.stride && |img.bits| == img.stride * HEIGHT
  {
    RowMajorBound(img.stride, row, col);
    img.bits[row * img.stride + col]
  }

  /** Pixel (x, y) of the image is lit. */
  predicate ImagePixel(img: MonoImage, x: nat, y: nat)
    requires y < HEIGHT && x / 8 < img.stride && |img.bits| == img.stride * HEIGHT
  {
    BitSet(ImageByte(img, x / 8, y), 7 - x % 8)
  }

  /** Row `row`, column `col` of a HEIGHT-line buffer lies inside it. */
  lemma RowMajorBound(stride: nat, row: nat, col: nat)
    requires row < HEIGHT && col < stride
    ensures row * stride + col < stride * HEIGHT
  {
    assert row * stride + col < (row + 1) * stride;
    assert (row + 1) * stride <= HEIGHT * stride;
  }

  /** Byte of row `row` in column group `col` of a converted buffer. */
  function ColumnByte(data: seq<byte>, col: nat, row: nat): byte
    requires row < HEIGHT && col * HEIGHT + row < |data|
  {
    data[col * HEIGHT + row]
  }

  /**
   * The conversion in the bitmap constructor: column groups outer, rows
   * inner, `(width + 7) / 8` groups.
   */
  function FromImage(img: MonoImage, width: nat): (b: Bitmap)
    requires Fits(img, width)
    ensures NBytes(b) == (width + 7) / 8 && |b.data| == NBytes(b) * HEIGHT
    ensures WellFormed(b)
    ensures IsPresent(b) <==> width > 0
  {
    var nbytes := (width + 7) / 8;
    Bitmap(seq(nbytes * HEIGHT, k requires 0 <= k < nbytes * HEIGHT =>
      ImageByte(img, k / HEIGHT, k % HEIGHT)))
  }

  /**
   * Byte `col * HEIGHT + row` of the converted buffer is byte
   * `row * stride + col` of the image.
   */
  lemma FromImageLayout(img: MonoImage, width: nat, col: nat, row: nat)
    requires Fits(img, width)
    requires col < (width + 7) / 8 && row < HEIGHT
    ensures col * HEIGHT + row < |FromImage(img, width).data|
    ensures ColumnByte(FromImage(img, width).data, col, row) == ImageByte(img, col, row)
  {
    var k := col * HEIGHT + row;
    assert k / HEIGHT == col && k % HEIGHT == row;
    assert k < (col + 1) * HEIGHT <= (width + 7) / 8 * HEIGHT;
  }

  /*
   * Decoding a column group back into pixels (`byte_pixels`).
   */

  /** A lit pixel as `(column within the group, row)`. */
  type Pixel = (nat, nat)

  /** Buffer bytes of column group `i`, cut the way a Python slice is cut. */
  function GroupSlice(data: seq<byte>, i: nat): (s: seq<byte>)
    ensures |s| <= HEIGHT
    ensures |data| >= HEIGHT * (i + 1) ==> s == data[HEIGHT * i .. HEIGHT * (i + 1)]
    ensures |data| <= HEIGHT * i ==> s == []
  {
    var lo := if HEIGHT * i <= |data| then HEIGHT * i else |data|;
    var hi := if HEIGHT * (i + 1) <= |data| then HEIGHT * (i + 1) else |data|;
    data[lo..hi]
  }

  /** Lit pixels of byte `b` of row `row` among its first `n` columns, left to right. */
  function RowPixels(b: byte, row: nat, n: nat): seq<Pixel>
    requires n <= 8
  {
    if n == 0 then []
    else RowPixels(b, row, n - 1) + (if BitSet(b, 7 - (n - 1)) then [(n - 1, row)] else [])
  }

  /** Lit pixels of the first `n` rows of a column group, rows outer, columns inner. */
  function SlicePixels(s: seq<byte>, n: nat): seq<Pixel>
    requires n <= |s|
  {
    if n == 0 then [] else SlicePixels(s, n - 1) + RowPixels(s[n - 1], n - 1, 8)
  }

  /** Everything `byte_pixels(i)` yields, in order. */
  function GroupPixels(data: seq<byte>, i: nat): seq<Pixel> {
    var s := GroupSlice(data, i);
    SlicePixels(s, |s|)
  }

  /** `byte_pixels`: walks the rows of group `i` and, in each, the columns MSB first. */
  method BytePixels(b: Bitmap, i: nat) returns (pixels: seq<Pixel>)
    ensures pixels == GroupPixels(b.data, i)
  {
    var slice := GroupSlice(b.data, i);
    pixels := [];
    var row := 0;
    while row < |slice|
      invariant row <= |slice|
      invariant pixels == SlicePixels(slice, row)
    {
      var data := slice[row];
      var col := 0;
      while col < 8
        invariant col <= 8
        invariant pixels == SlicePixels(slice, row) + RowPixels(data, row, col)
      {
        if BitSet(data, 7 - col) {
          pixels := pixels + [(col, row)];
        }
        col := col + 1;
      }
      row := row + 1;
    }
  }

  lemma {:induction false} RowPixelsMembers(b: byte, row: nat, n: nat, p: Pixel)
    requires n <= 8
    ensures p in RowPixels(b, row, n) <==> p.1 == row && p.0 < n && BitSet(b, 7 - p.0)
  {
    if n > 0 {
      RowPixelsMembers(b, row, n - 1, p);
      var before := RowPixels(b, row, n - 1);
      var last: seq<Pixel> := if BitSet(b, 7 - (n - 1)) then [(n - 1, row)] else [];
      assert RowPixels(b, row, n) == before + last;
      if p == (n - 1, row) {
        assert p !in before;
      } else {
        assert p !in last;
      }
    }
  }

  lemma {:induction false} SlicePixelsMembers(s: seq<byte>, n: nat, p: Pixel)
    requires n <= |s|
    ensures p in SlicePixels(s, n) <==> p.1 < n && p.0 < 8 && BitSet(s[p.1], 7 - p.0)
  {
    if n > 0 {
      SlicePixelsMembers(s, n - 1, p);
      RowPixelsMembers(s[n - 1], n - 1, 8, p);
      var before := SlicePixels(s, n - 1);
      var last := RowPixels(s[n - 1], n - 1, 8);
      assert SlicePixels(s, n) == before + last;
      if p.1 == n - 1 {
        assert p !in before;
      } else {
        assert p !in last;
      }
    }
  }

  /**
   * `byte_pixels(i)` yields `(col, row)` exactly when bit `7 - col` of row
   * byte `row` of group `i` is set; nothing outside the group is yielded.
   */
  lemma GroupPixelsMembers(data: seq<byte>, i: nat, p: Pixel)
    ensures p in GroupPixels(data, i) <==>
      p.0 < 8 && p.1 < HEIGHT && HEIGHT * i + p.1 < |data| &&
      BitSet(data[HEIGHT * i + p.1], 7 - p.0)
  {
    var s := GroupSlice(data, i);
    SlicePixelsMembers(s, |s|, p);
  }

  /** Pixels in yield order: row first, then column. */
  predicate Before(p: Pixel, q: Pixel) {
    p.1 < q.1 || (p.1 == q.1 && p.0 < q.0)
  }

  predicate Ordered(ps: seq<Pixel>) {
    forall j, k | 0 <= j < k < |ps| :: Before(ps[j], ps[k])
  }

  lemma {:induction false} RowPixelsOrdered(b: byte, row: nat, n: nat)
    requires n <= 8
    ensures Ordered(RowPixels(b, row, n))
    ensures forall p | p in RowPixels(b, row, n) :: p.1 == row && p.0 < n
  {
    if n > 0 {
      RowPixelsOrdered(b, row, n - 1);
    }
  }

  lemma {:induction false} SlicePixelsOrdered(s: seq<byte>, n: nat)
    requires n <= |s|
    ensures Ordered(SlicePixels(s, n))
    ensures forall p | p in SlicePixels(s, n) :: p.1 < n
  {
    if n > 0 {
      SlicePixelsOrdered(s, n - 1);
      RowPixelsOrdered(s[n - 1], n - 1, 8);
      var front, back := SlicePixels(s, n - 1), RowPixels(s[n - 1], n - 1, 8);
      forall j, k | 0 <= j < k < |front + back|
        ensures Before((front + back)[j], (front + back)[k])
      {
        if k < |front| {
        } else if j < |front| {
          assert front[j] in front && back[k - |front|] in back;
        } else {
        }
      }
    }
  }

  /** `byte_pixels` yields every pixel once, rows outer and columns inner. */
  lemma GroupPixelsOrdered(data: seq<byte>, i: nat)
    ensures Ordered(GroupPixels(data, i))
  {
    var s := GroupSlice(data, i);
    SlicePixelsOrdered(s, |s|);
  }

  /**
   * Round trip through the conversion: pixel `(8 * i + col, row)` of the
   * source image is lit exactly when `byte_pixels(i)` yields `(col, row)`.
   */
  lemma ConversionRoundTrip(img: MonoImage, width: nat, i: nat, col: nat, row: nat)
    requires Fits(img, width)
    requires i < (width + 7) / 8 && col < 8 && row < HEIGHT
    ensures (8 * i + col) / 8 < img.stride
    ensures (col, row) in GroupPixels(FromImage(img, width).data, i) <==>
      ImagePixel(img, 8 * i + col, row)
  {
    var b := FromImage(img, width);
    assert (8 * i + col) / 8 == i && (8 * i + col) % 8 == col;
    GroupPixelsMembers(b.data, i, (col, row));
    FromImageLayout(img, width, i, row);
    assert HEIGHT * i + row == i * HEIGHT + row;
  }
}
