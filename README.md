# LED name tag packet encoder

A Dafny model of the packet encoder of the LED name-tag programmer
(`design.py`). The encoder turns the eight message slots of a design into
the byte stream that the 11-row LED badge accepts. That stream is a 64-byte
big-endian header followed by each slot's column-major bitmap.

The model has six modules:

- `Bytes` (bytes.dfy): the `byte` type. It also writes the Python bit
  operations used by the encoder (`x << k`, `a | b`, `x & (1 << k)`) as
  arithmetic on natural numbers (`Shl`, `Or`, `TestBit`), with lemmas about
  them.
- `Bitmaps` (bitmap.dfy): the `Bitmap` class of the source. A bitmap is an
  immutable buffer, so it is a datatype. The module covers:
  - the conversion from a row-major monochrome image, given as a flat byte
    buffer and a stride (`FromImage`);
  - `__bool__`, `width` and `nbytes` (`IsPresent`, `Width`, `NBytes`);
  - `byte_pixels`, written as a nested-loop method (`BytePixels`) and proved
    equal to its specification `GroupPixels`. Membership, order and a
    round trip back to the source image are proved about `GroupPixels`.
- `Messages` (messages.dfy):
  - the nine fields of a message slot and their defaults;
  - `genBitmap`. The Qt text renderer is a `Rasterizer` parameter: a rough
    width estimate plus a drawing call that reports the width it drew.
- `Header` (header.dfy): the `HEADER` struct layout. This covers big-endian
  integers, the flag bytes, the `speed << 4 | anim` mode byte, and the
  timestamp. Every `struct.pack` item that the source could push out of
  range is modelled as a failure of the packing, never as a precondition.
- `Stream` (stream.dfy):
  - `genBytestream` as the function `Bytestream`, with the clock as a
    `LocalTime` parameter. It returns `Ok([])` for "nothing to program" and
    `Err(StructError)` where `struct.pack` would raise;
  - the size gate of `_get_bytestream` (`GetBytestream`);
  - the `Model` class, which holds its eight slots in an array.
- `Wrappers` (wrappers.dfy): `Option` and `Result`.

## Model

| member | source | states |
|---|---|---|
| Bitmaps.NBytes | design.py:70-72 | `nbytes` is the number of whole 11-byte column groups in the buffer: `n*11 <= len(data) < (n+1)*11` |
| Bitmaps.Width | design.py:66-68 | the pixel width is eight times `nbytes` |
| Bitmaps.PresentIffGroups | design.py:63-72 | for a buffer of whole groups, the bitmap is truthy exactly when `nbytes > 0`, and the buffer length is `nbytes * HEIGHT` |
| Bitmaps.FromImage | design.py:51-59 | converting an image of pixel width `w` gives `nbytes == (w+7)//8` and a buffer of `nbytes * 11` bytes (a multiple of 11); the result is truthy exactly when `w > 0` |
| Bitmaps.FromImageLayout | design.py:57-59 | byte `col*HEIGHT + row` of the converted buffer is image byte `row*stride + col` (column groups outer, rows inner) |
| Bitmaps.BytePixels | design.py:74-78 | the nested loops over the group's rows and the eight bit columns produce exactly the sequence `GroupPixels(data, i)` |
| Bitmaps.GroupPixelsMembers | design.py:74-78 | `(col, row)` is yielded for group `i` exactly when `col < 8`, `row < HEIGHT`, the byte `data[HEIGHT*i + row]` exists and its bit `7-col` is set |
| Bitmaps.GroupPixelsOrdered | design.py:75-78 | the pixels come rows outer, columns inner, each strictly after the one before (so there are no duplicates) |
| Bitmaps.ConversionRoundTrip | design.py:54-78 | after conversion, `byte_pixels(i)` yields `(col, row)` exactly when source pixel `(8*i + col, row)` is lit (MSB-first) |
| Messages.GenBitmap | design.py:93-115 | a stored bitmap is returned unchanged; otherwise the result is well formed; a zero width estimate gives the absent bitmap; otherwise the result is the conversion of the drawn canvas cut to the drawn width, with `(realWidth+7)//8` groups and no 4096-pixel cap, and is truthy exactly when the drawn width is non-zero |
| Messages.ImportedBitmap | design.py:226 | an imported image keeps `min(width, 4096)` pixels: `(w+7)//8` groups up to 4096 pixels wide and 512 groups beyond; it is truthy exactly when the image has width |
| Header.BERoundTrip | design.py:36-38 | reading back a big-endian field (`H`, `Q`) gives the value packed, for every value that fits its width |
| Header.PackHeader | design.py:30-40 | the packed header is exactly 64 bytes |
| Header.HeaderLayout | design.py:30-40 | magic `wang` at bytes 0-3; zeros at 4-5; flash and border at 6 and 7; slot `i`'s mode at `8+i`; its big-endian length word at `16+2i..17+2i`; zeros at 32-35; the big-endian timestamp at 36-43; zeros at 44-63 |
| Header.HeaderLengths | design.py:36 | the eight length words read back from a packed header are the ones packed |
| Header.HeaderRoundTrip | design.py:30-40 | unpacking a packed header gives back every field packed |
| Header.FlagByte | design.py:133-134 | `sum(flag << i)` over the slots fits in as many bits as there are slots |
| Header.FlagByteBits | design.py:133-134 | bit `k` of the flag byte is set exactly when `k` is a slot index and that slot's flag is true |
| Header.ModeByte | design.py:135 | `(speed << 4) OR anim` packs as a `B` item exactly when `0 <= speed < 16` and `0 <= anim < 256` |
| Header.ModeByteRoundTrip | design.py:135 | for `anim < 16` the mode byte is `speed*16 + anim`: the high nibble reads back the speed and the low nibble the animation |
| Header.AnimationSpill | design.py:135 | an animation number of 16 or more spills into the speed nibble: speed 2 with animation 16 packs to byte 48, which reads as speed 3, animation 0 |
| Header.Timestamp | design.py:123-126 | the timestamp packs as a `Q` item exactly when the year is from 1999 and `year-1999` fits in the top 24 bits |
| Header.TimestampValue | design.py:124-126 | the OR of the shifted fields is the number with `year-1999` above bit 40 and one byte per field below it |
| Header.TimestampBytes | design.py:38 | the big-endian timestamp bytes are three bytes of `year-1999`, then month, day, hour, minute and second |
| Header.TimestampRoundTrip | design.py:123-126 | every calendar field is recovered from its byte of the packed timestamp |
| Stream.SlotBitmaps | design.py:127-128 | an inactive slot resolves to the absent bitmap; an active slot with a stored bitmap resolves to that bitmap |
| Stream.PayloadLength | design.py:138 | the joined bitmap data is as long as the sum of the slots' data lengths |
| Stream.PayloadAt | design.py:138 | slot `i`'s data sits in the payload at the offset given by the sizes of the slots before it |
| Stream.Modes | design.py:135 | the header carries one mode byte per slot, each the slot's packed `(speed << 4) OR anim` |
| Stream.HeaderFields | design.py:131-137 | the header fields exist exactly when every item is in range for `struct.pack`, and then they are packable |
| Stream.Bytestream | design.py:122-138 | the result is `b''` exactly when every resolved bitmap is absent; the result is a packing error exactly when some bitmap is present and some item is out of range; otherwise its length is `64 +` the total bitmap data |
| Stream.InactiveProgramsNothing | design.py:127-130 | when no slot is active, the stream is empty |
| Stream.StreamLayout | design.py:131-138 | header plus payload puts the fields and the zero padding at their offsets, with the payload from byte 64 on |
| Stream.StreamParts | design.py:131-138 | a non-empty stream is the packed header of the slots' fields followed by the joined bitmap data |
| Stream.StreamPayload | design.py:136-138 | in a non-empty stream, the length words are the slots' `nbytes` and everything after byte 64 is the bitmaps' data in slot order |
| Stream.BytestreamLayout | design.py:122-138 | in a non-empty stream: its length is `64 +` the bitmap total; `wang` comes first, then zero padding at 4-5; bit `i` of bytes 6 and 7 is slot `i`'s flash and border flag whether or not the slot is active; byte `8+i` is slot `i`'s mode byte; the length words are the `nbytes`; zeros at 32-35; the timestamp at 36-43 decodes to the clock reading; zeros at 44-63; the bitmaps follow |
| Stream.ModeNibbles | design.py:135 | for an animation from `ANIMS`, the mode byte of slot `i` splits back into its speed and animation |
| Stream.GroupsSize | design.py:136-138 | for well-formed bitmaps, the payload size is `HEIGHT` times the sum of the length words |
| Stream.PayloadByGroups | design.py:136-138 | slot `k`'s data sits in the payload between `HEIGHT` times the sums of the length words before `k` and up to `k` |
| Stream.SlotBitmapsWellFormed | design.py:127-128 | if the stored bitmaps are well formed, every resolved bitmap is |
| Stream.SlotByWords | design.py:136-138 | given the header's length words and the payload, slot `k`'s data can be located from the length words alone |
| Stream.StreamSelfDescribing | design.py:122-138 | in every non-empty stream, each slot's bitmap sits where the header's length words announce it |
| Stream.SingleStoredSlot | design.py:127-138 | a design with one active slot holding a present, in-range stored bitmap is encoded as a stream of `64 + len(data)` bytes. That slot's length word is its `nbytes`, every other word is 0, and the payload is that bitmap's data |
| Stream.GetBytestream | design.py:300-310 | the gate passes the stream through exactly when it is non-empty and at most `4096+64` bytes; it reports "nothing to program" exactly when every bitmap is absent, and "too much data" exactly when the stream is longer |
| Stream.GateGroups | design.py:307 | a stream that passes the gate announces at most 372 column groups (`4096 // 11`) in total |
| Stream.Model.constructor | design.py:119-120 | a new model holds eight default messages |
| Stream.Model.UpdateMessage | design.py:347-356 | writing the editor's fields into message `i` replaces slot `i` and leaves the other slots unchanged |
| Stream.Model.GenBytestream | design.py:122-138 | the method only forwards to `Bytestream` of its current eight messages; every promise about the stream is proved about that function |
| Stream.DefaultProgramsNothing | design.py:82-91 | a design of default messages (all inactive) has nothing to program |

## Left out

- The text-rendering path of `genBitmap` (design.py:96-114) is Qt font metrics and `QPainter` rasterisation. It is the `Rasterizer` parameter.
- `time.localtime()` (design.py:123) is the clock; its fields come in as a `LocalTime` argument with the ranges Python documents (seconds up to 61).
- Image import before the conversion call (design.py:207-225): the file dialog, decoding, the format conversion, padding to HEIGHT rows and inverting. Only the final `Bitmap(img, min(img.width(), 4096))` is modelled (`ImportedBitmap`). The `convertToFormat` call there discards its result, which the model cannot express.
- The `QImage` pixel buffer is modelled as a flat row-major byte sequence with a stride. `FromImage` requires that the image has HEIGHT rows and at least `(w+7)//8` bytes per row. Where that fails, the array taken at design.py:56 holds only `stride*HEIGHT` items, so the comprehension at design.py:57-59 indexes past its end and raises; no bitmap is built. The model does not cover that exception.
- Bitmaps.FromImage: it does not zero-fill column groups beyond the image width. The code indexes the image buffer directly, so the model follows the code, and the precondition above keeps every group inside the image.
- Messages.GenBitmap: it assumes that every column group of the drawn width lies within one scan line of the canvas, `(realWidth+7)//8 <= bytesPerLine` (the `Rendering` subset type of the drawing call). Nothing in the source ensures that: the estimate can be well off (design.py:98-100). The source raises exactly when that bound fails, because the conversion reached from design.py:115 then indexes past the `bytesPerLine*HEIGHT` items taken at design.py:56-59; that exception is not modelled. A drawn width above the `2*width` canvas but within the scan line's padding converts without error and picks up the padding bits, which the model covers.
- Messages.GenBitmap: it has no 4096-pixel cap and no separate empty-text check. The code caps only imported images (design.py:226) and tests only the width estimate (design.py:101), so the model follows the code.
- Stream.Bytestream: an animation number outside `ANIMS` is not rejected, exactly as in the code. Numbers 11 to 15 still fit the low nibble. Numbers 16 to 255 spill into the speed nibble (`AnimationSpill`). Negative numbers and numbers above 255 make `struct.pack` fail (`ModeByte`).
- Object identity: the source returns the same stored `Bitmap` object again. The model returns an equal value, and it does not model aliasing between an editor's bitmap and the model's.
- `updateModel` (design.py:347-356) assigns the nine fields of the shared `Message` object one by one. `Model.UpdateMessage` replaces the slot's record in one step, so intermediate states are not modelled.
- The preview widget, message editors, main window, dialogs, settings, pickle load and save, writing `.led` files, and the `program.py` subprocess and its USB transport are user interface and I/O with no encoder logic.
