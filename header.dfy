/**
 * The fixed 64-byte packet header (the HEADER struct of design.py, format
 * `>4s2xBB8B8H4xQ20x`): all multi-byte integers big-endian. UnpackHeader is
 * an independent reader of the same layout, used to state where each field
 * lands.
 */
module Header {
  import opened Wrappers
  import opened Bitmaps
  import opened Bytes

  /** Number of message slots on the device. */
  const SLOTS: nat := 8

  /** Size of the packed header in bytes. */
  const HEADER_SIZE: nat := 64

  /** The magic number, the ASCII bytes of `wang`. */
  const MAGIC: seq<byte> := [0x77, 0x61, 0x6e, 0x67]

  /** `n` zero bytes, for the `x` padding items of the format. */
  function Zeros(n: nat): (z: seq<byte>)
    ensures |z| == n && forall k | 0 <= k < n :: z[k] == 0
  {
    seq(n, _ => 0)
  }

  /*
   * Integer items of the format.
   */

  function Pow256(k: nat): (p: nat)
    ensures p > 0
  {
    if k == 0 then 1 else 256 * Pow256(k - 1)
  }

  /** An unsigned big-endian item of `width` bytes (`H` is 2 bytes, `Q` is 8). */
  function PackBE(n: nat, width: nat): (s: seq<byte>)
    requires n < Pow256(width)
    ensures |s| == width
  {
    if width == 0 then [] else PackBE(n / 256, width - 1) + [(n % 256) as byte]
  }

  /** The value of a big-endian byte string. */
  function UnpackBE(s: seq<byte>): nat {
    if s == [] then 0 else UnpackBE(s[..|s| - 1]) * 256 + s[|s| - 1] as nat
  }

  lemma {:induction false} BERoundTrip(n: nat, width: nat)
    requires n < Pow256(width)
    ensures UnpackBE(PackBE(n, width)) == n
  {
    if width > 0 {
      var s := PackBE(n, width);
      assert s[..|s| - 1] == PackBE(n / 256, width - 1);
      BERoundTrip(n / 256, width - 1);
    }
  }

  /** The value of a big-endian string is below 256 to the power of its length. */
  lemma {:induction false} UnpackBEBound(s: seq<byte>)
    ensures UnpackBE(s) < Pow256(|s|)
  {
    if s != [] {
      UnpackBEBound(s[..|s| - 1]);
    }
  }

  /** `hi << 8 | lo` for a byte `lo`: the digits of `hi` with `lo` appended. */
  function Join(hi: nat, lo: nat): nat {
    hi * 256 + lo
  }

  /** Packing `Join(hi, lo)` puts `lo` in the last byte, after the bytes of `hi`. */
  lemma PackBELast(hi: nat, lo: nat, width: nat)
    requires lo < 256 && width > 0 && hi < Pow256(width - 1)
    ensures Join(hi, lo) < Pow256(width)
    ensures PackBE(Join(hi, lo), width) == PackBE(hi, width - 1) + [lo as byte]
  {
    var n := Join(hi, lo);
    assert n / 256 == hi && n % 256 == lo;
  }

  /*
   * The header's values.
   */

  /** The arguments of HEADER.pack after the magic number. */
  datatype Fields = Fields(
    flash: byte,            // bit i: message i flashes
    border: byte,           // bit i: message i has a border
    modes: seq<byte>,       // one speed/animation byte per message
    lengths: seq<nat>,     // column groups per message
    timestamp: nat)

  const U16_LIMIT: nat := 0x1_0000
  const U64_LIMIT: nat := 0x1_0000_0000_0000_0000

  /** The values `struct.pack` accepts: eight of each per-message item, each in range. */
  predicate Packable(f: Fields) {
    |f.modes| == SLOTS && |f.lengths| == SLOTS &&
    (forall i | 0 <= i < SLOTS :: f.lengths[i] < U16_LIMIT) &&
    f.timestamp < U64_LIMIT
  }

  /** The eight `H` length words, in slot order. */
  function PackWords(ws: seq<nat>): (s: seq<byte>)
    requires forall i | 0 <= i < |ws| :: ws[i] < U16_LIMIT
    ensures |s| == 2 * |ws|
  {
    if ws == [] then [] else PackBE(ws[0], 2) + PackWords(ws[1..])
  }

  lemma {:induction false} PackWordsAt(ws: seq<nat>, i: nat)
    requires forall j | 0 <= j < |ws| :: ws[j] < U16_LIMIT
    requires i < |ws|
    ensures PackWords(ws)[2 * i .. 2 * i + 2] == PackBE(ws[i], 2)
  {
    if i > 0 {
      PackWordsAt(ws[1..], i - 1);
      assert PackWords(ws) == PackBE(ws[0], 2) + PackWords(ws[1..]);
    }
  }

  /** Bytes 0-15 of the header: `4s`, `2x`, `BB` and the eight mode bytes. */
  function HeaderStart(f: Fields): (s: seq<byte>)
    requires |f.modes| == SLOTS
    ensures |s| == 16
  {
    MAGIC + Zeros(2) + [f.flash, f.border] + f.modes
  }

  /** Bytes 32-63 of the header: `4x`, `Q` and `20x`. */
  function HeaderEnd(timestamp: nat): (s: seq<byte>)
    requires timestamp < U64_LIMIT
    ensures |s| == 32
  {
    assert Pow256(8) == U64_LIMIT;
    Zeros(4) + PackBE(timestamp, 8) + Zeros(20)
  }

  /** `HEADER.pack(MAGIC, flash, border, *modes, *lengths, timestamp)`. */
  function PackHeader(f: Fields): (s: seq<byte>)
    requires Packable(f)
    ensures |s| == HEADER_SIZE
  {
    HeaderStart(f) + PackWords(f.lengths) + HeaderEnd(f.timestamp)
  }

  /** The eight length words a header announces. */
  function LengthWords(s: seq<byte>): (ws: seq<nat>)
    requires |s| >= HEADER_SIZE
    ensures |ws| == SLOTS
  {
    seq(SLOTS, i requires 0 <= i < SLOTS => UnpackBE(s[16 + 2 * i .. 18 + 2 * i]))
  }

  /** Reads a header back: the magic number must match; padding is not looked at. */
  function UnpackHeader(s: seq<byte>): Option<Fields> {
    if |s| < HEADER_SIZE || s[..4] != MAGIC then None
    else Some(Fields(s[6], s[7], s[8..16], LengthWords(s), UnpackBE(s[36..44])))
  }

  /**
   * Where every item of the format lands: magic at 0-3, padding at 4-5,
   * flash and border at 6 and 7, the mode of slot i at 8 + i, the length
   * word of slot i at 16 + 2i, padding at 32-35, the timestamp at 36-43 and
   * padding at 44-63.
   */
  lemma {:induction false} HeaderLayout(f: Fields)
    requires Packable(f)
    ensures var s := PackHeader(f);
      && s[0..4] == MAGIC
      && s[4] == 0 && s[5] == 0
      && s[6] == f.flash && s[7] == f.border
      && (forall i | 0 <= i < SLOTS :: s[8 + i] == f.modes[i])
      && (forall i | 0 <= i < SLOTS :: s[16 + 2 * i .. 18 + 2 * i] == PackBE(f.lengths[i], 2))
      && (forall k | 32 <= k < 36 :: s[k] == 0)
      && s[36..44] == PackBE(f.timestamp, 8)
      && (forall k | 44 <= k < HEADER_SIZE :: s[k] == 0)
  {
    var s := PackHeader(f);
    var start := HeaderStart(f);
    var words := PackWords(f.lengths);
    var end := HeaderEnd(f.timestamp);
    assert s[..16] == start && s[16..32] == words && s[32..] == end;
    assert start[..4] == MAGIC && start[4] == 0 && start[5] == 0;
    assert start[8..] == f.modes;
    forall i | 0 <= i < SLOTS
      ensures s[16 + 2 * i .. 18 + 2 * i] == PackBE(f.lengths[i], 2)
    {
      PackWordsAt(f.lengths, i);
      assert s[16 + 2 * i .. 18 + 2 * i] == words[2 * i .. 2 * i + 2];
    }
    assert end[..4] == Zeros(4) && end[4..12] == PackBE(f.timestamp, 8) && end[12..] == Zeros(20);
    assert s[36..44] == end[4..12];
  }

  /** Reading a packed header gives back every value that was packed. */
  lemma HeaderRoundTrip(f: Fields)
    requires Packable(f)
    ensures UnpackHeader(PackHeader(f)) == Some(f)
  {
    var s := PackHeader(f);
    HeaderLayout(f);
    HeaderLengths(f);
    BERoundTrip(f.timestamp, 8);
    var g := UnpackHeader(s).value;
    assert g.modes == f.modes;
    assert g.timestamp == f.timestamp;
  }

  /** The length words read back from a packed header are the ones packed. */
  lemma HeaderLengths(f: Fields)
    requires Packable(f)
    ensures LengthWords(PackHeader(f)) == f.lengths
  {
    var s := PackHeader(f);
    var words := PackWords(f.lengths);
    assert s[16..32] == words;
    forall i | 0 <= i < SLOTS
      ensures LengthWords(s)[i] == f.lengths[i]
    {
      PackWordsAt(f.lengths, i);
      assert s[16 + 2 * i .. 18 + 2 * i] == words[2 * i .. 2 * i + 2];
      BERoundTrip(f.lengths[i], 2);
    }
    assert LengthWords(s) == f.lengths;
  }

  /*
   * Flag and mode bytes.
   */

  /**
   * `sum(flag << i for i, flag in enumerate(flags))`: bit i of the sum is
   * flag i.
   */
  function FlagByte(flags: seq<bool>): (r: nat)
    ensures r < Pow2(|flags|)
  {
    if flags == [] then 0
    else
      var n := |flags| - 1;
      FlagByte(flags[..n]) + (if flags[n] then Pow2(n) else 0)
  }

  /** Bit `k` of the flag byte is flag `k`. */
  lemma {:induction false} FlagByteBits(flags: seq<bool>, k: nat)
    ensures TestBit(FlagByte(flags), k) <==> k < |flags| && flags[k]
  {
    if flags == [] {
      ZeroBits(k);
    } else {
      var n := |flags| - 1;
      var prev := FlagByte(flags[..n]);
      FlagByteBits(flags[..n], k);
      if flags[n] {
        AddHighBit(prev, n, k);
      }
      if k >= n {
        BitsBelow(prev, n, k);
      }
    }
  }

  /**
   * The `B` item `speed << 4 | anim`: Python computes it on unbounded
   * integers and `struct.pack` refuses it outside 0..255, which happens
   * exactly when speed is outside 0..15 or anim outside 0..255 (a negative
   * operand makes the OR negative).
   */
  function ModeByte(speed: int, anim: int): (r: Option<byte>)
    ensures r.Some? <==> 0 <= speed < 16 && 0 <= anim < 256
  {
    if 0 <= speed < 16 && 0 <= anim < 256 then
      assert Pow2(8) == 256;
      OrBelow(speed * 16, anim, 8);
      Some(Or(speed * 16, anim) as byte)
    else None
  }

  /**
   * For an animation index that fits its nibble (the 11 animations do), the
   * mode byte is speed in the high nibble and animation in the low one.
   */
  lemma ModeByteRoundTrip(speed: int, anim: int)
    requires 0 <= speed < 16 && 0 <= anim < 16
    ensures ModeByte(speed, anim).Some?
    ensures ModeByte(speed, anim).value as int == speed * 16 + anim
    ensures ModeByte(speed, anim).value as int / 16 == speed
    ensures ModeByte(speed, anim).value as int % 16 == anim
  {
    assert Pow2(4) == 16;
    OrDisjoint(speed, anim, 4);
  }

  /**
   * Nothing keeps a larger animation number out of the speed nibble: speed
   * 2 with animation 16 packs as speed 3 with animation 0.
   */
  lemma AnimationSpill()
    ensures ModeByte(2, 16) == Some(48) && 48 / 16 == 3 && 48 % 16 == 0
  {
    assert Or(1, 0) == 1;
    assert Or(2, 1) == 3;
    assert Or(4, 2) == 6;
    assert Or(8, 4) == 12;
    assert Or(16, 8) == 24;
    assert Or(32, 16) == 48;
  }

  /*
   * Timestamp.
   */

  /** Calendar fields of `time.localtime()`, as the clock reports them. */
  datatype LocalTime = LocalTime(year: int, mon: int, mday: int, hour: int, min: int, sec: int)

  /** The ranges `time.localtime()` guarantees (seconds go to 61). */
  predicate CalendarFields(t: LocalTime) {
    1 <= t.mon <= 12 && 1 <= t.mday <= 31 && 0 <= t.hour <= 23 && 0 <= t.min <= 59 && 0 <= t.sec <= 61
  }

  /** Years since 1999 in the top 24 bits, then one byte per field. */
  const YEARS_LIMIT: nat := 0x100_0000

  /**
   * `(year - 1999) << 40 | mon << 32 | mday << 24 | hour << 16 | min << 8 | sec`,
   * each `x << k` written as `x * 2^k`; `struct.pack` refuses it as a `Q` item unless the year is from 1999 on
   * and the year count fits the top 24 bits (a negative left operand makes
   * the whole value negative).
   */
  function Timestamp(t: LocalTime): (r: Option<nat>)
    requires CalendarFields(t)
    ensures r.Some? <==> 0 <= t.year - 1999 < YEARS_LIMIT
  {
    if 0 <= t.year - 1999 < YEARS_LIMIT then
      Some(Or(Or(Or(Or(Or((t.year - 1999) * 0x100_0000_0000, t.mon * 0x1_0000_0000),
                       t.mday * 0x100_0000), t.hour * 0x1_0000), t.min * 0x100), t.sec))
    else None
  }

  /** Reads the calendar fields back from the eight timestamp bytes. */
  function UnpackTimestamp(s: seq<byte>): LocalTime
    requires |s| == 8
  {
    LocalTime(UnpackBE(s[..3]) + 1999, s[3] as int, s[4] as int, s[5] as int, s[6] as int, s[7] as int)
  }

  /** One step of the timestamp: a byte field ORed in below the fields before it. */
  lemma OrField(acc: nat, field: nat, k: nat)
    requires field < 256
    ensures Or(Shl(acc, k + 8), Shl(field, k)) == Shl(acc * 256 + field, k)
  {
    Pow2Add(8, k);
    assert Shl(acc, k + 8) == Shl(acc * 256, k);
    OrShifted(acc * 256, field, k);
    OrDisjoint(acc, field, 8);
  }

  /** The same step with the powers of two written out as numbers. */
  lemma OrByteAt(acc: nat, field: nat, k: nat, high: nat, low: nat)
    requires field < 256 && low == Pow2(k) && high == 256 * low
    ensures Or(acc * high, field * low) == Join(acc, field) * low
  {
    OrField(acc, field, k);
    Pow2Add(8, k);
    assert Pow2(8) == 256;
    assert Pow2(k + 8) == high;
    assert Shl(acc, k + 8) == acc * high;
    assert Shl(field, k) == field * low;
  }

  lemma Powers()
    ensures Pow2(0) == 1 && Pow2(8) == 0x100 && Pow2(16) == 0x1_0000 && Pow2(24) == 0x100_0000
    ensures Pow2(32) == 0x1_0000_0000
  {
  }

  /** ORing byte fields in below each other writes them side by side. */
  lemma OrChain(y: nat, mon: nat, mday: nat, hour: nat, min: nat, sec: nat)
    requires mon < 256 && mday < 256 && hour < 256 && min < 256 && sec < 256
    ensures Or(Or(Or(Or(Or(y * 0x100_0000_0000, mon * 0x1_0000_0000), mday * 0x100_0000),
                     hour * 0x1_0000), min * 0x100), sec)
      == Join(Join(Join(Join(Join(y, mon), mday), hour), min), sec)
  {
    var a := Join(y, mon);
    var b := Join(a, mday);
    var c := Join(b, hour);
    var d := Join(c, min);
    Powers();
    var v1 := Or(y * 0x100_0000_0000, mon * 0x1_0000_0000);
    OrByteAt(y, mon, 32, 0x100_0000_0000, 0x1_0000_0000);
    assert v1 == a * 0x1_0000_0000;
    var v2 := Or(v1, mday * 0x100_0000);
    OrByteAt(a, mday, 24, 0x1_0000_0000, 0x100_0000);
    assert v2 == b * 0x100_0000;
    var v3 := Or(v2, hour * 0x1_0000);
    OrByteAt(b, hour, 16, 0x100_0000, 0x1_0000);
    assert v3 == c * 0x1_0000;
    var v4 := Or(v3, min * 0x100);
    OrByteAt(c, min, 8, 0x1_0000, 0x100);
    assert v4 == d * 0x100;
    OrByteAt(d, sec, 0, 0x100, 1);
    assert Or(v4, sec * 1) == Join(d, sec) * 1;
  }

  /** The calendar fields one byte each below the years since 1999. */
  function Fielded(t: LocalTime): nat
    requires CalendarFields(t) && 0 <= t.year - 1999
  {
    Join(Join(Join(Join(Join(t.year - 1999, t.mon), t.mday), t.hour), t.min), t.sec)
  }

  /** The timestamp is the fields written one byte each below the year count. */
  lemma TimestampValue(t: LocalTime)
    requires CalendarFields(t) && 0 <= t.year - 1999 < YEARS_LIMIT
    ensures Timestamp(t) == Some(Fielded(t))
  {
    OrChain(t.year - 1999, t.mon, t.mday, t.hour, t.min, t.sec);
  }

  /** Packing byte fields written side by side gives those bytes back. */
  lemma HornerBytes(y: nat, mon: nat, mday: nat, hour: nat, min: nat, sec: nat)
    requires y < YEARS_LIMIT && mon < 256 && mday < 256 && hour < 256 && min < 256 && sec < 256
    ensures Join(Join(Join(Join(Join(y, mon), mday), hour), min), sec) < U64_LIMIT
    ensures PackBE(Join(Join(Join(Join(Join(y, mon), mday), hour), min), sec), 8) ==
      PackBE(y, 3) + [mon as byte, mday as byte, hour as byte, min as byte, sec as byte]
  {
    var a := Join(y, mon);
    var b := Join(a, mday);
    var c := Join(b, hour);
    var d := Join(c, min);
    var e := Join(d, sec);
    assert Pow256(3) == YEARS_LIMIT;
    assert Pow256(8) == U64_LIMIT;
    var head := PackBE(y, 3);
    PackBELast(y, mon, 4);
    assert PackBE(a, 4) == head + [mon as byte];
    PackBELast(a, mday, 5);
    assert PackBE(b, 5) == head + [mon as byte, mday as byte];
    PackBELast(b, hour, 6);
    assert PackBE(c, 6) == head + [mon as byte, mday as byte, hour as byte];
    PackBELast(c, min, 7);
    assert PackBE(d, 7) == head + [mon as byte, mday as byte, hour as byte, min as byte];
    PackBELast(d, sec, 8);
  }

  /**
   * Bytes 0-2 of the `Q` item hold the years since 1999, bytes 3-7 the
   * month, day, hour, minute and second.
   */
  lemma TimestampBytes(t: LocalTime)
    requires CalendarFields(t) && 0 <= t.year - 1999 < YEARS_LIMIT
    ensures Timestamp(t).Some? && Timestamp(t).value < U64_LIMIT
    ensures PackBE(Timestamp(t).value, 8) ==
      PackBE(t.year - 1999, 3) + [t.mon as byte, t.mday as byte, t.hour as byte, t.min as byte, t.sec as byte]
  {
    TimestampValue(t);
    var v := Fielded(t);
    assert v == Join(Join(Join(Join(Join(t.year - 1999, t.mon), t.mday), t.hour), t.min), t.sec);
    HornerBytes(t.year - 1999, t.mon, t.mday, t.hour, t.min, t.sec);
    assert Timestamp(t).value == v;
  }

  /** Every calendar field is read back from its bytes of the timestamp. */
  lemma TimestampRoundTrip(t: LocalTime)
    requires CalendarFields(t) && 0 <= t.year - 1999 < YEARS_LIMIT
    ensures Timestamp(t).Some? && Timestamp(t).value < U64_LIMIT
    ensures UnpackTimestamp(PackBE(Timestamp(t).value, 8)) == t
  {
    TimestampBytes(t);
    var s := PackBE(Timestamp(t).value, 8);
    assert s[..3] == PackBE(t.year - 1999, 3);
    BERoundTrip(t.year - 1999, 3);
  }
}
