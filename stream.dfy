/**
 * The device configuration (class Model of design.py): eight message slots,
 * the bytestream they encode to (`genBytestream`) and the size gate the
 * window applies before the stream is saved or sent (`_get_bytestream`).
 */
module Stream {
  import opened Wrappers
  import opened Bytes
  import opened Bitmaps
  import opened Header
  import opened Messages

  /** Why no bytestream is handed on. */
  datatype Error =
    | StructError          // a header value out of its struct field's range
    | NothingToProgram     // every slot's bitmap is absent
    | TooMuchData          // header and payload exceed the device's memory

  /** The bitmap each slot contributes: its own when active, the absent bitmap otherwise. */
  function SlotBitmaps(messages: seq<Message>, r: Rasterizer): (bs: seq<Bitmap>)
    ensures |bs| == |messages|
    ensures forall i | 0 <= i < |messages| :: !messages[i].active ==> bs[i] == Empty
    ensures forall i | 0 <= i < |messages| ::
      messages[i].active && messages[i].bitmap.Some? ==> bs[i] == messages[i].bitmap.value
  {
    seq(|messages|, i requires 0 <= i < |messages| =>
      if messages[i].active then GenBitmap(messages[i], r) else Empty)
  }

  predicate AllAbsent(bs: seq<Bitmap>) {
    forall i | 0 <= i < |bs| :: !IsPresent(bs[i])
  }

  /*
   * The payload: every slot's bitmap bytes, in slot order.
   */

  function Payload(bs: seq<Bitmap>): seq<byte> {
    if bs == [] then [] else bs[0].data + Payload(bs[1..])
  }

  /** Number of payload bytes. */
  function TotalSize(bs: seq<Bitmap>): nat {
    if bs == [] then 0 else |bs[0].data| + TotalSize(bs[1..])
  }

  lemma {:induction false} PayloadLength(bs: seq<Bitmap>)
    ensures |Payload(bs)| == TotalSize(bs)
  {
    if bs != [] {
      PayloadLength(bs[1..]);
    }
  }

  lemma {:induction false} TotalSizeSplit(bs: seq<Bitmap>, i: nat)
    requires i < |bs|
    ensures TotalSize(bs[..i + 1]) == TotalSize(bs[..i]) + |bs[i].data|
    ensures TotalSize(bs[..i + 1]) <= TotalSize(bs)
  {
    if i > 0 {
      TotalSizeSplit(bs[1..], i - 1);
      assert bs[..i + 1][1..] == bs[1..][..i];
      assert bs[..i][1..] == bs[1..][..i - 1];
    } else {
      assert bs[..1][1..] == [];
      assert bs[1..][..0] == [];
      TotalSizeBound(bs[1..], 0);
    }
  }

  lemma {:induction false} TotalSizeBound(bs: seq<Bitmap>, i: nat)
    requires i <= |bs|
    ensures TotalSize(bs[..i]) <= TotalSize(bs)
  {
    if i > 0 {
      TotalSizeBound(bs[1..], i - 1);
      assert bs[..i][1..] == bs[1..][..i - 1];
    }
  }

  /** Slot i's bytes sit in the payload right after those of the slots before it. */
  lemma {:induction false} PayloadAt(bs: seq<Bitmap>, i: nat)
    requires i < |bs|
    ensures TotalSize(bs[..i]) + |bs[i].data| <= |Payload(bs)|
    ensures Payload(bs)[TotalSize(bs[..i]) .. TotalSize(bs[..i]) + |bs[i].data|] == bs[i].data
  {
    PayloadLength(bs);
    TotalSizeSplit(bs, i);
    if i > 0 {
      PayloadAt(bs[1..], i - 1);
      assert bs[..i][1..] == bs[1..][..i - 1];
      assert TotalSize(bs[..i]) == |bs[0].data| + TotalSize(bs[1..][..i - 1]);
      var off := TotalSize(bs[1..][..i - 1]);
      var n := |bs[0].data|;
      assert Payload(bs) == bs[0].data + Payload(bs[1..]);
      assert Payload(bs)[n + off .. n + off + |bs[i].data|] == Payload(bs[1..])[off .. off + |bs[i].data|];
    } else {
      assert bs[..0] == [];
      assert Payload(bs) == bs[0].data + Payload(bs[1..]);
    }
  }

  /** When only slot k holds data, the payload is that slot's data. */
  lemma {:induction false} PayloadSingle(bs: seq<Bitmap>, k: nat)
    requires k < |bs|
    requires forall j | 0 <= j < |bs| && j != k :: bs[j].data == []
    ensures Payload(bs) == bs[k].data
  {
    if k > 0 {
      PayloadSingle(bs[1..], k - 1);
    } else {
      PayloadEmpty(bs[1..]);
    }
  }

  lemma {:induction false} PayloadEmpty(bs: seq<Bitmap>)
    requires forall j | 0 <= j < |bs| :: bs[j].data == []
    ensures Payload(bs) == []
  {
    if bs != [] {
      PayloadEmpty(bs[1..]);
    }
  }

  /*
   * The header values taken from the slots.
   */

  /** The values each of the header's struct fields accepts. */
  predicate InRange(messages: seq<Message>, bs: seq<Bitmap>, t: LocalTime)
    requires |messages| == SLOTS && |bs| == SLOTS
  {
    (forall i | 0 <= i < SLOTS :: 0 <= messages[i].speed < 16 && 0 <= messages[i].anim < 256) &&
    (forall i | 0 <= i < SLOTS :: NBytes(bs[i]) < U16_LIMIT) &&
    0 <= t.year - 1999 < YEARS_LIMIT
  }

  function FlashFlags(messages: seq<Message>): (flags: seq<bool>)
    ensures |flags| == |messages| && forall i | 0 <= i < |messages| :: flags[i] == messages[i].flash
  {
    seq(|messages|, i requires 0 <= i < |messages| => messages[i].flash)
  }

  function BorderFlags(messages: seq<Message>): (flags: seq<bool>)
    ensures |flags| == |messages| && forall i | 0 <= i < |messages| :: flags[i] == messages[i].border
  {
    seq(|messages|, i requires 0 <= i < |messages| => messages[i].border)
  }

  /** The mode byte of every slot, when each fits. */
  function Modes(messages: seq<Message>): (ms: seq<byte>)
    requires forall i | 0 <= i < |messages| :: 0 <= messages[i].speed < 16 && 0 <= messages[i].anim < 256
    ensures |ms| == |messages|
    ensures forall i | 0 <= i < |messages| :: ModeByte(messages[i].speed, messages[i].anim) == Some(ms[i])
  {
    seq(|messages|, i requires 0 <= i < |messages| => ModeByte(messages[i].speed, messages[i].anim).value)
  }

  function Lengths(bs: seq<Bitmap>): (ls: seq<nat>)
    ensures |ls| == |bs| && forall i | 0 <= i < |bs| :: ls[i] == NBytes(bs[i])
  {
    seq(|bs|, i requires 0 <= i < |bs| => NBytes(bs[i]))
  }

  /** The arguments handed to `HEADER.pack`, or None when `struct.pack` would refuse one. */
  function HeaderFields(messages: seq<Message>, bs: seq<Bitmap>, t: LocalTime): (f: Option<Fields>)
    requires |messages| == SLOTS && |bs| == SLOTS && CalendarFields(t)
    ensures f.Some? <==> InRange(messages, bs, t)
    ensures f.Some? ==> Packable(f.value)
  {
    if InRange(messages, bs, t) then
      TimestampBytes(t);
      assert Pow2(8) == 256;
      Some(Fields(FlagByte(FlashFlags(messages)) as byte, FlagByte(BorderFlags(messages)) as byte,
                  Modes(messages), Lengths(bs), Timestamp(t).value))
    else None
  }

  /**
   * `genBytestream` at local time `t`: empty when every slot's bitmap is
   * absent; otherwise the 64-byte header followed by every slot's bitmap,
   * or StructError when a header value does not fit its field.
   */
  function Bytestream(messages: seq<Message>, t: LocalTime, r: Rasterizer): (res: Result<seq<byte>, Error>)
    requires |messages| == SLOTS && CalendarFields(t)
    ensures var bs := SlotBitmaps(messages, r);
      && (res == Ok([]) <==> AllAbsent(bs))
      && (res.Err? <==> !AllAbsent(bs) && !InRange(messages, bs, t))
      && (res.Err? ==> res.error == StructError)
      && (res.Ok? && !AllAbsent(bs) ==> |res.value| == HEADER_SIZE + TotalSize(bs))
  {
    var bs := SlotBitmaps(messages, r);
    if AllAbsent(bs) then Ok([])
    else
      match HeaderFields(messages, bs, t)
      case None => Err(StructError)
      case Some(f) =>
        PayloadLength(bs);
        Ok(PackHeader(f) + Payload(bs))
  }

  /** A configuration with no active slot programs nothing. */
  lemma InactiveProgramsNothing(messages: seq<Message>, t: LocalTime, r: Rasterizer)
    requires |messages| == SLOTS && CalendarFields(t)
    requires forall i | 0 <= i < SLOTS :: !messages[i].active
    ensures Bytestream(messages, t, r) == Ok([])
  {
    var bs := SlotBitmaps(messages, r);
    assert forall i | 0 <= i < SLOTS :: bs[i] == Empty;
  }

  /** Where the header's values land in a header followed by a payload. */
  lemma StreamLayout(f: Fields, payload: seq<byte>)
    requires Packable(f)
    ensures var s := PackHeader(f) + payload;
      && |s| == HEADER_SIZE + |payload|
      && s[..4] == MAGIC && s[4] == 0 && s[5] == 0
      && s[6] == f.flash && s[7] == f.border
      && (forall i | 0 <= i < SLOTS :: s[8 + i] == f.modes[i])
      && LengthWords(s) == f.lengths
      && (forall k | 32 <= k < 36 :: s[k] == 0)
      && s[36..44] == PackBE(f.timestamp, 8)
      && (forall k | 44 <= k < HEADER_SIZE :: s[k] == 0)
      && s[HEADER_SIZE..] == payload
  {
    var h := PackHeader(f);
    var s := h + payload;
    HeaderLayout(f);
    HeaderLengths(f);
    assert s[..HEADER_SIZE] == h;
    assert s[..4] == h[..4];
    assert s[36..44] == h[36..44];
    assert LengthWords(s) == LengthWords(h) by {
      forall i | 0 <= i < SLOTS
        ensures s[16 + 2 * i .. 18 + 2 * i] == h[16 + 2 * i .. 18 + 2 * i]
      {
      }
    }
  }

  /** A non-empty stream is the header of the slots' values followed by the payload. */
  lemma StreamParts(messages: seq<Message>, t: LocalTime, r: Rasterizer)
    requires |messages| == SLOTS && CalendarFields(t)
    requires Bytestream(messages, t, r).Ok? && Bytestream(messages, t, r).value != []
    ensures var bs := SlotBitmaps(messages, r);
      && HeaderFields(messages, bs, t).Some?
      && Bytestream(messages, t, r).value == PackHeader(HeaderFields(messages, bs, t).value) + Payload(bs)
  {
  }

  /** A non-empty stream announces each slot's column groups and carries the payload after the header. */
  lemma StreamPayload(messages: seq<Message>, t: LocalTime, r: Rasterizer)
    requires |messages| == SLOTS && CalendarFields(t)
    requires Bytestream(messages, t, r).Ok? && Bytestream(messages, t, r).value != []
    ensures var s := Bytestream(messages, t, r).value;
      && |s| >= HEADER_SIZE
      && LengthWords(s) == Lengths(SlotBitmaps(messages, r))
      && s[HEADER_SIZE..] == Payload(SlotBitmaps(messages, r))
  {
    var bs := SlotBitmaps(messages, r);
    StreamParts(messages, t, r);
    StreamLayout(HeaderFields(messages, bs, t).value, Payload(bs));
  }

  /**
   * What every header byte of a non-empty stream says about the slots:
   * the magic number, the flash and border bits of each slot, its mode
   * byte, its length word, the time of encoding, and the payload after.
   */
  lemma BytestreamLayout(messages: seq<Message>, t: LocalTime, r: Rasterizer)
    requires |messages| == SLOTS && CalendarFields(t)
    requires Bytestream(messages, t, r).Ok? && Bytestream(messages, t, r).value != []
    ensures var s := Bytestream(messages, t, r).value;
      var bs := SlotBitmaps(messages, r);
      && |s| == HEADER_SIZE + TotalSize(bs)
      && s[..4] == MAGIC && s[4] == 0 && s[5] == 0
      && (forall i | 0 <= i < SLOTS :: BitSet(s[6], i) == messages[i].flash)
      && (forall i | 0 <= i < SLOTS :: BitSet(s[7], i) == messages[i].border)
      && (forall i | 0 <= i < SLOTS :: ModeByte(messages[i].speed, messages[i].anim) == Some(s[8 + i]))
      && LengthWords(s) == Lengths(bs)
      && (forall k | 32 <= k < 36 :: s[k] == 0)
      && UnpackTimestamp(s[36..44]) == t
      && (forall k | 44 <= k < HEADER_SIZE :: s[k] == 0)
      && s[HEADER_SIZE..] == Payload(bs)
  {
    var s := Bytestream(messages, t, r).value;
    var bs := SlotBitmaps(messages, r);
    StreamParts(messages, t, r);
    var f := HeaderFields(messages, bs, t).value;
    StreamLayout(f, Payload(bs));
    PayloadLength(bs);
    forall i | 0 <= i < SLOTS
      ensures BitSet(s[6], i) == messages[i].flash && BitSet(s[7], i) == messages[i].border
    {
      FlagByteBits(FlashFlags(messages), i);
      FlagByteBits(BorderFlags(messages), i);
    }
    TimestampRoundTrip(t);
  }

  /** Mode bytes of slots in the editor's ranges hold speed in the high and animation in the low nibble. */
  lemma ModeNibbles(messages: seq<Message>, t: LocalTime, r: Rasterizer, i: nat)
    requires |messages| == SLOTS && CalendarFields(t) && i < SLOTS
    requires Bytestream(messages, t, r).Ok? && Bytestream(messages, t, r).value != []
    requires messages[i].anim < |ANIMS|
    ensures var s := Bytestream(messages, t, r).value;
      && s[8 + i] as int / 16 == messages[i].speed
      && s[8 + i] as int % 16 == messages[i].anim
  {
    BytestreamLayout(messages, t, r);
    ModeByteRoundTrip(messages[i].speed, messages[i].anim);
  }

  /** Sum of a sequence of length words. */
  function Sum(ws: seq<nat>): nat {
    if ws == [] then 0 else ws[0] + Sum(ws[1..])
  }

  lemma {:induction false} GroupsSize(bs: seq<Bitmap>)
    requires forall j | 0 <= j < |bs| :: WellFormed(bs[j])
    ensures TotalSize(bs) == HEIGHT * Sum(Lengths(bs))
  {
    if bs != [] {
      GroupsSize(bs[1..]);
      PresentIffGroups(bs[0]);
      assert Lengths(bs)[1..] == Lengths(bs[1..]);
    }
  }

  /** Slot k's bytes in the payload, located by the column-group counts alone. */
  lemma PayloadByGroups(bs: seq<Bitmap>, k: nat)
    requires forall j | 0 <= j < |bs| :: WellFormed(bs[j])
    requires k < |bs|
    ensures |Payload(bs)| == HEIGHT * Sum(Lengths(bs))
    ensures HEIGHT * Sum(Lengths(bs)[..k + 1]) <= |Payload(bs)|
    ensures HEIGHT * Sum(Lengths(bs)[..k]) <= HEIGHT * Sum(Lengths(bs)[..k + 1])
    ensures Payload(bs)[HEIGHT * Sum(Lengths(bs)[..k]) .. HEIGHT * Sum(Lengths(bs)[..k + 1])] == bs[k].data
  {
    PayloadLength(bs);
    GroupsSize(bs);
    GroupsSize(bs[..k]);
    GroupsSize(bs[..k + 1]);
    assert Lengths(bs[..k]) == Lengths(bs)[..k];
    assert Lengths(bs[..k + 1]) == Lengths(bs)[..k + 1];
    PayloadAt(bs, k);
    TotalSizeSplit(bs, k);
  }

  /** Every slot's bitmap is well formed when every stored one is. */
  lemma SlotBitmapsWellFormed(messages: seq<Message>, r: Rasterizer)
    requires forall i | 0 <= i < |messages| :: messages[i].bitmap.Some? ==> WellFormed(messages[i].bitmap.value)
    ensures forall j | 0 <= j < |messages| :: WellFormed(SlotBitmaps(messages, r)[j])
  {
    var bs := SlotBitmaps(messages, r);
    forall j | 0 <= j < |messages|
      ensures WellFormed(bs[j])
    {
      if !messages[j].active {
        assert bs[j] == Empty;
      }
    }
  }

  /**
   * The header's length words account for the whole stream, and the bytes
   * they locate for slot k, HEIGHT per column group after the header and
   * the groups of the slots before it, are `data`.
   */
  predicate Announces(s: seq<byte>, k: nat, data: seq<byte>)
    requires |s| >= HEADER_SIZE && k < SLOTS
  {
    var ws := LengthWords(s);
    && |s| == HEADER_SIZE + HEIGHT * Sum(ws)
    && HEADER_SIZE + HEIGHT * Sum(ws[..k]) <= HEADER_SIZE + HEIGHT * Sum(ws[..k + 1]) <= |s|
    && s[HEADER_SIZE + HEIGHT * Sum(ws[..k]) .. HEADER_SIZE + HEIGHT * Sum(ws[..k + 1])] == data
  }

  /** Slot k's bytes in a stream, located by the stream's own length words. */
  lemma SlotByWords(s: seq<byte>, bs: seq<Bitmap>, k: nat)
    requires |bs| == SLOTS && k < SLOTS
    requires forall j | 0 <= j < SLOTS :: WellFormed(bs[j])
    requires |s| >= HEADER_SIZE && s[HEADER_SIZE..] == Payload(bs) && LengthWords(s) == Lengths(bs)
    ensures Announces(s, k, bs[k].data)
  {
    var ws := LengthWords(s);
    var payload := s[HEADER_SIZE..];
    PayloadByGroups(bs, k);
    var lo := HEIGHT * Sum(ws[..k]);
    var hi := HEIGHT * Sum(ws[..k + 1]);
    assert |payload| == HEIGHT * Sum(ws) && lo <= hi <= |payload|;
    assert payload[lo .. hi] == bs[k].data;
    assert s[HEADER_SIZE + lo .. HEADER_SIZE + hi] == payload[lo .. hi];
  }

  /**
   * A reader needs nothing but the header to find each slot's bitmap: with
   * well-formed stored bitmaps, the stream is exactly as long as its length
   * words announce, and every slot's bitmap lies where they place it.
   */
  lemma StreamSelfDescribing(messages: seq<Message>, t: LocalTime, r: Rasterizer, k: nat)
    requires |messages| == SLOTS && CalendarFields(t) && k < SLOTS
    requires forall i | 0 <= i < SLOTS :: messages[i].bitmap.Some? ==> WellFormed(messages[i].bitmap.value)
    requires Bytestream(messages, t, r).Ok? && Bytestream(messages, t, r).value != []
    ensures |Bytestream(messages, t, r).value| >= HEADER_SIZE
    ensures Announces(Bytestream(messages, t, r).value, k, SlotBitmaps(messages, r)[k].data)
  {
    StreamPayload(messages, t, r);
    SlotBitmapsWellFormed(messages, r);
    SlotByWords(Bytestream(messages, t, r).value, SlotBitmaps(messages, r), k);
  }

  /**
   * One active slot holding a stored bitmap: its length word counts the
   * bitmap's column groups, every other word is zero, and the payload is
   * exactly that bitmap.
   */
  lemma SingleStoredSlot(messages: seq<Message>, t: LocalTime, r: Rasterizer, k: nat, b: Bitmap)
    requires |messages| == SLOTS && CalendarFields(t) && k < SLOTS
    requires messages[k].active && messages[k].bitmap == Some(b) && IsPresent(b)
    requires forall i | 0 <= i < SLOTS && i != k :: !messages[i].active
    requires forall i | 0 <= i < SLOTS :: 0 <= messages[i].speed < 16 && 0 <= messages[i].anim < 256
    requires NBytes(b) < U16_LIMIT && 0 <= t.year - 1999 < YEARS_LIMIT
    ensures Bytestream(messages, t, r).Ok?
    ensures var s := Bytestream(messages, t, r).value;
      && |s| == HEADER_SIZE + |b.data|
      && LengthWords(s)[k] == NBytes(b)
      && (forall i | 0 <= i < SLOTS && i != k :: LengthWords(s)[i] == 0)
      && s[HEADER_SIZE..] == b.data
  {
    var bs := SlotBitmaps(messages, r);
    assert forall i | 0 <= i < SLOTS && i != k :: bs[i] == Empty;
    assert !AllAbsent(bs) by { assert IsPresent(bs[k]); }
    assert InRange(messages, bs, t);
    StreamPayload(messages, t, r);
    PayloadSingle(bs, k);
  }

  /*
   * The size gate of the main window.
   */

  /** The device's memory: 4096 payload bytes and the header. */
  const MAX_STREAM: nat := 4096 + HEADER_SIZE

  /** `_get_bytestream`: an empty stream means nothing to program; a longer one than fits is refused. */
  function GetBytestream(messages: seq<Message>, t: LocalTime, r: Rasterizer): (res: Result<seq<byte>, Error>)
    requires |messages| == SLOTS && CalendarFields(t)
    ensures var bs := SlotBitmaps(messages, r);
      && (res.Ok? <==> !AllAbsent(bs) && InRange(messages, bs, t) && HEADER_SIZE + TotalSize(bs) <= MAX_STREAM)
      && (res.Ok? ==> Bytestream(messages, t, r) == res)
      && (res == Err(NothingToProgram) <==> AllAbsent(bs))
      && (res == Err(TooMuchData) <==>
            !AllAbsent(bs) && InRange(messages, bs, t) && HEADER_SIZE + TotalSize(bs) > MAX_STREAM)
  {
    match Bytestream(messages, t, r)
    case Err(e) => Err(e)
    case Ok(stream) =>
      if |stream| == 0 then Err(NothingToProgram)
      else if |stream| > MAX_STREAM then Err(TooMuchData)
      else Ok(stream)
  }

  /** With well-formed bitmaps the gate admits at most 372 column groups in all. */
  lemma GateGroups(messages: seq<Message>, t: LocalTime, r: Rasterizer)
    requires |messages| == SLOTS && CalendarFields(t)
    requires forall i | 0 <= i < SLOTS :: messages[i].bitmap.Some? ==> WellFormed(messages[i].bitmap.value)
    requires GetBytestream(messages, t, r).Ok?
    ensures Sum(LengthWords(GetBytestream(messages, t, r).value)) <= 372
  {
    var s := GetBytestream(messages, t, r).value;
    StreamSelfDescribing(messages, t, r, 0);
    assert HEIGHT * Sum(LengthWords(s)) <= 4096;
  }

  /*
   * The configuration object.
   */

  /** The eight message slots, edited in place. */
  class Model {
    const messages: array<Message>

    ghost predicate Valid()
      reads this
    {
      messages.Length == SLOTS
    }

    /** Eight default messages. */
    constructor ()
      ensures Valid() && fresh(messages)
      ensures forall i | 0 <= i < SLOTS :: messages[i] == DefaultMessage
    {
      messages := new Message[SLOTS](_ => DefaultMessage);
    }

    /** `updateModel`: the editor's values become slot i's fields; no other slot changes. */
    method UpdateMessage(i: nat, m: Message)
      requires Valid() && i < SLOTS
      modifies messages
      ensures Valid()
      ensures messages[..] == old(messages[..])[i := m]
    {
      messages[i] := m;
    }

    /** `genBytestream`, with the clock reading and the renderer as parameters. */
    method GenBytestream(t: LocalTime, r: Rasterizer) returns (res: Result<seq<byte>, Error>)
      requires Valid() && CalendarFields(t)
      ensures res == Bytestream(messages[..], t, r)
    {
      res := Bytestream(messages[..], t, r);
    }
  }

  /** A freshly built model programs nothing. */
  lemma DefaultProgramsNothing(t: LocalTime, r: Rasterizer)
    requires CalendarFields(t)
    ensures Bytestream(seq(SLOTS, _ => DefaultMessage), t, r) == Ok([])
  {
    InactiveProgramsNothing(seq(SLOTS, _ => DefaultMessage), t, r);
  }
}
