/**
 * How long a message gets: ipfix_get_remaining_space tells the user how many bytes are left,
 * and a user who asks before each call stays within the limit.
 */
module MessageSize {
  import opened Options
  import opened Wire
  import opened DataSets
  import opened DataBuffer

  const MESSAGE_HEADER := 16

  // ----- Remaining space

  /** The bytes of the set that is being built. */
  function OpenLength(b: Buf): nat {
    if b.open.None? then 0 else SET_HEADER + |Content(b.open.value.fields)|
  }

  /** The size of the message if the open set were ended now. */
  function Used(b: Buf): nat { MESSAGE_HEADER + |Body(b.sets)| + OpenLength(b) }

  function Space(b: Buf, max: U16): U16 { if Used(b) < max then max - Used(b) else 0 }

  /** No length has been cut off to 16 bits. */
  predicate Exact(b: Buf) { AllFit(b.sets) && OpenLength(b) < 0x1_0000 }

  /** The value of x in a signed 32-bit variable. */
  function Int32(x: int): int { Low32(x + 0x8000_0000) - 0x8000_0000 }

  /** What the length fields of the ended sets and the open set say about the size. */
  function Counted(b: Buf): nat { MESSAGE_HEADER + CommittedLength(b.sets) + OpenLength(b) }

  function Clamped(x: int): U16 { if x < 0 then 0 else if x > 0xFFFF then 0xFFFF else x }

  /** What the code reports. */
  function Reported(b: Buf, max: U16): U16 { Clamped(Int32(max - Counted(b))) }

  /**
   * When the report is right: the count is below the maximum and no ended set was cut off, or,
   * modulo 2^32, the count is above the maximum by at most 2^31.
   */
  predicate ReportsTruly(b: Buf, max: U16) {
    (AllFit(b.sets) && Counted(b) <= max) || Low32(Counted(b) - max) <= 0x8000_0000
  }

  /** ipfix_get_remaining_space: the space that is left, exactly when the report is true. */
  method RemainingSpace(sb: SendBuffer, max: U16) returns (space: U16)
    requires sb.Valid()
    ensures space == Reported(sb.buf, max)
    ensures space == Space(sb.buf, max) <==> ReportsTruly(sb.buf, max)
  {
    CountersOf(sb.Contents(), sb.buf);
    ReportIsExact(sb.buf, max);
    space := SpaceLeft(max, sb.committedDataLength, sb.current != sb.committed, sb.dataLength);
    if sb.buf.open.Some? {
      Unwrapped(max - MESSAGE_HEADER - CommittedLength(sb.buf.sets) - SET_HEADER, OpenLength(sb.buf) - SET_HEADER);
    }
  }

  method SpaceLeft(max: U16, committedDataLength: nat, open: bool, dataLength: U32) returns (space: U16)
    ensures
      var used := MESSAGE_HEADER + committedDataLength + if open then SET_HEADER + dataLength else 0;
      space == Clamped(Int32(max - used))
  {
    var left := Int32(max - MESSAGE_HEADER - committedDataLength);
    if open {
      Int32Once(max - MESSAGE_HEADER - committedDataLength, SET_HEADER);
      left := Int32(left - SET_HEADER);
      Int32Once(max - MESSAGE_HEADER - committedDataLength - SET_HEADER, dataLength);
      left := Int32(left - dataLength);
    }
    if left < 0 {
      left := 0;
    }
    if left > 0xFFFF {
      left := 0xFFFF;
    }
    space := left;
  }

  lemma Int32Once(x: int, c: nat)
    ensures Int32(Int32(x) - c) == Int32(x - c)
  {
    ModuloDifference(x + 0x8000_0000, c);
  }

  /** Subtracting a number that has wrapped around gives the same. */
  lemma Unwrapped(x: int, c: nat)
    ensures Int32(x - Low32(c)) == Int32(x - c)
  {
    WrapsAway(x + 0x8000_0000 - c, c / 0x1_0000_0000);
    assert Low32(c) == c - 0x1_0000_0000 * (c / 0x1_0000_0000);
  }

  lemma WrapsAway(x: int, k: nat)
    ensures Low32(x + 0x1_0000_0000 * k) == Low32(x)
  {
  }

  lemma CountersOf(v: View, b: Buf)
    requires Holds(v, b)
    ensures v.committedDataLength == CommittedLength(b.sets) && (v.current != v.committed <==> b.open.Some?)
    ensures b.open.Some? ==> v.dataLength == Low32(OpenLength(b) - SET_HEADER)
  {
    Guards(v, b, Mark);
  }

  /** A set that was cut off alone is longer than any message may be. */
  lemma CutOffIsLong(sets: seq<DataSet>)
    requires !AllFit(sets)
    ensures |Body(sets)| >= 0x1_0000
  {
    var s :| s in sets && !Fits(OnWire(s));
    SetWithinBody(sets, s);
  }

  /** The sign of a difference in 32 bits. */
  lemma SignOf(x: int)
    ensures Int32(-x) <= 0 <==> Low32(x) <= 0x8000_0000
  {
  }

  lemma ReportIsExact(b: Buf, max: U16)
    ensures Reported(b, max) == Space(b, max) <==> ReportsTruly(b, max)
  {
    SignOf(Counted(b) - max);
    if AllFit(b.sets) {
      CommittedIsExact(b.sets);
    } else {
      CutOffIsLong(b.sets);
    }
  }

  /** For a message below 2^31 bytes: right unless a set was cut off and space seems to be left. */
  lemma ReportBelowWrap(b: Buf, max: U16)
    requires Counted(b) <= 0x8000_0000
    ensures ReportsTruly(b, max) <==> AllFit(b.sets) || max <= Counted(b)
  {
  }

  lemma RunOfThree(first: Op, second: Op, third: Op)
    ensures Run(EMPTY, [first, second, third]) == Apply(Apply(Apply(EMPTY, first), second), third)
  {
    assert [first, second, third] == [first] + [second] + [third];
    RunAround(EMPTY, first, [second], third);
    assert [second][..0] == [];
    assert Run(Apply(EMPTY, first), [second]) == Apply(Run(Apply(EMPTY, first), []), second);
  }

  /** A message with one set of one field. */
  function OneSet(id: U16, data: seq<Byte>, records: U16): Buf { Buf([DataSet(id, [data], records)], None) }

  lemma BuildOneSet(id: U16, data: seq<Byte>, records: U16)
    ensures Run(EMPTY, [Start(id), Put(data), End(records)]) == OneSet(id, data, records)
  {
    RunOfThree(Start(id), Put(data), End(records));
    assert Slots(EMPTY) == 1 && Slots(Buf([], Some(Building(id, [], 0)))) == 2;
    assert [] + [data] == [data];
  }

  lemma OneSetLengths(id: U16, data: seq<Byte>, records: U16)
    ensures Counted(OneSet(id, data, records)) == MESSAGE_HEADER + Low16(SET_HEADER + |data|)
    ensures Used(OneSet(id, data, records)) == MESSAGE_HEADER + SET_HEADER + |data|
  {
    var s := DataSet(id, [data], records);
    ContentLonger([], data);
    assert [] + [data] == [data] && Content([data]) == data;
    LastSet([], s);
    assert [] + [s] == [s];
    BodyLast([s]);
    assert [s][..0] == [];
    EncodedLength(OnWire(s));
  }

  /** A data set of 65532 bytes has the length field 0: the whole message is reported to be free. */
  lemma SpaceWronglyReported(data: seq<Byte>)
    requires |data| == 65532
    ensures
      var b := Run(EMPTY, [Start(300), Put(data), End(1)]);
      b == OneSet(300, data, 1) && Reported(b, 1400) == 1384 && Space(b, 1400) == 0
  {
    BuildOneSet(300, data, 1);
    OneSetLengths(300, data, 1);
  }

  // ----- The size bound

  /** A user who asks for the remaining space before starting a set or putting a field. */
  predicate Polite(b: Buf, max: U16, op: Op) {
    && (op.Start? ==> Reported(b, max) >= SET_HEADER)
    && (op.Put? ==> Reported(b, max) >= |op.data|)
  }

  predicate PoliteRun(b: Buf, max: U16, ops: seq<Op>) {
    ops == [] || (PoliteRun(b, max, ops[..|ops| - 1]) && Polite(Run(b, ops[..|ops| - 1]), max, ops[|ops| - 1]))
  }

  /** The message stays within the limit, or nothing is in it. */
  predicate Within(b: Buf, max: U16) {
    (b == EMPTY || Used(b) <= max) && (b.open.Some? ==> b.open.value.mark <= |b.open.value.fields|)
  }

  lemma {:induction false} SetWithinBody(sets: seq<DataSet>, s: DataSet)
    requires s in sets
    ensures SET_HEADER + |Content(s.fields)| <= |Body(sets)|
  {
    BodyLast(sets);
    EncodedLength(OnWire(sets[|sets| - 1]));
    if s != sets[|sets| - 1] {
      assert sets == sets[..|sets| - 1] + [sets[|sets| - 1]];
      SetWithinBody(sets[..|sets| - 1], s);
    }
  }

  lemma WithinIsExact(b: Buf, max: U16)
    requires Within(b, max)
    ensures Exact(b)
  {
    forall s | s in b.sets
      ensures Fits(OnWire(s))
    {
      SetWithinBody(b.sets, s);
    }
  }

  /** Within the limit the code reports the space that is left. */
  lemma WithinReportsTruly(b: Buf, max: U16)
    requires Within(b, max)
    ensures Reported(b, max) == Space(b, max)
  {
    WithinIsExact(b, max);
    CommittedIsExact(b.sets);
    assert Used(EMPTY) == MESSAGE_HEADER;
    ReportBelowWrap(b, max);
    ReportIsExact(b, max);
  }

  lemma UsedAfterEnd(b: Buf, records: U16)
    requires b.open.Some?
    ensures Used(Apply(b, End(records))) == Used(b)
  {
    var s := DataSet(b.open.value.id, b.open.value.fields, records);
    assert (b.sets + [s])[..|b.sets|] == b.sets;
    BodyLast(b.sets + [s]);
    EncodedLength(OnWire(s));
  }

  /** No operation but a start or a put makes the message longer. */
  lemma UsedAfter(b: Buf, op: Op)
    requires Accepts(b, op)
    ensures Used(Apply(b, op)) <= Used(b) + if op.Start? then SET_HEADER else if op.Put? then |op.data| else 0
  {
    match op
    case End(records) => UsedAfterEnd(b, records);
    case Put(data) => ContentLonger(b.open.value.fields, data);
    case Delete =>
      var o := b.open.value;
      if o.mark <= |o.fields| {
        ContentSplits(o.fields, o.mark);
      }
    case _ =>
  }

  lemma PoliteStep(b: Buf, max: U16, op: Op)
    requires Within(b, max) && Polite(b, max, op)
    ensures Within(Apply(b, op), max)
  {
    if Accepts(b, op) {
      WithinReportsTruly(b, max);
      UsedAfter(b, op);
      if b == EMPTY {
        assert Used(EMPTY) == MESSAGE_HEADER;
      }
    }
  }

  /**
   * Over every run of a polite user the message stays within the limit, no length field is
   * cut off, and so a collector reads back what was put in.
   */
  lemma {:induction false} SizeBound(max: U16, ops: seq<Op>)
    requires PoliteRun(EMPTY, max, ops)
    ensures
      var b := Run(EMPTY, ops);
      && Within(b, max) && Exact(b)
      && ParseSets(Body(b.sets)) == Some(WireSets(b.sets))
  {
    if ops != [] {
      SizeBound(max, ops[..|ops| - 1]);
      PoliteStep(Run(EMPTY, ops[..|ops| - 1]), max, ops[|ops| - 1]);
    }
    WithinIsExact(Run(EMPTY, ops), max);
    BodyRoundTrip(Run(EMPTY, ops).sets);
  }

  lemma StaysWithin(max: U16, ops: seq<Op>)
    requires PoliteRun(EMPTY, max, ops)
    ensures Run(EMPTY, ops) == EMPTY || Used(Run(EMPTY, ops)) <= max
  {
    SizeBound(max, ops);
  }
}
