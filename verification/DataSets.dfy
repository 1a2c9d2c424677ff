/**
 * What the data send buffer of an exporter means: the sets that have been ended, and the
 * set that is being built.  The calls of the user become operations on this value.
 */
module DataSets {
  import opened Options
  import opened Wire

  const MAX_ENTRIES := 32 * 1024
  const MAX_SETS := 128

  datatype DataSet = DataSet(id: U16, fields: seq<seq<Byte>>, records: U16)

  /** A set being built; the fields before the mark survive a deletion. */
  datatype Building = Building(id: U16, fields: seq<seq<Byte>>, mark: nat)

  datatype Buf = Buf(sets: seq<DataSet>, open: Option<Building>)

  const EMPTY := Buf([], None)

  function Whole(field: seq<Byte>): seq<Byte> { field }

  /** All fields of a set. */
  function Content(fields: seq<seq<Byte>>): seq<Byte> { Join(Whole, fields) }

  function OnWire(s: DataSet): WireSet { WireSet(s.id, Content(s.fields)) }

  function WireSets(sets: seq<DataSet>): seq<WireSet> {
    if sets == [] then [] else WireSets(sets[..|sets| - 1]) + [OnWire(sets[|sets| - 1])]
  }

  /** The message body that the ended sets make. */
  function Body(sets: seq<DataSet>): seq<Byte> { EncodeSets(WireSets(sets)) }

  /** The sum of the length fields. */
  function CommittedLength(sets: seq<DataSet>): nat {
    if sets == [] then 0
    else CommittedLength(sets[..|sets| - 1]) + LengthField(OnWire(sets[|sets| - 1]))
  }

  function Records(sets: seq<DataSet>): nat {
    if sets == [] then 0 else Records(sets[..|sets| - 1]) + sets[|sets| - 1].records
  }

  predicate AllFit(sets: seq<DataSet>) { forall s :: s in sets ==> Fits(OnWire(s)) }

  // ----- Entries

  /** An entry points to a header in the header store, or to the bytes of a field. */
  datatype Entry = Null | MessageHeader | Header(k: nat) | Field(bytes: seq<Byte>)

  datatype SetHeader = SetHeader(id: U16, length: U16)

  function FieldEntries(fields: seq<seq<Byte>>): seq<Entry> {
    seq(|fields|, i requires 0 <= i < |fields| => Field(fields[i]))
  }

  /** The entries of the ended sets. */
  function Layout(sets: seq<DataSet>): seq<Entry> {
    if sets == [] then []
    else Layout(sets[..|sets| - 1]) + [Header(|sets| - 1)] + FieldEntries(sets[|sets| - 1].fields)
  }

  /** The entries of the whole buffer. */
  function LayoutAll(b: Buf): seq<Entry> {
    match b.open
    case None => Layout(b.sets)
    case Some(o) => Layout(b.sets) + [Header(|b.sets|)] + FieldEntries(o.fields)
  }

  /** One entry is reserved for the message header. */
  function Slots(b: Buf): nat { 1 + |LayoutAll(b)| }

  // ----- Operations

  datatype Op = Start(id: U16) | Put(data: seq<Byte>) | End(records: U16) | Cancel | Mark | Delete

  /** The calls that return 0; the others return -1. */
  predicate Accepts(b: Buf, op: Op) {
    match op
    case Start(_) => b.open.None? && Slots(b) < MAX_ENTRIES - 1 && |b.sets| + 1 < MAX_SETS
    case Put(_) => b.open.Some? && Slots(b) < MAX_ENTRIES
    case End(_) => b.open.Some?
    case Cancel => b.open.Some?
    case Mark => true
    case Delete => b.open.Some?
  }

  function Apply(b: Buf, op: Op): Buf {
    if !Accepts(b, op) then b
    else
      match op
      case Start(id) => b.(open := Some(Building(id, [], 0)))
      case Put(data) => b.(open := Some(b.open.value.(fields := b.open.value.fields + [data])))
      case End(records) => Buf(b.sets + [DataSet(b.open.value.id, b.open.value.fields, records)], None)
      case Cancel => b.(open := None)
      case Mark =>
        if b.open.None? then b else b.(open := Some(b.open.value.(mark := |b.open.value.fields|)))
      case Delete =>
        if b.open.value.mark > |b.open.value.fields| then b
        else b.(open := Some(b.open.value.(fields := b.open.value.fields[..b.open.value.mark])))
  }

  function Run(b: Buf, ops: seq<Op>): Buf {
    if ops == [] then b else Apply(Run(b, ops[..|ops| - 1]), ops[|ops| - 1])
  }

  predicate WellFormed(b: Buf) {
    && Slots(b) <= MAX_ENTRIES && |b.sets| < MAX_SETS
    && (b.open.Some? ==> b.open.value.mark <= |b.open.value.fields| && |b.sets| + 1 < MAX_SETS)
  }

  lemma LastSet(sets: seq<DataSet>, s: DataSet)
    ensures WireSets(sets + [s]) == WireSets(sets) + [OnWire(s)]
    ensures Layout(sets + [s]) == Layout(sets) + [Header(|sets|)] + FieldEntries(s.fields)
    ensures CommittedLength(sets + [s]) == CommittedLength(sets) + LengthField(OnWire(s))
    ensures Records(sets + [s]) == Records(sets) + s.records
  {
    assert (sets + [s])[..|sets|] == sets;
  }

  /** The buffer never overflows, whatever the user calls. */
  lemma StepWellFormed(b: Buf, op: Op)
    requires WellFormed(b)
    ensures WellFormed(Apply(b, op))
  {
    if op.End? && b.open.Some? {
      LastSet(b.sets, DataSet(b.open.value.id, b.open.value.fields, op.records));
    }
  }

  lemma {:induction false} RunWellFormed(b: Buf, ops: seq<Op>)
    requires WellFormed(b)
    ensures WellFormed(Run(b, ops))
  {
    if ops != [] {
      RunWellFormed(b, ops[..|ops| - 1]);
      StepWellFormed(Run(b, ops[..|ops| - 1]), ops[|ops| - 1]);
    }
  }

  lemma {:induction false} RunAppend(b: Buf, s: seq<Op>, t: seq<Op>)
    ensures Run(b, s + t) == Run(Run(b, s), t)
  {
    if t == [] {
      assert s + t == s;
    } else {
      assert (s + t)[..|s + t| - 1] == s + t[..|t| - 1];
      RunAppend(b, s, t[..|t| - 1]);
    }
  }

  lemma RunAround(b: Buf, first: Op, ops: seq<Op>, last: Op)
    ensures Run(b, [first] + ops + [last]) == Apply(Run(Apply(b, first), ops), last)
  {
    RunAppend(b, [first], ops);
    assert ([first] + ops + [last])[..|ops| + 1] == [first] + ops;
    assert [first][..0] == [];
    assert Run(b, [first]) == Apply(Run(b, []), first);
  }

  // ----- Rolling back

  /** After a mark, the fields put since then are all that a deletion takes away. */
  lemma {:induction false} PutsSince(b: Buf, puts: seq<Op>)
    requires b.open.Some? && b.open.value.mark == |b.open.value.fields|
    requires forall op :: op in puts ==> op.Put?
    ensures
      var b' := Run(b, puts);
      && b'.sets == b.sets && b'.open.Some? && b'.open.value.id == b.open.value.id
      && b'.open.value.mark == b.open.value.mark && b.open.value.fields <= b'.open.value.fields
  {
    if puts != [] {
      assert puts[|puts| - 1] in puts;
      PutsSince(b, puts[..|puts| - 1]);
    }
  }

  /** Mark, put, delete: the set is what it was, whatever was put. */
  lemma MarkPutDelete(b: Buf, puts: seq<Op>)
    requires b.open.Some? && forall op :: op in puts ==> op.Put?
    ensures Run(b, [Mark] + puts + [Delete]) == Apply(b, Mark)
    ensures Apply(b, Mark).sets == b.sets && Apply(b, Mark).open.value.fields == b.open.value.fields
  {
    RunAround(b, Mark, puts, Delete);
    var marked := Apply(b, Mark);
    PutsSince(marked, puts);
    var o, o' := marked.open.value, Run(marked, puts).open.value;
    assert o'.fields[..o'.mark] == o.fields;
  }

  /** While a set is being built the ended sets stay as they are. */
  lemma {:induction false} BuildingKeeps(b: Buf, ops: seq<Op>)
    requires forall op :: op in ops ==> op.Put? || op.Mark? || op.Delete?
    ensures Run(b, ops).sets == b.sets && (Run(b, ops).open.Some? <==> b.open.Some?)
  {
    if ops != [] {
      assert ops[|ops| - 1] in ops;
      BuildingKeeps(b, ops[..|ops| - 1]);
    }
  }

  /** A set that is started and cancelled leaves no trace. */
  lemma StartCancel(b: Buf, id: U16, ops: seq<Op>)
    requires b.open.None? && forall op :: op in ops ==> op.Put? || op.Mark? || op.Delete?
    ensures Run(b, [Start(id)] + ops + [Cancel]) == b
  {
    RunAround(b, Start(id), ops, Cancel);
    BuildingKeeps(Apply(b, Start(id)), ops);
  }

  // ----- The bytes of the entries

  function EntryBytes(e: Entry, store: seq<SetHeader>): seq<Byte> {
    match e
    case Header(k) => if k < |store| then Bytes16(store[k].id) + Bytes16(store[k].length) else []
    case Field(bytes) => bytes
    case _ => []
  }

  function Renderer(store: seq<SetHeader>): Entry -> seq<Byte> { e => EntryBytes(e, store) }

  /** The bytes that the entries point to. */
  function Gathered(entries: seq<Entry>, store: seq<SetHeader>): seq<Byte> { Join(Renderer(store), entries) }

  predicate StoreHolds(sets: seq<DataSet>, store: seq<SetHeader>) {
    && |sets| <= |store|
    && forall k :: 0 <= k < |sets| ==> store[k] == SetHeader(sets[k].id, LengthField(OnWire(sets[k])))
  }

  lemma {:induction false} GatheredFields(fields: seq<seq<Byte>>, store: seq<SetHeader>)
    ensures Gathered(FieldEntries(fields), store) == Content(fields)
  {
    if fields != [] {
      var init := fields[..|fields| - 1];
      assert FieldEntries(fields)[..|fields| - 1] == FieldEntries(init);
      GatheredFields(init, store);
    }
  }

  lemma GatheredSet(k: nat, s: DataSet, store: seq<SetHeader>)
    requires k < |store| && store[k] == SetHeader(s.id, LengthField(OnWire(s)))
    ensures Gathered([Header(k)] + FieldEntries(s.fields), store) == EncodeSet(OnWire(s))
  {
    JoinAppend(Renderer(store), [Header(k)], FieldEntries(s.fields));
    GatheredFields(s.fields, store);
    assert Join(Renderer(store), [Header(k)]) == EntryBytes(Header(k), store);
  }

  lemma BodyLast(sets: seq<DataSet>)
    requires sets != []
    ensures Body(sets) == Body(sets[..|sets| - 1]) + EncodeSet(OnWire(sets[|sets| - 1]))
  {
    var wire, init := WireSets(sets), WireSets(sets[..|sets| - 1]);
    assert wire[..|wire| - 1] == init && wire[|wire| - 1] == OnWire(sets[|sets| - 1]);
  }

  /** The entries of the ended sets point to the message body. */
  lemma {:induction false} GatheredBody(sets: seq<DataSet>, store: seq<SetHeader>)
    requires StoreHolds(sets, store)
    ensures Gathered(Layout(sets), store) == Body(sets)
  {
    if sets != [] {
      var init, s := sets[..|sets| - 1], sets[|sets| - 1];
      GatheredBody(init, store);
      GatheredSet(|init|, s, store);
      var last := [Header(|init|)] + FieldEntries(s.fields);
      JoinAppend(Renderer(store), Layout(init), last);
      assert Layout(sets) == Layout(init) + last;
      BodyLast(sets);
    }
  }

  lemma {:induction false} WireSetsMember(sets: seq<DataSet>)
    ensures forall w :: w in WireSets(sets) ==> exists s :: s in sets && OnWire(s) == w
    ensures forall s :: s in sets ==> OnWire(s) in WireSets(sets)
  {
    if sets != [] {
      var init := sets[..|sets| - 1];
      WireSetsMember(init);
      assert sets == init + [sets[|sets| - 1]];
    }
  }

  /** A collector reads the ended sets back exactly when each of them fits in 16 bits. */
  lemma BodyRoundTrip(sets: seq<DataSet>)
    ensures ParseSets(Body(sets)) == Some(WireSets(sets)) <==> AllFit(sets)
  {
    RoundTrip(WireSets(sets));
    WireSetsMember(sets);
  }

  /** Where the sets fit, the sum of the length fields is the length of the body. */
  lemma {:induction false} CommittedIsExact(sets: seq<DataSet>)
    requires AllFit(sets)
    ensures |Body(sets)| == CommittedLength(sets)
  {
    if sets != [] {
      var init, s := sets[..|sets| - 1], sets[|sets| - 1];
      assert s in sets;
      CommittedIsExact(init);
      BodyLast(sets);
      EncodedLength(OnWire(s));
    }
  }

  lemma {:induction false} CommittedBound(sets: seq<DataSet>)
    ensures CommittedLength(sets) <= 0xFFFF * |sets| && Records(sets) <= 0xFFFF * |sets|
  {
    if sets != [] {
      CommittedBound(sets[..|sets| - 1]);
    }
  }
}
