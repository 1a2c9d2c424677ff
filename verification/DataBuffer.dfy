/**
 * The data send buffer of ipfixlolib.c: an array of entries with three positions in it,
 * a store of set headers and the running lengths.
 */
module DataBuffer {
  import opened Options
  import opened Wire
  import opened DataSets

  /** The contents of a send buffer. */
  datatype View = View(
    entries: seq<Entry>, store: seq<SetHeader>, current: nat, committed: nat, marker: nat,
    setCounter: nat, committedDataLength: nat, recordCount: nat, dataLength: U32)

  /** The positions are within the arrays. */
  predicate Bounded(v: View) {
    && |v.entries| == MAX_ENTRIES && |v.store| == MAX_SETS
    && 1 <= v.committed <= v.marker <= v.current <= MAX_ENTRIES && v.setCounter < MAX_SETS
  }

  /** The entries and the positions in them. */
  ghost predicate Placed(v: View, b: Buf) {
    && |v.entries| == MAX_ENTRIES && v.entries[0] == MessageHeader
    && v.current == Slots(b) <= MAX_ENTRIES && v.entries[1..v.current] == LayoutAll(b)
    && v.committed == 1 + |Layout(b.sets)|
    && v.marker == v.committed + if b.open.None? then 0 else 1 + b.open.value.mark
  }

  /** The headers and the lengths. */
  ghost predicate Summed(v: View, b: Buf) {
    && |v.store| == MAX_SETS && v.setCounter == |b.sets| < MAX_SETS && StoreHolds(b.sets, v.store)
    && v.committedDataLength == CommittedLength(b.sets) && v.recordCount == Records(b.sets)
    && (b.open.Some? ==> v.store[v.setCounter].id == b.open.value.id)
    && (b.open.Some? ==> v.dataLength == Low32(|Content(b.open.value.fields)|))
  }

  /** The send buffer v holds the sets of b. */
  ghost predicate Holds(v: View, b: Buf) { WellFormed(b) && Placed(v, b) && Summed(v, b) }

  /** What the checks at the beginning of each call find out. */
  lemma Guards(v: View, b: Buf, op: Op)
    requires Holds(v, b)
    ensures Bounded(v)
    ensures v.current != v.committed <==> b.open.Some?
    ensures b.open.Some? ==> v.setCounter + 1 < MAX_SETS
    ensures Accepts(b, op) <==>
            match op
            case Start(_) => v.current == v.committed && v.current < MAX_ENTRIES - 1 && v.setCounter + 1 < MAX_SETS
            case Put(_) => v.current != v.committed && v.current < MAX_ENTRIES
            case Mark => true
            case _ => v.current != v.committed
  {
  }

  // ----- What each call does to the send buffer

  function Started(v: View, id: U16): View
    requires Bounded(v) && v.current < MAX_ENTRIES
  {
    v.(entries := v.entries[v.current := Header(v.setCounter)],
       store := v.store[v.setCounter := v.store[v.setCounter].(id := id)],
       current := v.current + 1, marker := v.current + 1, dataLength := 0)
  }

  function WithField(v: View, data: seq<Byte>): View
    requires Bounded(v) && v.current < MAX_ENTRIES
  {
    v.(entries := v.entries[v.current := Field(data)],
       current := v.current + 1, dataLength := Low32(v.dataLength + |data|))
  }

  function Ended(v: View, records: U16): View
    requires Bounded(v)
  {
    var length := Low16(v.dataLength + SET_HEADER);
    v.(store := v.store[v.setCounter := v.store[v.setCounter].(length := length)],
       committedDataLength := v.committedDataLength + length, recordCount := v.recordCount + records,
       setCounter := v.setCounter + 1, committed := v.current, marker := v.current)
  }

  /** The entries that are given up are cleared, so they are left open here. */
  function Cancelled(v: View, cleared: seq<Entry>): View
    requires Bounded(v)
  {
    v.(entries := cleared, store := v.store[v.setCounter := v.store[v.setCounter].(id := 0)],
       dataLength := 0, current := v.committed, marker := v.committed)
  }

  function Deleted(v: View, cleared: seq<Entry>, length: U32): View {
    v.(entries := cleared, current := v.marker, dataLength := length)
  }

  // ----- The send buffer goes on holding the sets

  lemma EmptyHolds(v: View)
    requires |v.entries| == MAX_ENTRIES && v.entries[0] == MessageHeader && |v.store| == MAX_SETS
    requires v.current == v.committed == v.marker == 1
    requires v.setCounter == v.committedDataLength == v.recordCount == 0
    ensures Holds(v, EMPTY)
  {
  }

  lemma StartPlaced(v: View, b: Buf, id: U16)
    requires Holds(v, b) && Accepts(b, Start(id))
    ensures Placed(Started(v, id), Apply(b, Start(id)))
  {
    assert Started(v, id).entries[1..v.current + 1] == v.entries[1..v.current] + [Header(v.setCounter)];
    assert LayoutAll(Apply(b, Start(id))) == LayoutAll(b) + [Header(|b.sets|)];
  }

  lemma StartHolds(v: View, b: Buf, id: U16)
    requires Holds(v, b) && Accepts(b, Start(id))
    ensures Holds(Started(v, id), Apply(b, Start(id)))
  {
    StartPlaced(v, b, id);
    StepWellFormed(b, Start(id));
  }

  lemma PutPlaced(v: View, b: Buf, data: seq<Byte>)
    requires Holds(v, b) && Accepts(b, Put(data))
    ensures Placed(WithField(v, data), Apply(b, Put(data)))
  {
    var fields := b.open.value.fields;
    assert WithField(v, data).entries[1..v.current + 1] == v.entries[1..v.current] + [Field(data)];
    assert FieldEntries(fields + [data]) == FieldEntries(fields) + [Field(data)];
    assert LayoutAll(Apply(b, Put(data))) == LayoutAll(b) + [Field(data)];
  }

  lemma ContentLonger(fields: seq<seq<Byte>>, data: seq<Byte>)
    ensures Content(fields + [data]) == Content(fields) + data
  {
    assert (fields + [data])[..|fields|] == fields;
  }

  lemma PutHolds(v: View, b: Buf, data: seq<Byte>)
    requires Holds(v, b) && Accepts(b, Put(data))
    ensures Holds(WithField(v, data), Apply(b, Put(data)))
  {
    PutPlaced(v, b, data);
    StepWellFormed(b, Put(data));
    ContentLonger(b.open.value.fields, data);
    ModuloSum(|Content(b.open.value.fields)|, |data|);
  }

  lemma EndPlaced(v: View, b: Buf, records: U16)
    requires Holds(v, b) && b.open.Some?
    ensures Placed(Ended(v, records), Apply(b, End(records)))
  {
    LastSet(b.sets, DataSet(b.open.value.id, b.open.value.fields, records));
  }

  lemma EndSummed(v: View, b: Buf, records: U16)
    requires Summed(v, b) && Bounded(v) && b.open.Some? && |b.sets| + 1 < MAX_SETS
    ensures Summed(Ended(v, records), Apply(b, End(records)))
  {
    var s := DataSet(b.open.value.id, b.open.value.fields, records);
    LastSet(b.sets, s);
    LengthFieldOf(|Content(s.fields)|);
    assert Ended(v, records).store[|b.sets|] == SetHeader(s.id, LengthField(OnWire(s)));
  }

  lemma EndHolds(v: View, b: Buf, records: U16)
    requires Holds(v, b) && b.open.Some?
    ensures Holds(Ended(v, records), Apply(b, End(records)))
  {
    EndPlaced(v, b, records);
    EndSummed(v, b, records);
    StepWellFormed(b, End(records));
  }

  lemma ModuloSum(a: nat, c: nat)
    ensures Low32(Low32(a) + c) == Low32(a + c)
  {
  }

  lemma ModuloDifference(a: int, c: nat)
    ensures Low32(Low32(a) - c) == Low32(a - c)
  {
  }

  lemma LengthFieldOf(n: nat)
    ensures Low16(Low32(n) + SET_HEADER) == Low16(SET_HEADER + n)
  {
    assert Low32(n) == n - 0x1_0000 * (0x1_0000 * (n / 0x1_0000_0000));
  }

  /** A part of a part. */
  lemma Prefix<T>(s: seq<T>, t: seq<T>, n: nat, m: nat)
    requires 1 <= n <= m <= |s| == |t| && t[..n] == s[..n]
    ensures t[0] == s[0] && t[1..n] == s[1..m][..n - 1]
  {
    assert t[0] == t[..n][0] == s[..n][0];
    assert t[1..n] == t[..n][1..];
    assert s[1..m][..n - 1] == s[..n][1..];
  }

  lemma CancelHolds(v: View, b: Buf, cleared: seq<Entry>)
    requires Holds(v, b) && b.open.Some?
    requires |cleared| == MAX_ENTRIES && cleared[..v.committed] == v.entries[..v.committed]
    ensures Holds(Cancelled(v, cleared), Apply(b, Cancel))
  {
    StepWellFormed(b, Cancel);
    Prefix(v.entries, cleared, v.committed, v.current);
  }

  lemma DeleteHolds(v: View, b: Buf, cleared: seq<Entry>, length: U32)
    requires Holds(v, b) && b.open.Some?
    requires |cleared| == MAX_ENTRIES && cleared[..v.marker] == v.entries[..v.marker]
    requires length == Low32(|Content(b.open.value.fields[..b.open.value.mark])|)
    ensures Holds(Deleted(v, cleared, length), Apply(b, Delete))
  {
    var o := b.open.value;
    StepWellFormed(b, Delete);
    assert FieldEntries(o.fields[..o.mark]) == FieldEntries(o.fields)[..o.mark];
    Prefix(v.entries, cleared, v.marker, v.current);
    assert LayoutAll(Apply(b, Delete)) == LayoutAll(b)[..v.marker - 1];
  }

  /** Where the marker is at the end there is nothing to delete. */
  lemma NothingToDelete(v: View, b: Buf)
    requires Holds(v, b) && b.open.Some? && v.marker == v.current
    ensures Apply(b, Delete) == b
  {
    var o := b.open.value;
    assert |LayoutAll(b)| == |Layout(b.sets)| + 1 + |o.fields|;
    assert o.fields[..o.mark] == o.fields;
  }

  /** The entries and the length that a deletion takes back. */
  lemma OpenFields(v: View, b: Buf)
    requires Holds(v, b) && b.open.Some?
    ensures Bounded(v) && b.open.value.mark <= |b.open.value.fields|
    ensures v.entries[v.marker..v.current] == FieldEntries(b.open.value.fields[b.open.value.mark..])
    ensures v.dataLength == Low32(|Content(b.open.value.fields)|)
  {
    var o := b.open.value;
    assert v.entries[v.marker..v.current] == v.entries[1..v.current][v.marker - 1..];
    assert LayoutAll(b)[v.committed..] == FieldEntries(o.fields);
    assert LayoutAll(b)[v.marker - 1..] == FieldEntries(o.fields)[o.mark..];
  }

  /** The length after one more field has been taken back. */
  lemma TakenBack(total: nat, fields: seq<seq<Byte>>, j: nat)
    requires j < |fields|
    ensures Low32(Low32(total - |Content(fields[..j])|) - |fields[j]|) ==
            Low32(total - |Content(fields[..j + 1])|)
  {
    assert fields[..j + 1] == fields[..j] + [fields[j]];
    ContentLonger(fields[..j], fields[j]);
    ModuloDifference(total - |Content(fields[..j])|, |fields[j]|);
  }

  lemma ContentSplits(fields: seq<seq<Byte>>, mark: nat)
    requires mark <= |fields|
    ensures |Content(fields)| == |Content(fields[..mark])| + |Content(fields[mark..])|
  {
    assert fields == fields[..mark] + fields[mark..];
    JoinAppend(Whole, fields[..mark], fields[mark..]);
  }

  /** What can be seen of a send buffer depends on nothing but the sets and the fields in it. */
  lemma SetsDecide(v: View, b: Buf, w: View, c: Buf)
    requires Holds(v, b) && Holds(w, c) && b.sets == c.sets && (b.open.Some? <==> c.open.Some?)
    requires b.open.Some? ==> b.open.value.fields == c.open.value.fields
    ensures v.current == w.current && v.entries[1..v.current] == w.entries[1..w.current]
    ensures v.committed == w.committed && v.setCounter == w.setCounter
    ensures v.committedDataLength == w.committedDataLength && v.recordCount == w.recordCount
    ensures b.open.Some? ==> v.dataLength == w.dataLength
  {
  }

  class SendBuffer {
    const entries: array<Entry>
    const store: array<SetHeader>
    var current: nat
    var committed: nat
    var marker: nat
    var setCounter: nat
    var committedDataLength: nat
    var recordCount: nat
    var dataLength: U32
    ghost var buf: Buf

    ghost function Contents(): View
      reads this, entries, store
    {
      View(entries[..], store[..], current, committed, marker, setCounter,
           committedDataLength, recordCount, dataLength)
    }

    ghost predicate Valid()
      reads this, entries, store
    {
      Holds(Contents(), buf)
    }

    /** ipfix_init_sendbuffer. */
    constructor ()
      ensures Valid() && fresh(entries) && fresh(store) && buf == EMPTY
    {
      entries := new Entry[MAX_ENTRIES](i => if i == 0 then MessageHeader else Null);
      store := new SetHeader[MAX_SETS](_ => SetHeader(0, 0));
      current, committed, marker := 1, 1, 1;
      setCounter, committedDataLength, recordCount, dataLength := 0, 0, 0, 0;
      buf := EMPTY;
    }

    /** ipfix_reset_sendbuffer. */
    method Reset()
      requires Valid()
      modifies this, store
      ensures Valid() && buf == EMPTY
    {
      current, committed, marker := 1, 1, 1;
      setCounter, committedDataLength, recordCount, dataLength := 0, 0, 0, 0;
      forall k | 0 <= k < store.Length {
        store[k] := SetHeader(0, 0);
      }
      EmptyHolds(Contents());
      buf := EMPTY;
    }

    /** ipfix_start_data_set. */
    method StartSet(id: U16) returns (ok: bool)
      requires Valid()
      modifies this, entries, store
      ensures Valid() && buf == Apply(old(buf), Start(id)) && ok == Accepts(old(buf), Start(id))
      ensures !ok ==> Contents() == old(Contents())
    {
      Guards(Contents(), buf, Start(id));
      if current != committed || current >= MAX_ENTRIES - 1 || setCounter + 1 >= MAX_SETS {
        return false;
      }
      StartHolds(Contents(), buf, id);
      WriteHeader(id);
      buf := Apply(buf, Start(id));
      ok := true;
    }

    method WriteHeader(id: U16)
      requires Bounded(Contents()) && current < MAX_ENTRIES
      modifies this, entries, store
      ensures Contents() == Started(old(Contents()), id) && buf == old(buf)
    {
      store[setCounter] := store[setCounter].(id := id);
      entries[current] := Header(setCounter);
      current := current + 1;
      marker := current;
      dataLength := 0;
    }

    /** ipfix_put_data_field. */
    method PutField(data: seq<Byte>) returns (ok: bool)
      requires Valid()
      modifies this, entries
      ensures Valid() && buf == Apply(old(buf), Put(data)) && ok == Accepts(old(buf), Put(data))
      ensures !ok ==> Contents() == old(Contents())
    {
      Guards(Contents(), buf, Put(data));
      if current == committed || current >= MAX_ENTRIES {
        return false;
      }
      PutHolds(Contents(), buf, data);
      WriteField(data);
      buf := Apply(buf, Put(data));
      ok := true;
    }

    method WriteField(data: seq<Byte>)
      requires Bounded(Contents()) && current < MAX_ENTRIES
      modifies this, entries
      ensures Contents() == WithField(old(Contents()), data) && buf == old(buf)
    {
      entries[current] := Field(data);
      current := current + 1;
      dataLength := Low32(dataLength + |data|);
    }

    /** ipfix_end_data_set; the sequence number increment is kept with the exporter. */
    method EndSet(records: U16) returns (ok: bool)
      requires Valid()
      modifies this, store
      ensures Valid() && buf == Apply(old(buf), End(records)) && ok == Accepts(old(buf), End(records))
      ensures !ok ==> Contents() == old(Contents())
    {
      Guards(Contents(), buf, End(records));
      if current == committed || setCounter + 1 >= MAX_SETS {
        return false;
      }
      EndHolds(Contents(), buf, records);
      Commit(records);
      buf := Apply(buf, End(records));
      ok := true;
    }

    method Commit(records: U16)
      requires Bounded(Contents())
      modifies this, store
      ensures Contents() == Ended(old(Contents()), records) && buf == old(buf)
    {
      var length := Low16(dataLength + SET_HEADER);
      store[setCounter] := store[setCounter].(length := length);
      committedDataLength := committedDataLength + length;
      recordCount := recordCount + records;
      setCounter := setCounter + 1;
      committed := current;
      marker := current;
    }

    /** ipfix_cancel_data_set. */
    method CancelSet() returns (ok: bool)
      requires Valid()
      modifies this, entries, store
      ensures Valid() && buf == Apply(old(buf), Cancel) && ok == Accepts(old(buf), Cancel)
      ensures !ok ==> Contents() == old(Contents())
    {
      Guards(Contents(), buf, Cancel);
      if current == committed || setCounter + 1 >= MAX_SETS {
        return false;
      }
      ghost var before := Contents();
      GiveUp();
      CancelHolds(before, buf, entries[..]);
      buf := Apply(buf, Cancel);
      ok := true;
    }

    method GiveUp()
      requires Bounded(Contents())
      modifies this, entries, store
      ensures Contents() == Cancelled(old(Contents()), entries[..]) && buf == old(buf)
      ensures entries[..committed] == old(entries[..committed])
    {
      store[setCounter] := store[setCounter].(id := 0);
      dataLength := 0;
      var i := committed;
      while i < current
        invariant committed <= i <= current
        invariant entries[..committed] == old(entries[..committed])
        modifies entries
      {
        entries[i] := Null;
        i := i + 1;
      }
      current := committed;
      marker := committed;
    }

    /** ipfix_set_data_field_marker. */
    method SetMarker()
      requires Valid()
      modifies this
      ensures Valid() && buf == Apply(old(buf), Mark)
    {
      marker := current;
      buf := Apply(buf, Mark);
    }

    /** ipfix_delete_data_fields_upto_marker. */
    method DeleteUptoMarker() returns (ok: bool)
      requires Valid()
      modifies this, entries
      ensures Valid() && buf == Apply(old(buf), Delete) && ok == Accepts(old(buf), Delete)
      ensures !ok ==> Contents() == old(Contents())
    {
      Guards(Contents(), buf, Delete);
      if current == committed {
        return false;
      }
      if marker < current {
        DeleteFields();
      } else {
        NothingToDelete(Contents(), buf);
      }
      ok := true;
    }

    method DeleteFields()
      requires Valid() && buf.open.Some?
      modifies this, entries
      ensures Valid() && buf == Apply(old(buf), Delete)
    {
      ghost var before := Contents();
      ghost var fields, mark := buf.open.value.fields, buf.open.value.mark;
      OpenFields(before, buf);
      ContentSplits(fields, mark);
      Shrink(|Content(fields)|, fields[mark..]);
      DeleteHolds(before, buf, entries[..], dataLength);
      buf := Apply(buf, Delete);
    }

    method Shrink(ghost total: nat, ghost fields: seq<seq<Byte>>)
      requires marker <= current <= entries.Length
      requires entries[marker..current] == FieldEntries(fields) && dataLength == Low32(total)
      modifies this, entries
      ensures Contents() == Deleted(old(Contents()), entries[..], dataLength) && buf == old(buf)
      ensures dataLength == Low32(total - |Content(fields)|)
      ensures marker <= entries.Length && entries[..marker] == old(entries[..marker])
    {
      TakeBack(total, fields);
      current := marker;
    }

    /** Its loop. */
    method TakeBack(ghost total: nat, ghost fields: seq<seq<Byte>>)
      requires marker <= current <= entries.Length
      requires entries[marker..current] == FieldEntries(fields) && dataLength == Low32(total)
      modifies this`dataLength, entries
      ensures dataLength == Low32(total - |Content(fields)|)
      ensures entries[..marker] == old(entries[..marker])
    {
      ghost var before := entries[..];
      var i := marker;
      while i < current
        invariant marker <= i <= current
        invariant entries[..marker] == before[..marker]
        invariant entries[i..current] == before[i..current]
        invariant dataLength == Low32(total - |Content(fields[..i - marker])|)
      {
        ghost var j := i - marker;
        assert entries[i] == entries[i..current][0] == before[marker..current][j] == Field(fields[j]);
        TakenBack(total, fields, j);
        dataLength := Low32(dataLength - |entries[i].bytes|);
        entries[i] := Null;
        i := i + 1;
      }
      assert fields[..current - marker] == fields;
    }

    /** A call of the user. */
    method Call(op: Op) returns (ok: bool)
      requires Valid()
      modifies this, entries, store
      ensures Valid() && buf == Apply(old(buf), op) && ok == Accepts(old(buf), op)
      ensures !ok ==> Contents() == old(Contents())
    {
      match op
      case Start(id) => ok := StartSet(id);
      case Put(data) => ok := PutField(data);
      case End(records) => ok := EndSet(records);
      case Cancel => ok := CancelSet();
      case Mark => SetMarker(); ok := true;
      case Delete => ok := DeleteUptoMarker();
    }

    /** The bytes of the committed entries are the body that the ended sets make. */
    lemma CommittedBytes()
      requires Valid()
      ensures 1 <= committed <= entries.Length
      ensures Gathered(entries[1..committed], store[..]) == Body(buf.sets)
    {
      assert entries[1..committed] == entries[1..current][..committed - 1];
      assert LayoutAll(buf)[..committed - 1] == Layout(buf.sets);
      GatheredBody(buf.sets, store[..]);
    }

    /** A collector reads back the ended sets exactly when each of them is shorter than 2^16 bytes. */
    lemma ReadBack()
      requires Valid()
      ensures 1 <= committed <= entries.Length
      ensures ParseSets(Gathered(entries[1..committed], store[..])) == Some(WireSets(buf.sets)) <==> AllFit(buf.sets)
    {
      CommittedBytes();
      BodyRoundTrip(buf.sets);
    }

    /**
     * Any run of calls on a new or reset buffer.  A collector reads back from the committed
     * entries exactly the sets that the run has ended, if and only if each of them is
     * shorter than 2^16 bytes.
     */
    method AnyRun(ops: seq<Op>)
      requires Valid() && buf == EMPTY
      modifies this, entries, store
      ensures Valid() && buf == Run(EMPTY, ops)
      ensures
        var sets := Run(EMPTY, ops).sets;
        ParseSets(Gathered(entries[1..committed], store[..])) == Some(WireSets(sets)) <==> AllFit(sets)
    {
      assert ops[..0] == [];
      for k := 0 to |ops|
        invariant Valid() && buf == Run(EMPTY, ops[..k])
      {
        var ok := Call(ops[k]);
        assert ops[..k + 1][..k] == ops[..k];
      }
      assert ops[..|ops|] == ops;
      ReadBack();
    }
  }
}
