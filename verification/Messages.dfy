/**
 * The headers of the messages that an exporter hands to its collectors, over whole runs:
 * Length and Sequence Number of section 3.1 of RFC 5101.
 */
module Messages {
  import opened Options
  import opened Wire
  import opened DataSets
  import opened DataBuffer
  import opened MessageSize
  import T = TemplateTable

  /**
   * What an exporter does with its buffers.  A data message is handed over with the ended sets:
   * body is what every collector gets, and rest what collectors over UDP get behind it, from a
   * set that is still open.  Ended sets whose length fields add up to 0 are dropped.
   */
  datatype Event =
    | Data(length: U16, sequence: U32, sets: seq<DataSet>, rest: seq<Byte>, body: seq<Byte>)
    | Templates(length: U16, sequence: U32, body: seq<Byte>)
    | Dropped(sets: seq<DataSet>, rest: seq<Byte>)

  /** The data records in the messages of a log. */
  function RecordsSent(log: seq<Event>): nat {
    if log == [] then 0
    else
      var last := log[|log| - 1];
      RecordsSent(log[..|log| - 1]) + if last.Data? then Records(last.sets) else 0
  }

  /** The data records that have been dropped. */
  function RecordsDropped(log: seq<Event>): nat {
    if log == [] then 0
    else
      var last := log[|log| - 1];
      RecordsDropped(log[..|log| - 1]) + if last.Dropped? then Records(last.sets) else 0
  }

  /** The data records that have been ended up to the last data message, sent or not. */
  function Number(log: seq<Event>): nat {
    if log == [] then 0
    else if log[|log| - 1].Data? then RecordsSent(log) + RecordsDropped(log)
    else Number(log[..|log| - 1])
  }

  /** The data records that were dropped before the last data message. */
  function Lost(log: seq<Event>): nat {
    if log == [] then 0
    else if log[|log| - 1].Data? then RecordsDropped(log)
    else Lost(log[..|log| - 1])
  }

  /** Whether an event goes with what has been before: a message says how long it is, and numbers the records. */
  predicate Continues(log: seq<Event>, e: Event) {
    match e
    case Data(length, sequence, sets, _, body) =>
      && CommittedLength(sets) > 0 && body == Body(sets)
      && length == Low16(MESSAGE_HEADER + |body|) && sequence == Low32(Number(log))
    case Templates(length, sequence, body) =>
      length == Low16(MESSAGE_HEADER + |body|) && sequence == Low32(Number(log))
    case Dropped(sets, _) => CommittedLength(sets) == 0
  }

  predicate Correct(log: seq<Event>) {
    log == [] || (Correct(log[..|log| - 1]) && Continues(log[..|log| - 1], log[|log| - 1]))
  }

  lemma {:induction false} CorrectAt(log: seq<Event>, k: nat)
    requires Correct(log) && k < |log|
    ensures Correct(log[..k]) && Continues(log[..k], log[k])
  {
    if k < |log| - 1 {
      CorrectAt(log[..|log| - 1], k);
      assert log[..|log| - 1][..k] == log[..k];
    }
  }

  lemma CorrectLonger(log: seq<Event>, e: Event)
    requires Correct(log) && Continues(log, e)
    ensures Correct(log + [e])
  {
    assert (log + [e])[..|log|] == log;
  }

  /** The length of a message is the number of its bytes exactly when these are fewer than 2^16. */
  lemma LengthIsExact(log: seq<Event>, k: nat)
    requires Correct(log) && k < |log| && !log[k].Dropped?
    ensures log[k].length == MESSAGE_HEADER + |log[k].body| <==> MESSAGE_HEADER + |log[k].body| < 0x1_0000
  {
    CorrectAt(log, k);
  }

  /** Over UDP the length of a data message is the number of its bytes exactly when, besides, no set was open. */
  lemma LengthOverUdp(log: seq<Event>, k: nat)
    requires Correct(log) && k < |log| && log[k].Data?
    ensures log[k].length == MESSAGE_HEADER + |log[k].body + log[k].rest| <==>
            log[k].rest == [] && MESSAGE_HEADER + |log[k].body| < 0x1_0000
  {
    CorrectAt(log, k);
  }

  /** A collector reads back the sets of a message exactly when each of them fits in 16 bits. */
  lemma MessageReadsBack(log: seq<Event>, k: nat)
    requires Correct(log) && k < |log| && log[k].Data?
    ensures ParseSets(log[k].body) == Some(WireSets(log[k].sets)) <==> AllFit(log[k].sets)
  {
    CorrectAt(log, k);
    BodyRoundTrip(log[k].sets);
  }

  // ----- Sequence numbers

  lemma {:induction false} NumberSplits(log: seq<Event>)
    ensures Number(log) == RecordsSent(log) + Lost(log)
  {
    if log != [] {
      NumberSplits(log[..|log| - 1]);
    }
  }

  lemma SequenceAt(log: seq<Event>, k: nat)
    requires Correct(log) && k < |log| && !log[k].Dropped?
    ensures log[k].sequence == Low32(Number(log[..k]))
  {
    CorrectAt(log, k);
  }

  /**
   * The sequence number of a message is the number of data records sent before exactly when the
   * data records dropped before the last data message are none, or a multiple of 2^32.
   */
  lemma SequenceIsExact(log: seq<Event>, k: nat)
    requires Correct(log) && k < |log| && !log[k].Dropped?
    ensures log[k].sequence == Low32(RecordsSent(log[..k])) <==> Low32(Lost(log[..k])) == 0
  {
    SequenceAt(log, k);
    NumberSplits(log[..k]);
    SumShows(RecordsSent(log[..k]), Lost(log[..k]), log[k].sequence);
  }

  lemma SumShows(a: nat, c: nat, sequence: U32)
    requires sequence == Low32(a + c)
    ensures sequence == Low32(a) <==> Low32(c) == 0
  {
  }

  // ----- Lengths

  function Sum<T>(len: T -> nat, s: seq<T>): nat {
    if s == [] then 0 else Sum(len, s[..|s| - 1]) + len(s[|s| - 1])
  }

  lemma WrapsOnce(a: nat, c: nat)
    ensures Low16(Low16(a) + c) == Low16(a + c)
  {
  }

  lemma WrapsRight(a: nat, c: nat)
    ensures Low16(a + Low16(c)) == Low16(a + c)
  {
    WrapsOnce(c, a);
  }

  /** The length that ipfix_update_header computes: from the count, or by adding up the entries. */
  method TotalLength<T>(len: T -> nat, entries: array<T>, current: nat, committedDataLength: nat) returns (total: U16)
    requires 1 <= current <= entries.Length
    ensures total == Low16(MESSAGE_HEADER +
                           if committedDataLength != 0 then committedDataLength else Sum(len, entries[1..current]))
  {
    if committedDataLength != 0 {
      total := Low16(committedDataLength + MESSAGE_HEADER);
    } else {
      total := 0;
      for i := 1 to current
        invariant total == Low16(Sum(len, entries[1..i]))
      {
        assert entries[1..i + 1][..i - 1] == entries[1..i];
        WrapsOnce(Sum(len, entries[1..i]), len(entries[i]));
        total := Low16(total + len(entries[i]));
      }
      WrapsOnce(Sum(len, entries[1..current]), MESSAGE_HEADER);
      total := Low16(total + MESSAGE_HEADER);
    }
  }

  /** In 16 bits, the count of the ended sets is the length of the body, whether the sets fit or not. */
  lemma {:induction false} CountedIsLength(c: nat, sets: seq<DataSet>)
    ensures Low16(c + CommittedLength(sets)) == Low16(c + |Body(sets)|)
    decreases |sets|
  {
    if sets != [] {
      var init, w := sets[..|sets| - 1], OnWire(sets[|sets| - 1]);
      BodyLast(sets);
      EncodedLength(w);
      WrapsRight(c + CommittedLength(init), |EncodeSet(w)|);
      CountedIsLength(c + |EncodeSet(w)|, init);
    }
  }

  // ----- What is handed to ipfix_send_data

  /** The ended sets of a buffer, and whether no other set is open. */
  datatype Batch = Batch(sets: seq<DataSet>, closed: bool)

  function Batched(b: Buf): Batch { Batch(b.sets, b.open.None?) }

  function BatchOf(e: Event): seq<Batch> { if e.Templates? then [] else [Batch(e.sets, e.rest == [])] }

  /** The batches that a log is about, in order. */
  function Batches(log: seq<Event>): seq<Batch> {
    if log == [] then [] else Batches(log[..|log| - 1]) + BatchOf(log[|log| - 1])
  }

  lemma BatchesLonger(log: seq<Event>, e: Event)
    ensures Batches(log + [e]) == Batches(log) + BatchOf(e)
  {
    assert (log + [e])[..|log|] == log;
  }

  lemma {:induction false} BatchAt(log: seq<Event>, k: nat)
    requires k < |log| && !log[k].Templates?
    ensures Batch(log[k].sets, log[k].rest == []) in Batches(log)
  {
    if k < |log| - 1 {
      BatchAt(log[..|log| - 1], k);
    }
  }

  predicate AllShort(batches: seq<Batch>) { forall b :: b in batches ==> AllFit(b.sets) }

  predicate AllClosed(batches: seq<Batch>) { forall b :: b in batches ==> b.closed }

  /** Where each set fits in 16 bits, no data record is dropped. */
  lemma {:induction false} NothingDropped(log: seq<Event>)
    requires Correct(log) && AllShort(Batches(log))
    ensures RecordsDropped(log) == 0 && Lost(log) == 0
  {
    if log != [] {
      var init, last := log[..|log| - 1], log[|log| - 1];
      assert Batches(log) == Batches(init) + BatchOf(last);
      NothingDropped(init);
      if last.Dropped? {
        assert BatchOf(last)[0] in Batches(log);
        if last.sets != [] {
          FittingSetsAreSent(last.sets);
        }
        assert Records([]) == 0;
      }
    }
  }

  lemma {:induction false} BatchesUpTo(log: seq<Event>, k: nat)
    requires k <= |log|
    ensures Batches(log[..k]) <= Batches(log)
  {
    if k == |log| {
      assert log[..k] == log;
    } else {
      BatchesUpTo(log[..|log| - 1], k);
      assert log[..|log| - 1][..k] == log[..k];
    }
  }

  /**
   * A log as a collector expects it: every sequence number is the number of data records sent
   * before, every data message reads back, and nothing but the empty batch is dropped.
   */
  ghost predicate Faithful(log: seq<Event>) {
    forall k :: 0 <= k < |log| ==> FaithfulAt(log, k)
  }

  ghost predicate FaithfulAt(log: seq<Event>, k: nat)
    requires k < |log|
  {
    && (log[k].Dropped? ==> log[k].sets == [])
    && (!log[k].Dropped? ==> log[k].sequence == Low32(RecordsSent(log[..k])))
    && (log[k].Data? ==> ParseSets(log[k].body) == Some(WireSets(log[k].sets)))
  }

  /** Where each set that is handed over fits in 16 bits, the log is faithful; otherwise some batch is lost or misread. */
  lemma ShortIsFaithful(log: seq<Event>)
    requires Correct(log)
    ensures Faithful(log) <==> AllShort(Batches(log))
  {
    if AllShort(Batches(log)) {
      forall k | 0 <= k < |log|
        ensures FaithfulAt(log, k)
      {
        FaithfulIfShort(log, k);
      }
    } else if Faithful(log) {
      ShortIfFaithful(log);
    }
  }

  lemma FaithfulIfShort(log: seq<Event>, k: nat)
    requires Correct(log) && AllShort(Batches(log)) && k < |log|
    ensures FaithfulAt(log, k)
  {
    CorrectAt(log, k);
    BatchesUpTo(log, k);
    NothingDropped(log[..k]);
    if !log[k].Templates? {
      BatchAt(log, k);
    }
    if log[k].Data? {
      MessageReadsBack(log, k);
    } else if log[k].Dropped? && log[k].sets != [] {
      FittingSetsAreSent(log[k].sets);
    }
    if !log[k].Dropped? {
      SequenceIsExact(log, k);
    }
  }

  lemma {:induction false} ShortIfFaithful(log: seq<Event>)
    requires Correct(log) && Faithful(log)
    ensures AllShort(Batches(log))
  {
    if log != [] {
      var init, last := log[..|log| - 1], log[|log| - 1];
      forall k | 0 <= k < |init|
        ensures FaithfulAt(init, k)
      {
        assert FaithfulAt(log, k) && init[..k] == log[..k];
      }
      ShortIfFaithful(init);
      assert FaithfulAt(log, |init|);
      if last.Data? {
        MessageReadsBack(log, |init|);
      }
      assert last.Dropped? ==> AllFit(last.sets);
    }
  }

  lemma ClosedIsWhole(log: seq<Event>)
    requires AllClosed(Batches(log))
    ensures forall k :: 0 <= k < |log| && log[k].Data? ==> log[k].rest == []
  {
    forall k | 0 <= k < |log| && log[k].Data?
      ensures log[k].rest == []
    {
      BatchAt(log, k);
    }
  }

  // ----- The books of an exporter

  /** The data records that have been dropped since the last data message. */
  function Waiting(log: seq<Event>): nat {
    if log == [] || log[|log| - 1].Data? then 0
    else
      var last := log[|log| - 1];
      Waiting(log[..|log| - 1]) + if last.Dropped? then Records(last.sets) else 0
  }

  lemma {:induction false} WaitingIsDropped(log: seq<Event>)
    ensures Number(log) + Waiting(log) == RecordsSent(log) + RecordsDropped(log)
  {
    if log != [] {
      WaitingIsDropped(log[..|log| - 1]);
    }
  }

  ghost predicate Balanced(log: seq<Event>, sequenceNumber: U32, snIncrement: U32, sets: seq<DataSet>) {
    && Correct(log)
    && sequenceNumber == Low32(Number(log)) && snIncrement == Low32(Waiting(log) + Records(sets))
  }

  lemma BalancedEnd(log: seq<Event>, sequenceNumber: U32, snIncrement: U32, b: Buf, records: U16)
    requires Balanced(log, sequenceNumber, snIncrement, b.sets) && b.open.Some?
    ensures Balanced(log, sequenceNumber, Low32(snIncrement + records), Apply(b, End(records)).sets)
  {
    LastSet(b.sets, DataSet(b.open.value.id, b.open.value.fields, records));
    ModuloSum(Waiting(log) + Records(b.sets), records);
  }

  /** No other call changes the ended sets. */
  lemma OthersKeepSets(b: Buf, op: Op)
    ensures !op.End? || b.open.None? ==> Apply(b, op).sets == b.sets
  {
  }

  /** Sending moves the increment into the sequence number. */
  lemma BalancedSend(log: seq<Event>, sequenceNumber: U32, snIncrement: U32, e: Event)
    requires e.Data? && Balanced(log, sequenceNumber, snIncrement, e.sets) && Continues(log, e)
    ensures Balanced(log + [e], Low32(sequenceNumber + snIncrement), 0, [])
  {
    CorrectLonger(log, e);
    WaitingIsDropped(log);
    assert (log + [e])[..|log|] == log;
    assert Number(log + [e]) == Number(log) + (Waiting(log) + Records(e.sets));
    ModuloSums(Number(log), Waiting(log) + Records(e.sets));
  }

  /** Dropping leaves the increment as it is. */
  lemma BalancedDrop(log: seq<Event>, sequenceNumber: U32, snIncrement: U32, e: Event)
    requires e.Dropped? && Balanced(log, sequenceNumber, snIncrement, e.sets) && Continues(log, e)
    ensures Balanced(log + [e], sequenceNumber, snIncrement, [])
  {
    CorrectLonger(log, e);
    assert (log + [e])[..|log|] == log;
  }

  lemma BalancedTemplates(log: seq<Event>, sequenceNumber: U32, snIncrement: U32, sets: seq<DataSet>, e: Event)
    requires e.Templates? && Balanced(log, sequenceNumber, snIncrement, sets) && Continues(log, e)
    ensures Balanced(log + [e], sequenceNumber, snIncrement, sets)
  {
    CorrectLonger(log, e);
    assert (log + [e])[..|log|] == log;
  }

  lemma ModuloSums(a: nat, c: nat)
    ensures Low32(Low32(a) + Low32(c)) == Low32(a + c)
  {
    ModuloSum(a, Low32(c));
    ModuloSum(c, a);
  }

  /** Sets are dropped unsent exactly when their length fields add up to 0; sets that fit never are. */
  lemma FittingSetsAreSent(sets: seq<DataSet>)
    requires AllFit(sets) && sets != []
    ensures CommittedLength(sets) > 0
  {
    assert sets[|sets| - 1] in sets;
  }

  function PointedLength(v: T.Iovec): nat { v.len }

  function EntryLength(store: seq<SetHeader>): Entry -> nat { e => |EntryBytes(e, store)| }

  class Exporter {
    const data: SendBuffer
    var sequenceNumber: U32
    var snIncrement: U32
    ghost var log: seq<Event>

    ghost predicate Valid()
      reads this, data, data.entries, data.store
    {
      data.Valid() && Balanced(log, sequenceNumber, snIncrement, data.buf.sets)
    }

    constructor ()
      ensures Valid() && log == [] && data.buf == EMPTY
      ensures fresh(data) && fresh(data.entries) && fresh(data.store)
    {
      data := new SendBuffer();
      sequenceNumber, snIncrement, log := 0, 0, [];
    }

    /** ipfix_end_data_set. */
    method EndSet(records: U16) returns (ok: bool)
      requires Valid()
      modifies this`snIncrement, data, data.store
      ensures Valid()
      ensures data.buf == Apply(old(data.buf), End(records)) && ok == Accepts(old(data.buf), End(records))
    {
      Guards(data.Contents(), data.buf, Mark);
      if data.current == data.committed || data.setCounter + 1 >= MAX_SETS {
        return false;
      }
      Finish(records);
      ok := true;
    }

    method Finish(records: U16)
      requires Valid() && data.buf.open.Some?
      modifies this`snIncrement, data, data.store
      ensures Valid() && data.buf == Apply(old(data.buf), End(records))
    {
      BalancedEnd(log, sequenceNumber, snIncrement, data.buf, records);
      var ok := data.EndSet(records);
      Count(records);
    }

    method Count(records: U16)
      requires data.Valid()
      requires Balanced(log, sequenceNumber, Low32(snIncrement + records), data.buf.sets)
      modifies this`snIncrement
      ensures Valid()
    {
      snIncrement := Low32(snIncrement + records);
    }

    /** The other calls on the data send buffer. */
    method Call(op: Op) returns (ok: bool)
      requires Valid() && !op.End?
      modifies data, data.entries, data.store
      ensures Valid()
      ensures data.buf == Apply(old(data.buf), op) && ok == Accepts(old(data.buf), op)
    {
      OthersKeepSets(data.buf, op);
      ok := data.Call(op);
    }

    /** The length that ipfix_update_header writes for the data send buffer. */
    method DataLength() returns (length: U16)
      requires data.Valid() && CommittedLength(data.buf.sets) > 0
      ensures length == Low16(MESSAGE_HEADER + |Body(data.buf.sets)|)
    {
      CountersOf(data.Contents(), data.buf);
      CountedIsLength(MESSAGE_HEADER, data.buf.sets);
      Guards(data.Contents(), data.buf, Mark);
      length := TotalLength(EntryLength(data.store[..]), data.entries, data.current, data.committedDataLength);
    }

    /** The entries behind the committed ones. */
    ghost function Rest(): seq<Byte>
      requires data.Valid()
      reads this, data, data.entries, data.store
    {
      Guards(data.Contents(), data.buf, Mark);
      Gathered(data.entries[data.committed..data.current], data.store[..])
    }

    /** What goes out over UDP and over the other transports: all entries, or the committed ones. */
    lemma HandedOver()
      requires data.Valid()
      ensures 1 <= data.committed <= data.current <= data.entries.Length
      ensures Gathered(data.entries[1..data.committed], data.store[..]) == Body(data.buf.sets)
      ensures Gathered(data.entries[1..data.current], data.store[..]) == Body(data.buf.sets) + Rest()
      ensures Rest() == [] <==> data.buf.open.None?
    {
      Guards(data.Contents(), data.buf, Mark);
      data.CommittedBytes();
      var entries := data.entries[..];
      assert entries[1..data.current] == entries[1..data.committed] + entries[data.committed..data.current];
      JoinAppend(Renderer(data.store[..]), entries[1..data.committed], entries[data.committed..data.current]);
      if data.buf.open.None? {
        assert entries[data.committed..data.current] == [];
      } else {
        OpenEntries(data.Contents(), data.buf);
        JoinFirst(Renderer(data.store[..]), entries[data.committed..data.current]);
      }
    }

    /**
     * ipfix_send_data: the committed entries go to all connected collectors, to those over UDP
     * with the entries behind them.  Nothing is sent where the length fields of the sets add up
     * to 0.
     */
    method SendData()
      requires Valid()
      modifies this, data, data.store
      ensures Valid() && data.buf == EMPTY && |log| == |old(log)| + 1 && log[..|old(log)|] == old(log)
      ensures BatchOf(log[|old(log)|]) == [Batched(old(data.buf))] && log[|old(log)|].rest == old(Rest())
      ensures
        if log[|old(log)|].Data? then CommittedLength(old(data.buf.sets)) > 0
        else log[|old(log)|].Dropped? && CommittedLength(old(data.buf.sets)) == 0
      ensures log[|old(log)|].Data? ==>
                log[|old(log)|].sequence == old(sequenceNumber) && log[|old(log)|].body == old(Committed())
    {
      SendOrDrop();
      Clear();
    }

    method SendOrDrop()
      requires Valid()
      modifies this
      ensures data.Valid() && Balanced(log, sequenceNumber, snIncrement, [])
      ensures |log| == |old(log)| + 1 && log[..|old(log)|] == old(log)
      ensures BatchOf(log[|old(log)|]) == [Batched(data.buf)] && log[|old(log)|].rest == Rest()
      ensures
        if log[|old(log)|].Data? then CommittedLength(data.buf.sets) > 0
        else log[|old(log)|].Dropped? && CommittedLength(data.buf.sets) == 0
      ensures log[|old(log)|].Data? ==>
                log[|old(log)|].sequence == old(sequenceNumber) && log[|old(log)|].body == Committed()
    {
      CountersOf(data.Contents(), data.buf);
      HandedOver();
      ghost var sets, rest := data.buf.sets, Rest();
      if data.committedDataLength > 0 {
        var length := DataLength();
        Emit(Data(length, sequenceNumber, sets, rest, Committed()));
      } else {
        Discard(Dropped(sets, rest));
      }
    }

    ghost function Committed(): seq<Byte>
      requires data.Valid()
      reads this, data, data.entries, data.store
    {
      Guards(data.Contents(), data.buf, Mark);
      Gathered(data.entries[1..data.committed], data.store[..])
    }

    method Emit(ghost e: Event)
      requires e.Data? && Balanced(log, sequenceNumber, snIncrement, e.sets) && Continues(log, e)
      modifies this
      ensures Balanced(log, sequenceNumber, snIncrement, []) && log == old(log) + [e]
    {
      BalancedSend(log, sequenceNumber, snIncrement, e);
      Move(e);
    }

    method Move(ghost e: Event)
      requires Balanced(log + [e], Low32(sequenceNumber + snIncrement), 0, [])
      modifies this
      ensures Balanced(log, sequenceNumber, snIncrement, []) && log == old(log) + [e]
    {
      log := log + [e];
      sequenceNumber := Low32(sequenceNumber + snIncrement);
      snIncrement := 0;
    }

    method Discard(ghost e: Event)
      requires e.Dropped? && Balanced(log, sequenceNumber, snIncrement, e.sets) && Continues(log, e)
      modifies this
      ensures Balanced(log, sequenceNumber, snIncrement, []) && log == old(log) + [e]
    {
      BalancedDrop(log, sequenceNumber, snIncrement, e);
      log := log + [e];
    }

    method Clear()
      requires data.Valid() && Balanced(log, sequenceNumber, snIncrement, [])
      modifies data, data.store
      ensures Valid() && data.buf == EMPTY
    {
      data.Reset();
    }

    /** A template send buffer goes out: ipfix_send_templates, dtls_send_templates. */
    method SendTemplates(t: T.TemplateBuffer)
      requires Valid() && t.Valid() && t.Points()
      modifies this`log
      ensures Valid() && |log| == |old(log)| + 1 && log[..|old(log)|] == old(log)
      ensures
        var e := log[|old(log)|];
        e.Templates? && e.body == Content(t.contents) && e.sequence == sequenceNumber
    {
      var length := TemplateLength(t);
      Enter(Templates(length, sequenceNumber, Content(t.contents)));
    }

    method Enter(ghost e: Event)
      requires Valid() && e.Templates? && Continues(log, e)
      modifies this`log
      ensures Valid() && log == old(log) + [e]
    {
      BalancedTemplates(log, sequenceNumber, snIncrement, data.buf.sets, e);
      log := log + [e];
    }
  }

  /** The length that ipfix_update_header writes for a template send buffer. */
  method TemplateLength(t: T.TemplateBuffer) returns (length: U16)
    requires t.Valid()
    ensures length == Low16(MESSAGE_HEADER + |Content(t.contents)|)
  {
    EntriesAdd(t.entries[1..t.current], t.contents);
    length := TotalLength(PointedLength, t.entries, t.current, t.committedDataLength);
  }

  /** The lengths of the entries add up to the length of what they point to. */
  lemma {:induction false} EntriesAdd(entries: seq<T.Iovec>, contents: seq<seq<Byte>>)
    requires |entries| == |contents| && forall k :: 0 <= k < |entries| ==> entries[k].len == |contents[k]|
    ensures Sum(PointedLength, entries) == |Content(contents)|
  {
    if entries != [] {
      EntriesAdd(entries[..|entries| - 1], contents[..|entries| - 1]);
    }
  }

  /** The first entry of the open set is its header. */
  lemma OpenEntries(v: View, b: Buf)
    requires Holds(v, b) && b.open.Some?
    ensures 1 <= v.committed < v.current <= |v.entries| && v.setCounter < |v.store|
    ensures v.entries[v.committed] == Header(v.setCounter)
  {
    assert v.entries[v.committed] == v.entries[1..v.current][v.committed - 1] == LayoutAll(b)[|Layout(b.sets)|];
  }

  // ----- Runs

  /** The calls of a user. */
  datatype Action = Build(op: Op) | SendSets | Manage(a: T.Action) | SendTemplates(udp: bool)

  /** What a call makes of the data send buffer. */
  function Turned(b: Buf, a: Action): Buf {
    match a
    case Build(op) => Apply(b, op)
    case SendSets => EMPTY
    case _ => b
  }

  function After(b: Buf, actions: seq<Action>): Buf {
    if actions == [] then b else Turned(After(b, actions[..|actions| - 1]), actions[|actions| - 1])
  }

  /** What a run hands over, in order. */
  function HandedIn(b: Buf, actions: seq<Action>): seq<Batch> {
    if actions == [] then []
    else
      var init, last := actions[..|actions| - 1], actions[|actions| - 1];
      Extended(HandedIn(b, init), After(b, init), last)
  }

  function Extended(batches: seq<Batch>, b: Buf, a: Action): seq<Batch> {
    if a.SendSets? then batches + [Batched(b)] else batches
  }

  /** Each set is shorter than 2^16 bytes, its header included, when it is ended. */
  predicate EndsShort(b: Buf, actions: seq<Action>) {
    actions == [] ||
    var init, last := actions[..|actions| - 1], actions[|actions| - 1];
    EndsShort(b, init) && (last.Build? && last.op.End? ==> OpenLength(After(b, init)) < 0x1_0000)
  }

  /** No set is open when data is sent. */
  predicate SendsClosed(b: Buf, actions: seq<Action>) {
    actions == [] ||
    var init, last := actions[..|actions| - 1], actions[|actions| - 1];
    SendsClosed(b, init) && (last.SendSets? ==> After(b, init).open.None?)
  }

  lemma StepFits(b: Buf, op: Op)
    requires AllFit(b.sets) && (op.End? ==> OpenLength(b) < 0x1_0000)
    ensures AllFit(Apply(b, op).sets)
  {
    OthersKeepSets(b, op);
    if op.End? && b.open.Some? {
      var s := DataSet(b.open.value.id, b.open.value.fields, op.records);
      assert Apply(b, op).sets == if Accepts(b, op) then b.sets + [s] else b.sets;
    }
  }

  lemma {:induction false} ShortRun(b: Buf, actions: seq<Action>)
    requires AllFit(b.sets) && EndsShort(b, actions)
    ensures AllFit(After(b, actions).sets) && AllShort(HandedIn(b, actions))
  {
    if actions != [] {
      var init, last := actions[..|actions| - 1], actions[|actions| - 1];
      ShortRun(b, init);
      if last.Build? {
        StepFits(After(b, init), last.op);
      }
    }
  }

  lemma {:induction false} ClosedRun(b: Buf, actions: seq<Action>)
    requires SendsClosed(b, actions)
    ensures AllClosed(HandedIn(b, actions))
  {
    if actions != [] {
      ClosedRun(b, actions[..|actions| - 1]);
    }
  }

  /** The templates are managed beside the data send buffer. */
  method ManageBeside(e: Exporter, t: T.TemplateTable, a: T.Action)
    requires t.Valid()
    modifies t, t.Cells(), t.Arrays(), t.udp, t.udp.entries, t.sctp, t.sctp.entries
    ensures t.Valid() && t.ArraysKept() && (e.Valid() <==> old(e.Valid()))
  {
    t.Call(a);
  }

  method UpdateBeside(e: Exporter, t: T.TemplateTable)
    requires t.Valid()
    modifies t, t.Cells(), t.udp, t.udp.entries, t.sctp, t.sctp.entries
    ensures t.Valid() && t.ArraysKept() && t.BuffersPoint() && (e.Valid() <==> old(e.Valid()))
  {
    t.Update();
  }

  /** The data send buffer is used beside the templates. */
  method SendBeside(e: Exporter, t: T.TemplateTable, b: T.TemplateBuffer)
    requires e.Valid() && b.Valid() && b.Points()
    modifies e`log
    ensures e.Valid() && t.Untouched() && Batches(e.log) == old(Batches(e.log))
  {
    e.SendTemplates(b);
    ghost var sent := e.log[|e.log| - 1];
    assert e.log == old(e.log) + [sent];
    BatchesLonger(old(e.log), sent);
  }

  method BuildBeside(e: Exporter, t: T.TemplateTable, op: Op)
    requires e.Valid()
    modifies e`snIncrement, e.data, e.data.entries, e.data.store
    ensures e.Valid() && t.Untouched() && e.data.buf == Apply(old(e.data.buf), op)
  {
    if op.End? {
      EndBeside(e, t, op.records);
    } else {
      CallBeside(e, t, op);
    }
  }

  method EndBeside(e: Exporter, t: T.TemplateTable, records: U16)
    requires e.Valid()
    modifies e`snIncrement, e.data, e.data.store
    ensures e.Valid() && t.Untouched() && e.data.buf == Apply(old(e.data.buf), End(records))
  {
    var ok := e.EndSet(records);
  }

  method CallBeside(e: Exporter, t: T.TemplateTable, op: Op)
    requires e.Valid() && !op.End?
    modifies e.data, e.data.entries, e.data.store
    ensures e.Valid() && t.Untouched() && e.data.buf == Apply(old(e.data.buf), op)
  {
    var ok := e.Call(op);
  }

  method SendSetsBeside(e: Exporter, t: T.TemplateTable)
    requires e.Valid()
    modifies e, e.data, e.data.store
    ensures e.Valid() && t.Untouched() && e.data.buf == EMPTY
    ensures Batches(e.log) == old(Batches(e.log)) + [Batched(old(e.data.buf))]
  {
    e.SendData();
    ghost var sent := e.log[|e.log| - 1];
    assert e.log == old(e.log) + [sent];
    BatchesLonger(old(e.log), sent);
  }

  /** ipfix_send_templates: the buffers are updated before they go out. */
  method Announce(e: Exporter, t: T.TemplateTable, udp: bool)
    requires e.Valid() && t.Valid()
    modifies e`log, t, t.Cells(), t.udp, t.udp.entries, t.sctp, t.sctp.entries
    ensures e.Valid() && t.Valid() && t.ArraysKept() && Batches(e.log) == old(Batches(e.log))
  {
    UpdateBeside(e, t);
    label updated:
    SendBeside(e, t, if udp then t.udp else t.sctp);
    t.UntouchedIsValid@updated();
  }

  method ActBuild(e: Exporter, t: T.TemplateTable, op: Op)
    requires e.Valid() && t.Valid()
    modifies e`snIncrement, e.data, e.data.entries, e.data.store
    ensures e.Valid() && t.Valid() && t.ArraysKept() && e.data.buf == Apply(old(e.data.buf), op)
  {
    BuildBeside(e, t, op);
    t.UntouchedIsValid();
  }

  method ActSend(e: Exporter, t: T.TemplateTable)
    requires e.Valid() && t.Valid()
    modifies e, e.data, e.data.store
    ensures e.Valid() && t.Valid() && t.ArraysKept() && e.data.buf == EMPTY
    ensures Batches(e.log) == old(Batches(e.log)) + [Batched(old(e.data.buf))]
  {
    SendSetsBeside(e, t);
    t.UntouchedIsValid();
  }

  method Act(e: Exporter, t: T.TemplateTable, a: Action)
    requires e.Valid() && t.Valid()
    modifies e, e.data, e.data.entries, e.data.store
    modifies t, t.Cells(), t.Arrays(), t.udp, t.udp.entries, t.sctp, t.sctp.entries
    ensures e.Valid() && t.Valid() && t.ArraysKept() && e.data.buf == Turned(old(e.data.buf), a)
    ensures Batches(e.log) == Extended(old(Batches(e.log)), old(e.data.buf), a)
  {
    match a {
      case Build(op) => ActBuild(e, t, op);
      case SendSets => ActSend(e, t);
      case Manage(b) => ManageBeside(e, t, b);
      case SendTemplates(udp) => Announce(e, t, udp);
    }
  }

  /** The run so far: what was handed in, and what the buffer holds. */
  ghost predicate Followed(e: Exporter, b: Buf, actions: seq<Action>)
    reads e, e.data
  {
    Batches(e.log) == HandedIn(b, actions) && e.data.buf == After(b, actions)
  }

  method ActNext(e: Exporter, t: T.TemplateTable, actions: seq<Action>, k: nat, ghost b: Buf)
    requires e.Valid() && t.Valid() && k < |actions| && Followed(e, b, actions[..k])
    modifies e, e.data, e.data.entries, e.data.store
    modifies t, t.Cells(), t.Arrays(), t.udp, t.udp.entries, t.sctp, t.sctp.entries
    ensures e.Valid() && t.Valid() && t.ArraysKept() && Followed(e, b, actions[..k + 1])
  {
    assert actions[..k + 1][..k] == actions[..k];
    Act(e, t, actions[k]);
  }

  /**
   * Any run from a new exporter: sets are built and sent, templates are defined and withdrawn,
   * and template messages go out in between.  The log is about exactly the batches that the run
   * handed over, and correct.  Every sequence number is the number of data records sent before,
   * every data message reads back and no set is dropped, exactly when each set handed over is
   * shorter than 2^16 bytes; so it is if each was when it was ended.  If no set was open when
   * data was sent, collectors over UDP get nothing else.
   */
  method AnyRun(e: Exporter, t: T.TemplateTable, actions: seq<Action>)
    requires e.Valid() && t.Valid() && e.log == [] && e.data.buf == EMPTY
    modifies e, e.data, e.data.entries, e.data.store
    modifies t, t.Cells(), t.Arrays(), t.udp, t.udp.entries, t.sctp, t.sctp.entries
    ensures e.Valid() && t.Valid() && Correct(e.log) && Batches(e.log) == HandedIn(EMPTY, actions)
    ensures Faithful(e.log) <==> AllShort(HandedIn(EMPTY, actions))
    ensures EndsShort(EMPTY, actions) ==> Faithful(e.log)
    ensures SendsClosed(EMPTY, actions) ==> forall k :: 0 <= k < |e.log| && e.log[k].Data? ==> e.log[k].rest == []
  {
    for k := 0 to |actions|
      invariant e.Valid() && t.Valid() && t.ArraysKept() && Followed(e, EMPTY, actions[..k])
    {
      ActNext(e, t, actions, k, EMPTY);
    }
    assert actions[..|actions|] == actions;
    RunIsFaithful(e.log, actions);
  }

  lemma RunIsFaithful(log: seq<Event>, actions: seq<Action>)
    requires Correct(log) && Batches(log) == HandedIn(EMPTY, actions)
    ensures Faithful(log) <==> AllShort(HandedIn(EMPTY, actions))
    ensures EndsShort(EMPTY, actions) ==> Faithful(log)
    ensures SendsClosed(EMPTY, actions) ==> forall k :: 0 <= k < |log| && log[k].Data? ==> log[k].rest == []
  {
    ShortIsFaithful(log);
    if EndsShort(EMPTY, actions) {
      ShortRun(EMPTY, actions);
    }
    if SendsClosed(EMPTY, actions) {
      ClosedRun(EMPTY, actions);
      ClosedIsWhole(log);
    }
  }

  // ----- A record is counted and not sent

  lemma OneSetCount(id: U16, field: seq<Byte>, records: U16)
    ensures var sets := OneSet(id, field, records).sets;
            CommittedLength(sets) == Low16(SET_HEADER + |field|) && Records(sets) == records
  {
    var s := DataSet(id, [field], records);
    assert [] + [s] == [s];
    LastSet([], s);
    OneSetLengths(id, field, records);
  }

  method BuildOne(e: Exporter, field: seq<Byte>)
    requires e.Valid() && e.data.buf == EMPTY
    modifies e`snIncrement, e.data, e.data.entries, e.data.store
    ensures e.Valid() && e.data.buf == OneSet(300, field, 1)
  {
    RunOfThree(Start(300), Put(field), End(1));
    BuildOneSet(300, field, 1);
    var ok := e.Call(Start(300));
    ok := e.Call(Put(field));
    ok := e.EndSet(1);
  }

  /** A message with one record is built and sent, or its set is dropped. */
  method SendOne(e: Exporter, field: seq<Byte>)
    requires e.Valid() && e.data.buf == EMPTY
    modifies e, e.data, e.data.entries, e.data.store
    ensures e.Valid() && e.data.buf == EMPTY && |e.log| == |old(e.log)| + 1 && e.log[..|old(e.log)|] == old(e.log)
    ensures
      var sent := e.log[|old(e.log)|];
      !sent.Templates? && Records(sent.sets) == 1 && (sent.Dropped? <==> Low16(SET_HEADER + |field|) == 0)
  {
    BuildOne(e, field);
    OneSetCount(300, field, 1);
    e.SendData();
  }

  method SendTwo(e: Exporter, long: seq<Byte>, short: seq<Byte>)
    requires e.Valid() && e.data.buf == EMPTY && e.log == [] && |long| == 65532 && |short| == 4
    modifies e, e.data, e.data.entries, e.data.store
    ensures e.Valid() && e.data.buf == EMPTY && |e.log| == 2 && e.log[0].Dropped? && e.log[1].Data?
    ensures Records(e.log[0].sets) == Records(e.log[1].sets) == 1
  {
    SendOne(e, long);
    ghost var first := e.log;
    SendOne(e, short);
    assert e.log[0] == e.log[..1][0] == first[0];
  }

  /** A set of 65532 bytes is not sent and yet counted: the second message behind it carries 2 instead of 1. */
  method Miscounted(e: Exporter, long: seq<Byte>, short: seq<Byte>)
    requires e.Valid() && e.data.buf == EMPTY && e.log == [] && |long| == 65532 && |short| == 4
    modifies e, e.data, e.data.entries, e.data.store
    ensures |e.log| == 3 && e.log[2].Data? && RecordsSent(e.log[..2]) == 1 && e.log[2].sequence == 2
  {
    SendTwo(e, long, short);
    ghost var before := e.log;
    SendOne(e, short);
    assert e.log[0] == e.log[..2][0] == before[0] && e.log[1] == e.log[..2][1] == before[1];
    MiscountedAt(e.log);
  }

  lemma MiscountedAt(log: seq<Event>)
    requires Correct(log) && |log| == 3 && log[0].Dropped? && log[1].Data? && log[2].Data?
    requires Records(log[0].sets) == Records(log[1].sets) == 1
    ensures RecordsSent(log[..2]) == 1 && log[2].sequence == 2
  {
    var first, second := log[..1], log[..2];
    assert second[..1] == first && first[..0] == [] && second[1] == log[1] && first[0] == log[0];
    assert RecordsSent(first) == 0 && RecordsDropped(first) == 1;
    CorrectAt(log, 2);
  }
}
