/**
 * The template slots of an exporter and its two template send buffers: the template
 * management of ipfixlolib.c.
 */
module TemplateTable {
  import opened Wire
  import opened TemplateWire
  import opened TemplateCycle
  import opened TemplateBuilder
  import DataSets

  const MAX_TEMPLATES := 16

  /** The template set of a slot with one of the two states. */
  function Selected(s: Slot, a: SlotState, b: SlotState): seq<seq<Byte>> {
    if s.state == a || s.state == b then [SlotBytes(s)] else []
  }

  /** The template sets of the slots with one of the two states, in slot order. */
  function BytesOf(slots: seq<Slot>, a: SlotState, b: SlotState): seq<seq<Byte>> {
    if slots == [] then []
    else BytesOf(slots[..|slots| - 1], a, b) + Selected(slots[|slots| - 1], a, b)
  }

  lemma {:induction false} BytesOfLength(slots: seq<Slot>, a: SlotState, b: SlotState)
    ensures |BytesOf(slots, a, b)| <= |slots|
  {
    if slots != [] {
      BytesOfLength(slots[..|slots| - 1], a, b);
    }
  }

  lemma BytesOfNext(slots: seq<Slot>, i: nat, a: SlotState, b: SlotState)
    requires i < |slots|
    ensures |BytesOf(slots[..i], a, b)| <= i
    ensures BytesOf(slots[..i + 1], a, b) == BytesOf(slots[..i], a, b) + Selected(slots[i], a, b)
  {
    BytesOfLength(slots[..i], a, b);
    assert slots[..i + 1][..i] == slots[..i];
  }

  /** Each of the template sets has at least its header. */
  predicate HaveHeads(sets: seq<seq<Byte>>) { forall k :: 0 <= k < |sets| ==> |sets[k]| >= TEMPLATE_HEADER }

  /** What a collector reads at the beginning of each template set. */
  function Heads(sets: seq<seq<Byte>>): seq<Placement>
    requires HaveHeads(sets)
  {
    if sets == [] then [] else Heads(sets[..|sets| - 1]) + [Head(sets[|sets| - 1])]
  }

  /** The placements are what a collector reads in the template sets of the committed and the withdrawn slots. */
  lemma {:induction false} PlacementsAreRead(slots: seq<Slot>)
    requires AllOk(slots)
    ensures HaveHeads(BytesOf(slots, Committed, Withdrawn))
    ensures Heads(BytesOf(slots, Committed, Withdrawn)) == Placements(slots)
  {
    if slots != [] {
      var init, s := slots[..|slots| - 1], slots[|slots| - 1];
      PlacementsAreRead(init);
      ReadNext(BytesOf(init, Committed, Withdrawn), s);
    }
  }

  lemma ReadNext(sets: seq<seq<Byte>>, s: Slot)
    requires HaveHeads(sets) && SlotOk(s)
    ensures
      var sets' := sets + Selected(s, Committed, Withdrawn);
      HaveHeads(sets') && Heads(sets') == Heads(sets) + Placed(s)
  {
    if Placed(s) == [] {
      assert sets + [] == sets && Heads(sets) + [] == Heads(sets);
    } else {
      PlacedReads(s);
      HeadsNext(sets, SlotBytes(s));
    }
  }

  lemma HeadsNext(sets: seq<seq<Byte>>, b: seq<Byte>)
    requires HaveHeads(sets) && |b| >= TEMPLATE_HEADER
    ensures HaveHeads(sets + [b]) && Heads(sets + [b]) == Heads(sets) + [Head(b)]
  {
    assert (sets + [b])[..|sets|] == sets;
  }

  predicate IsLive(s: Slot, id: U16) { Live(s) && s.id == id }

  predicate HasId(slots: seq<Slot>, id: U16) { exists i :: 0 <= i < |slots| && IsLive(slots[i], id) }

  predicate AllLive(slots: seq<Slot>) { forall i :: 0 <= i < |slots| ==> Live(slots[i]) }

  function WithField(s: Slot, f: FieldSpec): Slot { s.(fields := s.fields + [f]) }

  /** An entry of a send buffer: a pointer and a length. */
  datatype Iovec = Iovec(base: array<Byte>, len: nat)

  /** A send buffer for templates; contents is what the entries pointed to when they were added. */
  class TemplateBuffer {
    const entries: array<Iovec>
    var current: nat
    var committedDataLength: nat
    var recordCount: nat
    ghost var contents: seq<seq<Byte>>

    ghost predicate Valid()
      reads this, entries
    {
      && entries.Length == DataSets.MAX_ENTRIES && 1 <= current <= entries.Length
      && current == 1 + |contents|
      && (forall k :: 1 <= k < current ==> entries[k].len == |contents[k - 1]|)
      && committedDataLength == |DataSets.Content(contents)| && recordCount == |contents|
    }

    /** The arrays that the entries point to. */
    ghost function Bases(): set<array<Byte>>
      reads this, entries
    {
      set k | 1 <= k < current && k < entries.Length :: entries[k].base
    }

    /** The entries still point to the contents. */
    ghost predicate Points()
      requires Valid()
      reads this, entries, Bases()
    {
      forall k :: 1 <= k < current ==>
        entries[k].len <= entries[k].base.Length && entries[k].base[..entries[k].len] == contents[k - 1]
    }

    constructor ()
      ensures Valid() && fresh(entries) && contents == [] && Points()
    {
      var nothing := new Byte[0];
      entries := new Iovec[DataSets.MAX_ENTRIES](_ => Iovec(nothing, 0));
      current, committedDataLength, recordCount, contents := 1, 0, 0, [];
    }

    /** ipfix_reset_sendbuffer. */
    method Reset()
      requires Valid()
      modifies this
      ensures Valid() && contents == [] && Points()
    {
      current, committedDataLength, recordCount, contents := 1, 0, 0, [];
    }

    /** One more template set; false where the buffer has no room. */
    method Add(base: array<Byte>, len: nat) returns (ok: bool)
      requires Valid() && Points() && len <= base.Length
      modifies this, entries
      ensures Valid() && Points() && (ok <==> old(|contents|) < DataSets.MAX_ENTRIES - 3)
      ensures contents == if ok then old(contents) + [base[..len]] else old(contents)
    {
      if current >= DataSets.MAX_ENTRIES - 2 {
        return false;
      }
      ghost var before := contents;
      entries[current] := Iovec(base, len);
      current := current + 1;
      committedDataLength := committedDataLength + len;
      recordCount := recordCount + 1;
      contents := contents + [base[..len]];
      assert contents[..|before|] == before;
      ok := true;
    }
  }

  /** ipfix_init_template_array. */
  method FreeCells() returns (cells: array<TemplateSlot>)
    ensures fresh(cells) && cells.Length == MAX_TEMPLATES
    ensures forall i :: 0 <= i < cells.Length ==> fresh(cells[i]) && fresh(cells[i].bytes)
    ensures forall i :: 0 <= i < cells.Length ==> cells[i].Ok() && cells[i].Value() == FREE
    ensures forall i, j :: 0 <= i < j < cells.Length ==> cells[i] != cells[j] && cells[i].bytes != cells[j].bytes
  {
    var blank := new TemplateSlot();
    cells := new TemplateSlot[MAX_TEMPLATES](_ => blank);
    for i := 0 to MAX_TEMPLATES
      invariant forall j :: 0 <= j < i ==> fresh(cells[j]) && fresh(cells[j].bytes)
      invariant forall j :: 0 <= j < i ==> cells[j].Ok() && cells[j].Value() == FREE
      invariant forall j, k :: 0 <= j < k < i ==> cells[j] != cells[k] && cells[j].bytes != cells[k].bytes
      modifies cells
    {
      var cell := new TemplateSlot();
      cells[i] := cell;
    }
  }

  class TemplateTable {
    const cells: array<TemplateSlot>
    const udp: TemplateBuffer
    const sctp: TemplateBuffer
    ghost var slots: seq<Slot>
    ghost var history: seq<Placement>

    ghost function Cells(): set<TemplateSlot>
      reads cells
    {
      set i | 0 <= i < cells.Length :: cells[i]
    }

    /** The arrays that the templates are written to. */
    ghost function Arrays(): set<array<Byte>>
      reads cells, Cells()
    {
      set i | 0 <= i < cells.Length :: cells[i].bytes
    }

    /** Each template has its own entry and its own array. */
    ghost predicate Apart()
      reads cells, Cells()
    {
      && cells.Length == MAX_TEMPLATES
      && forall i, j :: 0 <= i < cells.Length && 0 <= j < cells.Length && i != j ==>
           cells[i] != cells[j] && cells[i].bytes != cells[j].bytes
    }

    /** slots are the values of the entries, whose arrays hold the templates. */
    ghost predicate CellsOk()
      reads this, cells, Cells(), Arrays()
    {
      && Apart() && |slots| == cells.Length
      && (forall i :: 0 <= i < cells.Length ==> cells[i].Value() == slots[i])
      && (forall i {:trigger cells[i].Ok()} :: 0 <= i < cells.Length ==> cells[i].Ok())
    }

    ghost predicate BuffersOk()
      reads this, udp, udp.entries, sctp, sctp.entries
    {
      udp != sctp && udp.entries != sctp.entries && udp.Valid() && sctp.Valid()
    }

    /** What every run keeps. */
    ghost predicate Valid()
      reads this, cells, Cells(), Arrays(), udp, udp.entries, sctp, sctp.entries
    {
      CellsOk() && BuffersOk() && UniqueIds(slots)
    }

    /** What a run keeps while the user keeps to the rules: the collectors know what the entries say they know. */
    ghost predicate Agreed()
      reads this
    {
      Agrees(slots, history) && Alternates(history)
    }

    lemma SlotsAreSound()
      requires Valid()
      ensures Sound(slots)
    {
      forall i | 0 <= i < cells.Length
        ensures SlotOk(slots[i])
      {
        assert cells[i].Ok();
      }
    }

    /** The arrays of the templates are the ones of before, or new. */
    twostate predicate ArraysKept()
      reads cells, Cells()
    {
      forall i :: 0 <= i < cells.Length ==> cells[i].bytes == old(cells[i].bytes) || fresh(cells[i].bytes)
    }

    /** Nothing of the table has changed. */
    twostate predicate Untouched()
      reads this, cells, Cells(), Arrays(), udp, udp.entries, sctp, sctp.entries
    {
      && unchanged(this, cells, udp, udp.entries, sctp, sctp.entries)
      && (forall i :: 0 <= i < cells.Length ==> unchanged(cells[i]) && unchanged(cells[i].bytes))
    }

    twostate lemma UntouchedIsValid()
      requires old(Valid()) && Untouched()
      ensures Valid() && ArraysKept()
    {
      assert forall i :: 0 <= i < cells.Length ==> old(cells[i].Ok());
    }

    constructor ()
      ensures Valid() && Agreed() && history == [] && NoneEmpty(slots)
      ensures fresh(cells) && forall i :: 0 <= i < cells.Length ==> fresh(cells[i]) && fresh(cells[i].bytes)
      ensures fresh(udp) && fresh(udp.entries) && fresh(sctp) && fresh(sctp.entries)
    {
      var free := FreeCells();
      cells := free;
      slots := seq(MAX_TEMPLATES, _ => FREE);
      udp := new TemplateBuffer();
      sctp := new TemplateBuffer();
      history := [];
    }

    // ----- Single entries

    method BeginAt(i: nat, id: U16, fieldCount: U16)
      requires CellsOk() && i < cells.Length && id > 255
      modifies this`slots, cells[i]
      ensures CellsOk() && slots == old(slots)[i := Slot(Unclean, id, fieldCount, [])]
      ensures fresh(cells[i].bytes)
    {
      assert cells[i].Ok();
      cells[i].Begin(id, fieldCount);
      slots := slots[i := cells[i].Value()];
    }

    method PutAt(i: nat, p: PutArgs) returns (ok: bool)
      requires CellsOk() && i < cells.Length && Live(slots[i])
      modifies this`slots, cells[i], cells[i].bytes
      ensures CellsOk() && cells[i].bytes == old(cells[i].bytes)
      ensures ok <==> old(|slots[i].fields| < slots[i].fieldCount)
      ensures slots == if ok then old(slots[i := WithField(slots[i], Meaning(p))]) else old(slots)
    {
      assert cells[i].Ok();
      ok := cells[i].Put(p);
      slots := slots[i := cells[i].Value()];
    }

    method EndAt(i: nat) returns (ok: bool)
      requires CellsOk() && i < cells.Length && Live(slots[i])
      modifies this`slots, cells[i]
      ensures CellsOk() && fresh(cells[i].bytes)
      ensures slots == old(slots[i := Finished(slots[i])]) && ok == slots[i].state.Committed?
    {
      assert cells[i].Ok();
      ok := cells[i].End();
      slots := slots[i := cells[i].Value()];
    }

    method WithdrawAt(i: nat)
      requires CellsOk() && i < cells.Length && slots[i].state.Sent?
      modifies this`slots, cells[i], cells[i].bytes
      ensures CellsOk() && cells[i].bytes == old(cells[i].bytes)
      ensures slots == old(slots[i := Gone(slots[i])])
    {
      assert cells[i].Ok();
      cells[i].Withdraw();
      slots := slots[i := cells[i].Value()];
    }

    /** ipfix_deinit_template. */
    method FreeAt(i: nat)
      requires CellsOk() && i < cells.Length
      modifies this`slots, cells[i]
      ensures CellsOk() && fresh(cells[i].bytes)
      ensures slots == old(slots[i := slots[i].(state := Unused)])
    {
      assert cells[i].Ok();
      cells[i].Free();
      slots := slots[i := cells[i].Value()];
    }

    method SetStateAt(i: nat, state: SlotState)
      requires CellsOk() && i < cells.Length && Live(slots[i]) && !slots[i].state.Unclean?
      requires !state.Unused? && !state.Unclean? && SlotOk(slots[i].(state := state))
      modifies this`slots, cells[i]
      ensures CellsOk() && cells[i].bytes == old(cells[i].bytes)
      ensures slots == old(slots[i := slots[i].(state := state)])
    {
      assert cells[i].Ok();
      cells[i].SetState(state);
      slots := slots[i := cells[i].Value()];
    }

    // ----- Template management

    /** ipfix_find_template. */
    method Find(id: U16) returns (found: int)
      requires CellsOk() && UniqueIds(slots)
      ensures -1 <= found < cells.Length
      ensures if found >= 0 then Live(slots[found]) && slots[found].id == id && OnlyAt(slots, found, id)
              else !HasId(slots, id)
    {
      for i := 0 to cells.Length
        invariant forall j :: 0 <= j < i ==> !IsLive(slots[j], id)
      {
        if !cells[i].state.Unused? && cells[i].id == id {
          UniqueAt(slots, i);
          return i;
        }
      }
      return -1;
    }

    /** ipfix_get_free_template_slot. */
    method FreeSlot() returns (found: int)
      requires CellsOk()
      ensures -1 <= found < cells.Length
      ensures if found >= 0 then !Live(slots[found]) else AllLive(slots)
    {
      for i := 0 to cells.Length
        invariant forall j :: 0 <= j < i ==> Live(slots[j])
      {
        if cells[i].state.Unused? {
          return i;
        }
      }
      return -1;
    }

    /** The buffers, with entries that point to their contents. */
    ghost predicate BuffersPoint()
      reads this, udp, udp.entries, sctp, sctp.entries, udp.Bases(), sctp.Bases()
    {
      BuffersOk() && udp.Points() && sctp.Points()
    }

    /** Letting a buffer point to an entry: it never runs out of room. */
    method PointSctp(cell: TemplateSlot)
      requires BuffersPoint() && |sctp.contents| < MAX_TEMPLATES
      requires cell.Ok() && Live(cell.Value()) && !cell.state.Unclean?
      modifies sctp, sctp.entries
      ensures BuffersPoint() && sctp.contents == old(sctp.contents) + [SlotBytes(cell.Value())]
    {
      cell.HoldsTemplate();
      var ok := sctp.Add(cell.bytes, cell.fieldsLength);
      assert ok;
    }

    method PointUdp(cell: TemplateSlot)
      requires BuffersPoint() && |udp.contents| < MAX_TEMPLATES
      requires cell.Ok() && Live(cell.Value()) && !cell.state.Unclean?
      modifies udp, udp.entries
      ensures BuffersPoint() && udp.contents == old(udp.contents) + [SlotBytes(cell.Value())]
    {
      cell.HoldsTemplate();
      var ok := udp.Add(cell.bytes, cell.fieldsLength);
      assert ok;
    }

    method PointAt(cell: TemplateSlot)
      requires BuffersPoint() && cell.Ok() && |udp.contents| < MAX_TEMPLATES && |sctp.contents| < MAX_TEMPLATES
      modifies udp, udp.entries, sctp, sctp.entries
      ensures BuffersPoint()
      ensures udp.contents == old(udp.contents) + Selected(cell.Value(), Committed, Sent)
      ensures sctp.contents == old(sctp.contents) + Selected(cell.Value(), Committed, Withdrawn)
    {
      match cell.state {
        case Committed =>
          PointSctp(cell);
          PointUdp(cell);
        case Sent => PointUdp(cell);
        case Withdrawn => PointSctp(cell);
        case _ =>
      }
    }

    method AdvanceAt(i: nat)
      requires CellsOk() && i < cells.Length
      modifies this`slots, cells[i]
      ensures CellsOk() && ArraysKept() && slots == old(slots[i := After(slots[i])])
    {
      assert cells[i].Ok();
      match cells[i].state {
        case ToBeDeleted => FreeAt(i);
        case Committed => SetStateAt(i, Sent);
        case Withdrawn => SetStateAt(i, ToBeDeleted);
        case _ => assert slots == old(slots[i := After(slots[i])]);
      }
    }

    method Show(i: nat)
      requires CellsOk() && BuffersPoint() && i < cells.Length
      requires |udp.contents| < MAX_TEMPLATES && |sctp.contents| < MAX_TEMPLATES
      modifies udp, udp.entries, sctp, sctp.entries
      ensures CellsOk() && BuffersPoint() && slots == old(slots)
      ensures udp.contents == old(udp.contents) + Selected(slots[i], Committed, Sent)
      ensures sctp.contents == old(sctp.contents) + Selected(slots[i], Committed, Withdrawn)
    {
      assert cells[i].Ok();
      PointAt(cells[i]);
    }

    method Move(i: nat)
      requires CellsOk() && BuffersPoint() && i < cells.Length
      modifies this`slots, this`history, cells[i]
      ensures CellsOk() && BuffersPoint() && ArraysKept()
      ensures slots == old(slots[i := After(slots[i])]) && history == old(history + Placed(slots[i]))
    {
      history := history + Placed(slots[i]);
      AdvanceAt(i);
    }

    /** One round of the loop of ipfix_update_template_sendbuffer. */
    method Place(i: nat)
      requires CellsOk() && BuffersPoint() && i < cells.Length
      requires |udp.contents| < MAX_TEMPLATES && |sctp.contents| < MAX_TEMPLATES
      modifies this, cells[i], udp, udp.entries, sctp, sctp.entries
      ensures CellsOk() && BuffersPoint() && ArraysKept()
      ensures slots == old(slots[i := After(slots[i])]) && history == old(history + Placed(slots[i]))
      ensures udp.contents == old(udp.contents + Selected(slots[i], Committed, Sent))
      ensures sctp.contents == old(sctp.contents + Selected(slots[i], Committed, Withdrawn))
    {
      Show(i);
      Move(i);
    }

    /** The state of the update when i entries have been placed. */
    ghost predicate Halfway(before: seq<Slot>, h: seq<Placement>, i: nat)
      requires i <= |before|
      reads this, cells, Cells(), Arrays(), udp, udp.entries, sctp, sctp.entries, udp.Bases(), sctp.Bases()
    {
      && CellsOk() && BuffersPoint()
      && slots == Midway(before, i) && history == h + Placements(before[..i])
      && sctp.contents == BytesOf(before[..i], Committed, Withdrawn)
      && udp.contents == BytesOf(before[..i], Committed, Sent)
    }

    method Round(i: nat, ghost before: seq<Slot>, ghost h: seq<Placement>)
      requires i < cells.Length == |before| && Halfway(before, h, i)
      modifies this, cells[i], udp, udp.entries, sctp, sctp.entries
      ensures Halfway(before, h, i + 1) && ArraysKept()
    {
      MidwayNext(before, i);
      BytesOfNext(before, i, Committed, Withdrawn);
      BytesOfNext(before, i, Committed, Sent);
      PlacementsNext(before, h, i);
      Place(i);
    }

    /** The loop: for SCTP what is new or withdrawn, for UDP every template in force. */
    method Rounds(ghost before: seq<Slot>, ghost h: seq<Placement>)
      requires cells.Length == |before| && Halfway(before, h, 0)
      modifies this, Cells(), udp, udp.entries, sctp, sctp.entries
      ensures Halfway(before, h, |before|) && ArraysKept()
    {
      for i := 0 to cells.Length
        invariant Halfway(before, h, i) && ArraysKept()
      {
        Round(i, before, h);
      }
    }

    method PlaceAllCells()
      requires CellsOk() && BuffersPoint() && udp.contents == [] && sctp.contents == []
      modifies this, Cells(), udp, udp.entries, sctp, sctp.entries
      ensures CellsOk() && BuffersPoint() && ArraysKept()
      ensures slots == Refreshed(old(slots)) && history == old(history + Placements(slots))
      ensures sctp.contents == BytesOf(old(slots), Committed, Withdrawn)
      ensures udp.contents == BytesOf(old(slots), Committed, Sent)
    {
      ghost var before, h := slots, history;
      assert before[..0] == [] && Midway(before, 0) == before && h + [] == h;
      Rounds(before, h);
      assert before[..|before|] == before && Midway(before, |before|) == Refreshed(before);
    }

    method UpdateCells()
      requires CellsOk() && BuffersOk()
      modifies this, Cells(), udp, udp.entries, sctp, sctp.entries
      ensures CellsOk() && BuffersPoint() && ArraysKept()
      ensures slots == Refreshed(old(slots)) && history == old(history + Placements(slots))
      ensures sctp.contents == BytesOf(old(slots), Committed, Withdrawn)
      ensures udp.contents == BytesOf(old(slots), Committed, Sent)
    {
      ResetBuffers();
      PlaceAllCells();
    }

    /** ipfix_update_template_sendbuffer. */
    method Update()
      requires Valid()
      modifies this, Cells(), udp, udp.entries, sctp, sctp.entries
      ensures Valid() && BuffersPoint() && ArraysKept() && (old(Agreed()) ==> Agreed())
      ensures slots == Refreshed(old(slots)) && history == old(history + Placements(slots))
      ensures sctp.contents == BytesOf(old(slots), Committed, Withdrawn) && HaveHeads(sctp.contents)
      ensures history == old(history) + Heads(sctp.contents)
      ensures udp.contents == BytesOf(slots, Sent, Sent)
    {
      SlotsAreSound();
      UpdateIsSafe(slots, history);
      UpdateCells();
    }

    method ResetBuffers()
      requires CellsOk() && BuffersOk()
      modifies udp, sctp
      ensures CellsOk() && BuffersPoint() && udp.contents == [] && sctp.contents == [] && slots == old(slots)
    {
      udp.Reset();
      sctp.Reset();
    }

    method RemoveAt(i: nat)
      requires CellsOk() && i < cells.Length && Live(slots[i])
      modifies this`slots, cells[i], cells[i].bytes
      ensures CellsOk() && ArraysKept() && slots == old(slots[i := Gone(slots[i])])
    {
      if cells[i].state.Sent? {
        WithdrawAt(i);
      } else {
        FreeAt(i);
      }
    }

    method RemoveLive(i: nat, id: U16)
      requires Valid() && i < cells.Length && IsLive(slots[i], id)
      modifies this`slots, cells[i], cells[i].bytes
      ensures Valid() && ArraysKept() && slots == old(slots[i := Gone(slots[i])])
      ensures old(Agreed()) ==> (Agreed() <==> Allowed(old(slots), RemoveTemplate(id)))
    {
      SlotsAreSound();
      RemoveIsSafe(slots, history, i, id);
      RemoveAt(i);
    }

    /** ipfix_remove_template. */
    method Remove(id: U16) returns (ok: bool, ghost at: nat)
      requires Valid()
      modifies this`slots, Cells(), Arrays()
      ensures Valid() && ArraysKept() && (ok <==> HasId(old(slots), id))
      ensures if ok then at < cells.Length && IsLive(old(slots)[at], id) else slots == old(slots)
      ensures ok ==> slots == old(slots)[at := Gone(old(slots)[at])]
      ensures old(Agreed()) ==> (Agreed() <==> Allowed(old(slots), RemoveTemplate(id)))
    {
      var found := Find(id);
      if found < 0 {
        return false, 0;
      }
      RemoveLive(found, id);
      ok, at := true, found;
    }

    method PutLive(i: nat, id: U16, p: PutArgs) returns (ok: bool)
      requires Valid() && i < cells.Length && IsLive(slots[i], id)
      modifies this`slots, cells[i], cells[i].bytes
      ensures Valid() && ArraysKept() && (old(Agreed()) ==> Agreed())
      ensures ok <==> AnyTakesField(old(slots), id)
      ensures ok <==> TakesField(old(slots)[i], id)
      ensures slots == if ok then old(slots[i := WithField(slots[i], Meaning(p))]) else old(slots)
    {
      SlotsAreSound();
      MeaningIsEncodable(p);
      PutIsSafe(slots, history, i, id, Meaning(p));
      ok := PutAt(i, p);
    }

    /** ipfix_put_template_field. */
    method PutField(id: U16, p: PutArgs) returns (ok: bool, ghost at: nat)
      requires Valid()
      modifies this`slots, Cells(), Arrays()
      ensures Valid() && ArraysKept() && (old(Agreed()) ==> Agreed())
      ensures ok <==> AnyTakesField(old(slots), id)
      ensures if ok then at < cells.Length && TakesField(old(slots)[at], id) else slots == old(slots)
      ensures ok ==> slots == old(slots)[at := WithField(old(slots)[at], Meaning(p))]
    {
      var found := Find(id);
      if found < 0 {
        return false, 0;
      }
      ok := PutLive(found, id, p);
      at := found;
    }

    method EndLive(i: nat, id: U16) returns (ok: bool)
      requires Valid() && i < cells.Length && IsLive(slots[i], id)
      modifies this`slots, cells[i]
      ensures Valid() && ArraysKept() && slots == old(slots[i := Finished(slots[i])])
      ensures ok == slots[i].state.Committed?
      ensures old(Agreed()) ==> (Agreed() <==> Allowed(old(slots), EndTemplate(id)))
    {
      SlotsAreSound();
      EndIsSafe(slots, history, i, id);
      ok := EndAt(i);
    }

    /** ipfix_end_template. */
    method End(id: U16) returns (ok: bool, ghost at: nat)
      requires Valid()
      modifies this`slots, Cells()
      ensures Valid() && ArraysKept()
      ensures if HasId(old(slots), id)
              then at < cells.Length && IsLive(old(slots)[at], id) && ok == slots[at].state.Committed?
              else !ok && slots == old(slots)
      ensures HasId(old(slots), id) ==> slots == old(slots)[at := Finished(old(slots)[at])]
      ensures old(Agreed()) ==> (Agreed() <==> Allowed(old(slots), EndTemplate(id)))
    {
      var found := Find(id);
      if found < 0 {
        return false, 0;
      }
      ok := EndLive(found, id);
      at := found;
    }

    /** A slot that is free is taken for a new definition. */
    method Take(i: nat, id: U16, fieldCount: U16)
      requires Valid() && i < cells.Length && !Live(slots[i]) && id > 255 && OnlyAt(slots, i, id)
      modifies this`slots, cells[i]
      ensures Valid() && ArraysKept()
      ensures slots == old(slots[i := Slot(Unclean, id, fieldCount, [])])
    {
      SlotsAreSound();
      SoundAfter(slots, i, Slot(Unclean, id, fieldCount, []));
      BeginAt(i, id, fieldCount);
    }

    /** ipfix_start_template: an older template with the same id is withdrawn first. */
    method Start(id: U16, fieldCount: U16) returns (ok: bool, ghost at: nat)
      requires Valid()
      modifies this, Cells(), Arrays(), udp, udp.entries, sctp, sctp.entries
      ensures Valid() && ArraysKept()
      ensures !ok <==> id <= 255 || (!HasId(old(slots), id) && AllLive(old(slots)))
      ensures !ok ==> slots == old(slots) && history == old(history)
      ensures ok ==> Starts(old(slots), id, at) && |Prepared(old(slots), id)| == cells.Length
      ensures ok ==> slots == Prepared(old(slots), id)[at := Slot(Unclean, id, fieldCount, [])]
      ensures ok ==> history == old(history) + Announced(old(slots), id)
      ensures old(Agreed()) ==> (Agreed() <==> Allowed(old(slots), StartTemplate(id, fieldCount)))
    {
      SlotsAreSound();
      if id <= 255 {
        return false, 0;
      }
      var found := Find(id);
      if found >= 0 {
        StartAgain(found, id, fieldCount);
        ok, at := true, found;
      } else {
        ok, at := StartFree(id, fieldCount);
      }
    }

    /** An id that an entry has. */
    method StartAgain(i: nat, id: U16, fieldCount: U16)
      requires Valid() && i < cells.Length && IsLive(slots[i], id) && OnlyAt(slots, i, id) && id > 255
      modifies this, Cells(), Arrays(), udp, udp.entries, sctp, sctp.entries
      ensures Valid() && ArraysKept() && |Prepared(old(slots), id)| == cells.Length
      ensures slots == Prepared(old(slots), id)[i := Slot(Unclean, id, fieldCount, [])]
      ensures history == old(history) + Announced(old(slots), id)
      ensures old(Agreed()) ==> (Agreed() <==> Allowed(old(slots), StartTemplate(id, fieldCount)))
    {
      SlotsAreSound();
      StartIsSafe(slots, history, id, i, Slot(Unclean, id, fieldCount, []));
      StartOver(i, id, fieldCount);
      SlotsAreSound();
    }

    /** An id that no entry has. */
    method StartFree(id: U16, fieldCount: U16) returns (ok: bool, ghost at: nat)
      requires Valid() && id > 255 && !HasId(slots, id)
      modifies this`slots, Cells()
      ensures Valid() && ArraysKept() && (!ok <==> AllLive(old(slots))) && (!ok ==> slots == old(slots))
      ensures Prepared(old(slots), id) == old(slots) && history == old(history) + Announced(old(slots), id)
      ensures ok ==> Starts(old(slots), id, at) && slots == old(slots)[at := Slot(Unclean, id, fieldCount, [])]
      ensures old(Agreed()) ==> Agreed() && Allowed(old(slots), StartTemplate(id, fieldCount))
    {
      ghost var before := slots;
      SlotsAreSound();
      ok, at := StartNew(id, fieldCount);
      if ok {
        StartIsSafe(before, history, id, at, Slot(Unclean, id, fieldCount, []));
        SlotsAreSound();
      }
    }

    method StartNew(id: U16, fieldCount: U16) returns (ok: bool, ghost at: nat)
      requires Valid() && id > 255 && !HasId(slots, id)
      modifies this`slots, Cells()
      ensures Valid() && ArraysKept()
      ensures !ok <==> AllLive(old(slots))
      ensures !ok ==> slots == old(slots)
      ensures Prepared(old(slots), id) == old(slots) && history == old(history) + Announced(old(slots), id)
      ensures ok ==> at < cells.Length && !Live(old(slots)[at])
      ensures ok ==> slots == old(slots)[at := Slot(Unclean, id, fieldCount, [])]
    {
      NothingAnnounced(slots, history, id);
      var found := FreeSlot();
      if found < 0 {
        return false, 0;
      }
      Take(found, id, fieldCount);
      ok, at := true, found;
    }

    method StartOver(i: nat, id: U16, fieldCount: U16)
      requires Valid() && i < cells.Length && IsLive(slots[i], id) && OnlyAt(slots, i, id) && id > 255
      modifies this, Cells(), Arrays(), udp, udp.entries, sctp, sctp.entries
      ensures Valid() && ArraysKept() && |Prepared(old(slots), id)| == cells.Length
      ensures slots == Prepared(old(slots), id)[i := Slot(Unclean, id, fieldCount, [])]
      ensures history == old(history) + Announced(old(slots), id)
    {
      CleanUp(i, id);
      Take(i, id, fieldCount);
    }

    /** The collectors hear of the withdrawal before the slot is given up. */
    method CleanUp(i: nat, id: U16)
      requires Valid() && i < cells.Length && IsLive(slots[i], id) && OnlyAt(slots, i, id)
      modifies this, Cells(), Arrays(), udp, udp.entries, sctp, sctp.entries
      ensures Valid() && ArraysKept() && !Live(slots[i]) && OnlyAt(slots, i, id)
      ensures SameBut(slots, Prepared(old(slots), id), i)
      ensures history == old(history) + Announced(old(slots), id)
    {
      AnnouncedAt(slots, history, i, id);
      if cells[i].state.Sent? {
        WithdrawSent(i, id);
      } else if cells[i].state.Withdrawn? {
        SendWithdrawal(i, id);
      } else {
        Drop(i, id);
      }
    }

    method Drop(i: nat, id: U16)
      requires Valid() && i < cells.Length && IsLive(slots[i], id) && OnlyAt(slots, i, id)
      modifies this`slots, cells[i]
      ensures Valid() && ArraysKept() && !Live(slots[i]) && OnlyAt(slots, i, id)
      ensures SameBut(slots, old(slots), i)
    {
      SlotsAreSound();
      SoundAfter(slots, i, slots[i].(state := Unused));
      FreeAt(i);
    }

    /** The update that sends a waiting withdrawal. */
    method UpdateFor(i: nat, id: U16)
      requires Valid() && i < cells.Length && OnlyAt(slots, i, id) && slots[i].state.Withdrawn? && slots[i].id == id
      modifies this, Cells(), udp, udp.entries, sctp, sctp.entries
      ensures Valid() && ArraysKept() && OnlyAt(slots, i, id)
      ensures IsLive(slots[i], id)
      ensures slots == Refreshed(old(slots)) && history == old(history + Placements(slots))
    {
      ghost var later := Refreshed(slots);
      OnlyAtAfter(slots, i, id);
      assert IsLive(later[i], id);
      Update();
      assert slots == later;
    }

    /** A withdrawal that is waiting is sent, and its slot given up. */
    method SendWithdrawal(i: nat, id: U16)
      requires Valid() && i < cells.Length && OnlyAt(slots, i, id) && slots[i].state.Withdrawn? && slots[i].id == id
      modifies this, Cells(), udp, udp.entries, sctp, sctp.entries
      ensures Valid() && ArraysKept() && !Live(slots[i]) && OnlyAt(slots, i, id)
      ensures SameBut(slots, Refreshed(old(slots)), i) && history == old(history + Placements(slots))
    {
      UpdateFor(i, id);
      Drop(i, id);
    }

    /** A template that the collectors know becomes a waiting withdrawal. */
    method Retire(i: nat, id: U16)
      requires Valid() && i < cells.Length && OnlyAt(slots, i, id) && slots[i].state.Sent? && slots[i].id == id
      modifies this`slots, cells[i], cells[i].bytes
      ensures Valid() && ArraysKept() && OnlyAt(slots, i, id)
      ensures slots == old(slots[i := Gone(slots[i])]) && slots[i].state.Withdrawn? && slots[i].id == id
    {
      RemoveLive(i, id);
    }

    /** A template that the collectors know is withdrawn, the withdrawal sent, and the slot given up. */
    method WithdrawSent(i: nat, id: U16)
      requires Valid() && i < cells.Length && OnlyAt(slots, i, id) && slots[i].state.Sent? && slots[i].id == id
      modifies this, Cells(), Arrays(), udp, udp.entries, sctp, sctp.entries
      ensures Valid() && ArraysKept() && !Live(slots[i]) && OnlyAt(slots, i, id)
      ensures
        var retired := old(slots[i := Gone(slots[i])]);
        SameBut(slots, Refreshed(retired), i) && history == old(history) + Placements(retired)
    {
      Retire(i, id);
      ghost var retired := slots;
      SendWithdrawal(i, id);
      assert SameBut(slots, Refreshed(retired), i);
    }

    // ----- Runs

    method Act(a: Action)
      requires Valid()
      modifies this, Cells(), Arrays(), udp, udp.entries, sctp, sctp.entries
      ensures Valid() && ArraysKept()
      ensures Step(old(slots), a, slots) && history == old(history) + Spoken(old(slots), a)
      ensures old(Agreed()) ==> (Agreed() <==> Allowed(old(slots), a))
    {
      match a {
        case StartTemplate(id, fieldCount) => ActStart(id, fieldCount);
        case PutTemplateField(id, args) =>
          var ok, at := PutField(id, args);
          assert history + [] == history;
        case EndTemplate(id) =>
          var ok, at := End(id);
          assert history + [] == history;
        case RemoveTemplate(id) =>
          var ok, at := Remove(id);
          assert history + [] == history;
        case Send => Update();
      }
    }

    /** A call, where only what every run keeps is of interest. */
    method Call(a: Action)
      requires Valid()
      modifies this, Cells(), Arrays(), udp, udp.entries, sctp, sctp.entries
      ensures Valid() && ArraysKept()
    {
      Act(a);
    }

    method ActStart(id: U16, fieldCount: U16)
      requires Valid()
      modifies this, Cells(), Arrays(), udp, udp.entries, sctp, sctp.entries
      ensures Valid() && ArraysKept()
      ensures Step(old(slots), StartTemplate(id, fieldCount), slots)
      ensures history == old(history) + Spoken(old(slots), StartTemplate(id, fieldCount))
      ensures old(Agreed()) ==> (Agreed() <==> Allowed(old(slots), StartTemplate(id, fieldCount)))
    {
      SlotsAreSound();
      SpokenAtStart(slots, history, id, fieldCount);
      var ok, at := Start(id, fieldCount);
    }

    /**
     * Any run of calls.  No two live entries ever share an id, and the array of each entry holds
     * its template.  The collectors are told what the calls make of the entries.  If each call
     * was allowed, definitions and withdrawals of each id have taken turns, as the collectors
     * read them.  So they have if every template was announced with fields, ended only while it
     * was being defined or waiting to be sent, and removed at most once.
     */
    method AnyRun(actions: seq<Action>) returns (ghost run: Run)
      requires Valid() && Agreed()
      modifies this, Cells(), Arrays(), udp, udp.entries, sctp, sctp.entries
      ensures Valid() && UniqueIds(slots)
      ensures IsRun(run) && Calls(run) == actions && First(run) == old(slots) && run.slots == slots
      ensures history == old(history) + Told(run)
      ensures AllAllowed(run) || (NoneEmpty(old(slots)) && AllTidy(run)) ==> Alternates(history)
    {
      run := Begin(slots);
      assert history + [] == history;
      for k := 0 to |actions|
        invariant Valid() && ArraysKept() && Follows(run, old(history))
        invariant First(run) == old(slots) && Calls(run) == actions[..k]
      {
        assert actions[..k + 1] == actions[..k] + [actions[k]];
        run := ActNext(actions[k], run, old(history));
      }
      assert actions[..|actions|] == actions;
      TidyRun(run);
    }

    /** The run has led here. */
    ghost predicate Follows(run: Run, h: seq<Placement>)
      reads this
    {
      Led(run, h, slots, history, Agreed())
    }

    method ActNext(a: Action, ghost run: Run, ghost h: seq<Placement>) returns (ghost run': Run)
      requires Valid() && Follows(run, h)
      modifies this, Cells(), Arrays(), udp, udp.entries, sctp, sctp.entries
      ensures Valid() && ArraysKept() && run' == Next(run, a, slots) && Follows(run', h)
    {
      ghost var before, said, agreed := slots, history, Agreed();
      Act(a);
      LedNext(run, a, h, before, said, agreed, slots, history, Agreed());
      run' := Next(run, a, slots);
    }

    /** Every end of a template that is not allowed: the next update is out of turn. */
    method EndAgain(id: U16)
      requires Valid() && Agreed() && !Allowed(slots, EndTemplate(id))
      modifies this, Cells(), udp, udp.entries, sctp, sctp.entries
      ensures !Alternates(history)
    {
      SlotsAreSound();
      ghost var before, i :| before == slots && 0 <= i < |slots| && IsLive(slots[i], id) && !Endable(slots[i]);
      UniqueAt(slots, i);
      CommitKeepsTurns(slots, history, i);
      var ok, at := End(id);
      assert slots == before[i := Finished(before[i])];
      Update();
    }

    /** Removing a template with fields twice and defining it again, with a field: the next update defines it twice. */
    method RemoveAgain(id: U16, p: PutArgs, ghost i: nat)
      requires Valid() && Agreed() && i < cells.Length && slots[i].state.Sent? && slots[i].id == id
      requires slots[i].fieldCount > 0
      modifies this, Cells(), Arrays(), udp, udp.entries, sctp, sctp.entries
      ensures !Alternates(history)
    {
      ghost var before := slots;
      SlotsAreSound();
      UniqueAt(slots, i);
      ghost var j := RemoveAndDefine(id, p, i);
      MeaningIsEncodable(p);
      RemovedTwice(before, history, i, j, [Meaning(p)]);
      Update();
    }

    method RemoveAndDefine(id: U16, p: PutArgs, ghost i: nat) returns (ghost j: nat)
      requires Valid() && i < cells.Length && slots[i].state.Sent? && IsLive(slots[i], id) && OnlyAt(slots, i, id)
      requires id > 255
      modifies this`slots, Cells(), Arrays()
      ensures Valid() && ArraysKept() && j < cells.Length && (j == i || !Live(old(slots)[j]))
      ensures slots == Dropped(old(slots), i)[j := Slot(Committed, id, 1, [Meaning(p)])]
    {
      RemoveTwice(id, i);
      j := DefineOneField(id, p, i);
    }

    method RemoveOnce(id: U16, ghost i: nat)
      requires Valid() && i < cells.Length && IsLive(slots[i], id) && OnlyAt(slots, i, id)
      modifies this`slots, Cells(), Arrays()
      ensures Valid() && ArraysKept() && slots == old(slots)[i := Gone(old(slots)[i])] && OnlyAt(slots, i, id)
    {
      assert HasId(slots, id);
      var ok, at := Remove(id);
      assert at == i;
    }

    method RemoveTwice(id: U16, ghost i: nat)
      requires Valid() && i < cells.Length && slots[i].state.Sent? && IsLive(slots[i], id) && OnlyAt(slots, i, id)
      modifies this`slots, Cells(), Arrays()
      ensures Valid() && ArraysKept() && !HasId(slots, id)
      ensures slots == Dropped(old(slots), i)
    {
      RemoveOnce(id, i);
      RemoveOnce(id, i);
    }

    method PutOnce(id: U16, p: PutArgs, ghost i: nat)
      requires Valid() && i < cells.Length && TakesField(slots[i], id) && OnlyAt(slots, i, id)
      modifies this`slots, Cells(), Arrays()
      ensures Valid() && ArraysKept() && slots == old(slots)[i := WithField(old(slots)[i], Meaning(p))]
    {
      assert AnyTakesField(slots, id);
      var ok, at := PutField(id, p);
      assert at == i;
    }

    method EndOnce(id: U16, ghost i: nat)
      requires Valid() && i < cells.Length && IsLive(slots[i], id) && OnlyAt(slots, i, id)
      modifies this`slots, Cells()
      ensures Valid() && ArraysKept() && slots == old(slots)[i := Finished(old(slots)[i])]
    {
      assert HasId(slots, id);
      var ok, at := End(id);
      assert at == i;
    }

    /** The rest of a definition with one field. */
    method FinishOneField(id: U16, p: PutArgs, ghost j: nat)
      requires Valid() && j < cells.Length && slots[j] == Slot(Unclean, id, 1, []) && OnlyAt(slots, j, id)
      modifies this`slots, Cells(), Arrays()
      ensures Valid() && ArraysKept() && slots == old(slots)[j := Slot(Committed, id, 1, [Meaning(p)])]
    {
      PutOnce(id, p, j);
      assert [] + [Meaning(p)] == [Meaning(p)];
      EndOnce(id, j);
    }

    /** A whole definition with one field, of an id that no entry has. */
    method DefineOneField(id: U16, p: PutArgs, ghost free: nat) returns (ghost j: nat)
      requires Valid() && id > 255 && free < cells.Length && !Live(slots[free]) && !HasId(slots, id)
      modifies this`slots, Cells(), Arrays()
      ensures Valid() && ArraysKept() && j < cells.Length && !Live(old(slots)[j])
      ensures slots == old(slots)[j := Slot(Committed, id, 1, [Meaning(p)])]
    {
      j := StartOnce(id, free);
      FinishOneField(id, p, j);
    }

    method StartOnce(id: U16, ghost free: nat) returns (ghost j: nat)
      requires Valid() && id > 255 && free < cells.Length && !Live(slots[free]) && !HasId(slots, id)
      modifies this`slots, Cells()
      ensures Valid() && ArraysKept() && j < cells.Length && !Live(old(slots)[j])
      ensures slots == old(slots)[j := Slot(Unclean, id, 1, [])] && OnlyAt(slots, j, id)
    {
      assert !AllLive(slots);
      var ok, at := StartNew(id, 1);
      j := at;
    }
  }

  /** The calls of a user. */
  datatype Action = StartTemplate(id: U16, fieldCount: U16) | PutTemplateField(id: U16, args: PutArgs)
                  | EndTemplate(id: U16) | RemoveTemplate(id: U16) | Send

  /** The template can be defined anew: what is sent before is its withdrawal, if the collectors have it. */
  predicate Restartable(s: Slot) { !Empty(s) }

  /** What keeps collectors and entries in agreement, for each call. */
  predicate Allowed(slots: seq<Slot>, a: Action) {
    match a
    case StartTemplate(id, _) => forall i :: 0 <= i < |slots| && IsLive(slots[i], id) ==> Restartable(slots[i])
    case EndTemplate(id) => forall i :: 0 <= i < |slots| && IsLive(slots[i], id) ==> Endable(slots[i])
    case RemoveTemplate(id) => forall i :: 0 <= i < |slots| && IsLive(slots[i], id) ==> Removable(slots[i])
    case _ => true
  }

  /** Rules that a user can keep without knowing more than the own calls and when templates were sent. */
  predicate Tidy(slots: seq<Slot>, a: Action) {
    match a
    case StartTemplate(_, fieldCount) => fieldCount > 0
    case EndTemplate(id) => forall i :: 0 <= i < |slots| && IsLive(slots[i], id) ==>
      slots[i].state.Unclean? || slots[i].state.Committed?
    case RemoveTemplate(id) => forall i :: 0 <= i < |slots| && IsLive(slots[i], id) ==> !slots[i].state.Withdrawn?
    case _ => true
  }

  /** No template was announced without fields. */
  predicate NoneEmpty(slots: seq<Slot>) {
    forall i :: 0 <= i < |slots| && (slots[i].state.Unclean? || slots[i].state.Committed? || slots[i].state.Sent?) ==>
      slots[i].fieldCount > 0
  }

  // ----- What the calls do, over whole runs

  /** Where a new template under the id goes. */
  predicate Starts(slots: seq<Slot>, id: U16, at: nat) {
    at < |slots| && (IsLive(slots[at], id) || (!HasId(slots, id) && !Live(slots[at])))
  }

  predicate CannotStart(slots: seq<Slot>, id: U16) { id <= 255 || (!HasId(slots, id) && AllLive(slots)) }

  /** What a call makes of the entries. */
  ghost predicate Step(slots: seq<Slot>, a: Action, after: seq<Slot>) {
    match a
    case StartTemplate(id, fieldCount) =>
      if CannotStart(slots, id) then after == slots
      else
        && |Prepared(slots, id)| == |slots|
        && exists at: nat ::
             Starts(slots, id, at) && after == Prepared(slots, id)[at := Slot(Unclean, id, fieldCount, [])]
    case PutTemplateField(id, p) =>
      if !AnyTakesField(slots, id) then after == slots
      else
        exists at: nat ::
          at < |slots| && TakesField(slots[at], id) && after == slots[at := WithField(slots[at], Meaning(p))]
    case EndTemplate(id) =>
      if !HasId(slots, id) then after == slots
      else exists at: nat :: at < |slots| && IsLive(slots[at], id) && after == slots[at := Finished(slots[at])]
    case RemoveTemplate(id) =>
      if !HasId(slots, id) then after == slots
      else exists at: nat :: at < |slots| && IsLive(slots[at], id) && after == slots[at := Gone(slots[at])]
    case Send => after == Refreshed(slots)
  }

  /** What a call tells the collectors. */
  ghost function Spoken(slots: seq<Slot>, a: Action): seq<Placement> {
    match a
    case StartTemplate(id, _) => if CannotStart(slots, id) then [] else Announced(slots, id)
    case Send => Placements(slots)
    case _ => []
  }

  /** Calls, and the entries that each of them leads to. */
  datatype Run = Begin(slots: seq<Slot>) | Next(run: Run, a: Action, slots: seq<Slot>)

  ghost predicate IsRun(r: Run) {
    r.Begin? || (IsRun(r.run) && Step(r.run.slots, r.a, r.slots))
  }

  ghost function First(r: Run): seq<Slot> { if r.Begin? then r.slots else First(r.run) }

  ghost function Calls(r: Run): seq<Action> { if r.Begin? then [] else Calls(r.run) + [r.a] }

  /** What the collectors are told in a run. */
  ghost function Told(r: Run): seq<Placement> {
    if r.Begin? then [] else Told(r.run) + Spoken(r.run.slots, r.a)
  }

  ghost predicate AllAllowed(r: Run) { r.Begin? || (AllAllowed(r.run) && Allowed(r.run.slots, r.a)) }

  ghost predicate AllTidy(r: Run) { r.Begin? || (AllTidy(r.run) && Tidy(r.run.slots, r.a)) }

  /** The run leads to these entries and this history; as long as each call is allowed, in agreement. */
  ghost predicate Led(r: Run, h: seq<Placement>, slots: seq<Slot>, history: seq<Placement>, agreed: bool) {
    IsRun(r) && r.slots == slots && history == h + Told(r) && (AllAllowed(r) ==> agreed)
  }

  lemma LedNext(r: Run, a: Action, h: seq<Placement>, slots: seq<Slot>, history: seq<Placement>, agreed: bool,
                slots': seq<Slot>, history': seq<Placement>, agreed': bool)
    requires Led(r, h, slots, history, agreed) && Step(slots, a, slots') && history' == history + Spoken(slots, a)
    requires agreed && Allowed(slots, a) ==> agreed'
    ensures Led(Next(r, a, slots'), h, slots', history', agreed')
  {
    Joined(h, Told(r), Spoken(slots, a));
  }

  lemma Joined(h: seq<Placement>, t: seq<Placement>, u: seq<Placement>)
    ensures (h + t) + u == h + (t + u)
  {
  }

  lemma SpokenAtStart(slots: seq<Slot>, h: seq<Placement>, id: U16, fieldCount: U16)
    ensures CannotStart(slots, id) ==> h + Spoken(slots, StartTemplate(id, fieldCount)) == h
  {
  }

  lemma TidyStep(slots: seq<Slot>, a: Action, after: seq<Slot>)
    requires NoneEmpty(slots) && Tidy(slots, a) && Step(slots, a, after)
    ensures Allowed(slots, a) && NoneEmpty(after)
  {
    RefreshedAt(slots);
  }

  /** A run within the simple rules is allowed throughout. */
  lemma {:induction false} TidyRun(r: Run)
    requires IsRun(r)
    ensures NoneEmpty(First(r)) && AllTidy(r) ==> AllAllowed(r) && NoneEmpty(r.slots)
  {
    if r.Next? && NoneEmpty(First(r)) && AllTidy(r) {
      TidyRun(r.run);
      TidyStep(r.run.slots, r.a, r.slots);
    }
  }

  // ----- Single calls

  lemma UpdateIsSafe(slots: seq<Slot>, h: seq<Placement>)
    requires Sound(slots)
    ensures Sound(Refreshed(slots)) && (Inv(slots, h) ==> Inv(Refreshed(slots), h + Placements(slots)))
    ensures HaveHeads(BytesOf(slots, Committed, Withdrawn))
    ensures Heads(BytesOf(slots, Committed, Withdrawn)) == Placements(slots)
    ensures BytesOf(Refreshed(slots), Sent, Sent) == BytesOf(slots, Committed, Sent)
  {
    RefreshedIsSound(slots);
    if Inv(slots, h) {
      PlaceAll(slots, h);
    }
    PlacementsAreRead(slots);
    SentAfter(slots);
  }

  /** Entry i is the one with the id: what removing it does. */
  lemma RemoveIsSafe(slots: seq<Slot>, h: seq<Placement>, i: nat, id: U16)
    requires Sound(slots) && i < |slots| && IsLive(slots[i], id)
    ensures Sound(slots[i := Gone(slots[i])])
    ensures Inv(slots, h) ==> (Inv(slots[i := Gone(slots[i])], h) <==> Allowed(slots, RemoveTemplate(id)))
  {
    UniqueAt(slots, i);
    GoneIsOk(slots[i]);
    SoundAfter(slots, i, Gone(slots[i]));
    if Inv(slots, h) {
      GoneIsSafe(slots, h, i);
    }
  }

  lemma EndIsSafe(slots: seq<Slot>, h: seq<Placement>, i: nat, id: U16)
    requires Sound(slots) && i < |slots| && IsLive(slots[i], id)
    ensures Sound(slots[i := Finished(slots[i])])
    ensures Inv(slots, h) ==> (Inv(slots[i := Finished(slots[i])], h) <==> Allowed(slots, EndTemplate(id)))
  {
    UniqueAt(slots, i);
    GoneIsOk(slots[i]);
    SoundAfter(slots, i, Finished(slots[i]));
    if Inv(slots, h) {
      FinishedIsSafe(slots, h, i);
    }
  }

  lemma PutIsSafe(slots: seq<Slot>, h: seq<Placement>, i: nat, id: U16, f: FieldSpec)
    requires Sound(slots) && i < |slots| && IsLive(slots[i], id) && Encodable(f)
    ensures |slots[i].fields| < slots[i].fieldCount ==>
              Sound(slots[i := WithField(slots[i], f)]) && (Inv(slots, h) ==> Inv(slots[i := WithField(slots[i], f)], h))
    ensures AnyTakesField(slots, id) <==> TakesField(slots[i], id)
  {
    UniqueAt(slots, i);
    if |slots[i].fields| < slots[i].fieldCount {
      SoundAfter(slots, i, WithField(slots[i], f));
      if Inv(slots, h) {
        Silent(slots, h, i, WithField(slots[i], f));
      }
    }
  }

  /** The template is being defined under the id, and announced more fields than it has. */
  predicate TakesField(s: Slot, id: U16) { IsLive(s, id) && |s.fields| < s.fieldCount }

  predicate AnyTakesField(slots: seq<Slot>, id: U16) { exists i :: 0 <= i < |slots| && TakesField(slots[i], id) }

  // ----- Starting over

  /** Starting over first sends a withdrawal. */
  predicate WasSent(s: Slot) { s.state.Sent? || s.state.Withdrawn? }

  predicate AnySent(slots: seq<Slot>, id: U16) {
    exists i :: 0 <= i < |slots| && WasSent(slots[i]) && slots[i].id == id
  }

  /** The slots after the withdrawal of a template that was sent under the id. */
  ghost function Prepared(slots: seq<Slot>, id: U16): seq<Slot> {
    if AnySent(slots, id) then Refreshed(slots) else slots
  }

  /** The slots with a sent template of the id turned into its withdrawal. */
  ghost function Retired(slots: seq<Slot>, id: U16): (r: seq<Slot>)
    ensures |r| == |slots|
    ensures forall i :: 0 <= i < |slots| ==>
              r[i] == if slots[i].state.Sent? && slots[i].id == id then Gone(slots[i]) else slots[i]
  {
    seq(|slots|, i requires 0 <= i < |slots| =>
      if slots[i].state.Sent? && slots[i].id == id then Gone(slots[i]) else slots[i])
  }

  /** What the collectors are told when the id is started over. */
  ghost function Announced(slots: seq<Slot>, id: U16): seq<Placement> {
    if AnySent(slots, id) then Placements(Retired(slots, id)) else []
  }

  lemma NothingAnnounced(slots: seq<Slot>, h: seq<Placement>, id: U16)
    requires !HasId(slots, id)
    ensures h + Announced(slots, id) == h && Prepared(slots, id) == slots && forall i :: OnlyAt(slots, i, id)
  {
  }

  /** What starting over means for the entry that has the id. */
  lemma AnnouncedAt(slots: seq<Slot>, h: seq<Placement>, i: nat, id: U16)
    requires i < |slots| && IsLive(slots[i], id) && OnlyAt(slots, i, id)
    ensures Prepared(slots, id) == if WasSent(slots[i]) then Refreshed(slots) else slots
    ensures
      var retired := slots[i := Gone(slots[i])];
      && (slots[i].state.Sent? ==>
            Announced(slots, id) == Placements(retired) && SameBut(Refreshed(retired), Refreshed(slots), i))
      && (slots[i].state.Withdrawn? ==> Announced(slots, id) == Placements(slots))
      && (!WasSent(slots[i]) ==> h + Announced(slots, id) == h)
  {
    assert AnySent(slots, id) <==> WasSent(slots[i]);
    RefreshedSameBut(slots[i := Gone(slots[i])], slots, i);
    assert Retired(slots, id) == if slots[i].state.Sent? then slots[i := Gone(slots[i])] else slots;
  }

  /** Withdrawing a sent template and giving its entry to a new one: safe exactly when it has fields. */
  lemma ResendIsSafe(slots: seq<Slot>, h: seq<Placement>, i: nat, s: Slot)
    requires Inv(slots, h) && i < |slots| && slots[i].state.Sent? && s.state.Unclean? && SlotOk(s) && s.id == slots[i].id
    ensures
      var retired := slots[i := Gone(slots[i])];
      |Refreshed(retired)| == |slots| &&
      (Inv(Refreshed(retired)[i := s], h + Placements(retired)) <==> slots[i].fieldCount > 0)
  {
    var retired := slots[i := Gone(slots[i])];
    RefreshedAt(retired);
    GoneIsSafe(slots, h, i);
    UniqueAt(slots, i);
    if slots[i].fieldCount > 0 {
      PlaceAll(retired, h);
      ChangeIsSafe(Refreshed(retired), h + Placements(retired), i, s);
    } else {
      HolderAt(slots, i);
      OutOfTurn(retired, h, i);
    }
  }

  /** Sending a waiting withdrawal and giving its entry to a new template. */
  lemma WithdrawnIsSafe(slots: seq<Slot>, h: seq<Placement>, i: nat, s: Slot)
    requires Inv(slots, h) && i < |slots| && slots[i].state.Withdrawn? && s.state.Unclean? && SlotOk(s)
    requires s.id == slots[i].id
    ensures |Refreshed(slots)| == |slots| && Inv(Refreshed(slots)[i := s], h + Placements(slots))
  {
    RefreshedAt(slots);
    PlaceAll(slots, h);
    ChangeIsSafe(Refreshed(slots), h + Placements(slots), i, s);
  }

  /** Starting a template keeps collectors and entries in agreement exactly when the old one can be defined anew. */
  lemma StartIsSafe(slots: seq<Slot>, h: seq<Placement>, id: U16, at: nat, s: Slot)
    requires Sound(slots) && Starts(slots, id, at) && s.state.Unclean? && SlotOk(s) && s.id == id
    ensures |Prepared(slots, id)| == |slots|
    ensures Inv(slots, h) ==>
              (Inv(Prepared(slots, id)[at := s], h + Announced(slots, id)) <==>
               Allowed(slots, StartTemplate(id, s.fieldCount)))
  {
    RefreshedAt(slots);
    if !HasId(slots, id) {
      NothingAnnounced(slots, h, id);
      if Inv(slots, h) {
        Silent(slots, h, at, s);
      }
    } else {
      StartOverIsSafe(slots, h, id, at, s);
    }
  }

  lemma StartOverIsSafe(slots: seq<Slot>, h: seq<Placement>, id: U16, i: nat, s: Slot)
    requires Sound(slots) && i < |slots| && IsLive(slots[i], id) && s.state.Unclean? && SlotOk(s) && s.id == id
    ensures |Prepared(slots, id)| == |slots| && (Allowed(slots, StartTemplate(id, s.fieldCount)) <==> Restartable(slots[i]))
    ensures Inv(slots, h) ==>
              (Inv(Prepared(slots, id)[i := s], h + Announced(slots, id)) <==> Restartable(slots[i]))
  {
    RefreshedAt(slots);
    UniqueAt(slots, i);
    AnnouncedAt(slots, h, i, id);
    if Inv(slots, h) {
      if slots[i].state.Sent? {
        var retired := slots[i := Gone(slots[i])];
        ResendIsSafe(slots, h, i, s);
        assert Refreshed(retired)[i := s] == Refreshed(slots)[i := s];
      } else if slots[i].state.Withdrawn? {
        WithdrawnIsSafe(slots, h, i, s);
      } else {
        ChangeIsSafe(slots, h, i, s);
      }
    }
  }

  lemma OnlyAtAfter(slots: seq<Slot>, i: nat, id: U16)
    requires OnlyAt(slots, i, id) && i < |slots|
    ensures |Refreshed(slots)| == |slots| && Refreshed(slots)[i] == After(slots[i])
    ensures OnlyAt(Refreshed(slots), i, id)
    ensures IsLive(slots[i], id) && slots[i].state.Withdrawn? ==>
              IsLive(Refreshed(slots)[i], id)
  {
    RefreshedAt(slots);
  }

  /** The slots other than i agree. */
  predicate SameBut(a: seq<Slot>, b: seq<Slot>, i: nat) {
    |a| == |b| && forall j :: 0 <= j < |a| && j != i ==> a[j] == b[j]
  }

  lemma RefreshedSameBut(a: seq<Slot>, b: seq<Slot>, i: nat)
    requires SameBut(a, b, i)
    ensures SameBut(Refreshed(a), Refreshed(b), i)
  {
    RefreshedAt(a);
    RefreshedAt(b);
  }

  /** An entry removed twice. */
  function Dropped(slots: seq<Slot>, i: nat): seq<Slot>
    requires i < |slots|
  {
    slots[i := Gone(Gone(slots[i]))]
  }

  /**
   * A sent template with fields removed twice and defined again: the next update keeps the turns
   * exactly when the new template has no fields, which makes it the withdrawal that was lost.
   */
  lemma RemovedTwice(slots: seq<Slot>, h: seq<Placement>, i: nat, j: nat, fields: seq<FieldSpec>)
    requires Inv(slots, h) && i < |slots| && slots[i].state.Sent? && slots[i].fieldCount > 0
    requires AllEncodable(fields) && |fields| < 0x1_0000 && j < |slots| && (j == i || !Live(slots[j]))
    ensures Alternates(h + Placements(Dropped(slots, i)[j := Slot(Committed, slots[i].id, |fields|, fields)])) <==>
            fields == []
  {
    var retired := slots[i := Gone(slots[i])];
    GoneIsSafe(slots, h, i);
    GiveUpKeepsTurns(retired, h, i, j, fields);
    assert Dropped(slots, i) == retired[i := retired[i].(state := Unused)];
  }

  lemma SelectedAfter(s: Slot)
    ensures Selected(After(s), Sent, Sent) == Selected(s, Committed, Sent)
  {
  }

  lemma LastBytes(slots: seq<Slot>, s: Slot, a: SlotState, b: SlotState)
    ensures BytesOf(slots + [s], a, b) == BytesOf(slots, a, b) + Selected(s, a, b)
  {
    assert (slots + [s])[..|slots|] == slots;
  }

  /** After an update the sent templates are those that were committed or sent. */
  lemma {:induction false} SentAfter(slots: seq<Slot>)
    ensures BytesOf(Refreshed(slots), Sent, Sent) == BytesOf(slots, Committed, Sent)
  {
    if slots != [] {
      var init, s := slots[..|slots| - 1], slots[|slots| - 1];
      SentAfter(init);
      SelectedAfter(s);
      LastBytes(Refreshed(init), After(s), Sent, Sent);
    }
  }
}
