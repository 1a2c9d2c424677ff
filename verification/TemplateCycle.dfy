/**
 * The life cycle of templates, as values: the slots of an exporter, and the history of
 * what it has placed in its buffer for SCTP, as a collector reads it.  Section 8 of RFC 5101
 * lets an exporter define a template id only while it is not defined, and withdraw it only
 * while it is; a template set without fields is a withdrawal, whatever it was meant to be.
 */
module TemplateCycle {
  import opened Options
  import opened Wire
  import opened TemplateWire

  datatype SlotState = Unused | Unclean | Committed | Sent | Withdrawn | ToBeDeleted

  datatype Slot = Slot(state: SlotState, id: U16, fieldCount: U16, fields: seq<FieldSpec>)

  const FREE := Slot(Unused, 0, 0, [])

  /** What a collector reads in the header of a template: which one it is, and how many fields it has. */
  datatype Placement = Placement(id: U16, count: U16)

  predicate Withdraws(p: Placement) { p.count == 0 }

  predicate Live(s: Slot) { !s.state.Unused? }

  /** The collectors have the template, and if its slot is waiting to be sent, this is its withdrawal. */
  predicate Known(s: Slot) {
    s.state.Withdrawn? || (s.state.Sent? && s.fieldCount > 0) || (s.state.Committed? && s.fieldCount == 0)
  }

  // ----- The history

  /** The last thing placed for the id is a definition. */
  predicate Defined(h: seq<Placement>, id: U16) {
    h != [] &&
    if h[|h| - 1].id == id then !Withdraws(h[|h| - 1]) else Defined(h[..|h| - 1], id)
  }

  /** Definitions and withdrawals of each id take turns, beginning with a definition. */
  predicate Alternates(h: seq<Placement>) {
    forall k :: 0 <= k < |h| ==> TakesTurn(h, k)
  }

  predicate TakesTurn(h: seq<Placement>, k: nat)
    requires k < |h|
  {
    Withdraws(h[k]) <==> Defined(h[..k], h[k].id)
  }

  lemma AlternatesLonger(h: seq<Placement>, p: Placement)
    ensures Alternates(h + [p]) <==> Alternates(h) && (Withdraws(p) <==> Defined(h, p.id))
  {
    var h' := h + [p];
    assert h'[..|h|] == h;
    assert TakesTurn(h', |h|) <==> (Withdraws(p) <==> Defined(h, p.id));
    forall k | 0 <= k < |h|
      ensures TakesTurn(h', k) <==> TakesTurn(h, k)
    {
      assert h'[..k] == h[..k];
    }
  }

  lemma DefinedLonger(h: seq<Placement>, p: Placement, id: U16)
    ensures Defined(h + [p], id) <==> if p.id == id then !Withdraws(p) else Defined(h, id)
  {
    assert (h + [p])[..|h|] == h;
  }

  // ----- The slots

  predicate SlotOk(s: Slot) {
    Live(s) ==>
      && s.id > 255 && AllEncodable(s.fields) && |s.fields| <= s.fieldCount
      && (!s.state.Unclean? ==> |s.fields| == s.fieldCount)
      && (s.state.Withdrawn? || s.state.ToBeDeleted? ==> s.fieldCount == 0)
  }

  predicate AllOk(slots: seq<Slot>) { forall i :: 0 <= i < |slots| ==> SlotOk(slots[i]) }

  predicate UniqueIds(slots: seq<Slot>) {
    forall i, j :: 0 <= i < j < |slots| && Live(slots[i]) && Live(slots[j]) ==> slots[i].id != slots[j].id
  }

  /** A slot holds the template that the collectors know under the id. */
  predicate HasHolder(slots: seq<Slot>, id: U16) {
    exists i :: 0 <= i < |slots| && Known(slots[i]) && slots[i].id == id
  }

  ghost predicate Agrees(slots: seq<Slot>, h: seq<Placement>) {
    forall id: U16 :: Defined(h, id) <==> HasHolder(slots, id)
  }

  /** What every run keeps, whatever the user calls. */
  predicate Sound(slots: seq<Slot>) { AllOk(slots) && UniqueIds(slots) }

  /** What a run keeps while the user keeps to the rules. */
  ghost predicate Inv(slots: seq<Slot>, h: seq<Placement>) {
    Sound(slots) && Agrees(slots, h) && Alternates(h)
  }

  /** The id is not used by a live slot other than i. */
  predicate OnlyAt(slots: seq<Slot>, i: nat, id: U16) {
    forall j :: 0 <= j < |slots| && j != i && Live(slots[j]) ==> slots[j].id != id
  }

  lemma UniqueAt(slots: seq<Slot>, i: nat)
    requires UniqueIds(slots) && i < |slots| && Live(slots[i])
    ensures OnlyAt(slots, i, slots[i].id)
  {
  }

  lemma UniqueAfter(slots: seq<Slot>, i: nat, s: Slot)
    requires UniqueIds(slots) && i < |slots| && (Live(s) ==> OnlyAt(slots, i, s.id))
    ensures UniqueIds(slots[i := s])
  {
  }

  lemma SoundAfter(slots: seq<Slot>, i: nat, s: Slot)
    requires Sound(slots) && i < |slots| && SlotOk(s) && (Live(s) ==> OnlyAt(slots, i, s.id))
    ensures Sound(slots[i := s])
  {
    UniqueAfter(slots, i, s);
  }

  /** Who holds an id after slot i has changed. */
  lemma HolderAfter(slots: seq<Slot>, i: nat, s: Slot, id: U16)
    requires UniqueIds(slots) && i < |slots|
    ensures HasHolder(slots[i := s], id) <==>
            (Known(s) && s.id == id) || (HasHolder(slots, id) && !(Known(slots[i]) && slots[i].id == id))
  {
    var slots' := slots[i := s];
    if Known(s) && s.id == id {
      assert Known(slots'[i]);
    } else if HasHolder(slots, id) && !(Known(slots[i]) && slots[i].id == id) {
      var j :| 0 <= j < |slots| && Known(slots[j]) && slots[j].id == id;
      assert Known(slots'[j]);
    }
    if HasHolder(slots', id) && !(Known(s) && s.id == id) {
      var j :| 0 <= j < |slots'| && Known(slots'[j]) && slots'[j].id == id;
      assert j != i && slots[j] == slots'[j];
    }
  }

  /** A change of slot i that the collectors do not hear of. */
  lemma Silent(slots: seq<Slot>, h: seq<Placement>, i: nat, s: Slot)
    requires Inv(slots, h) && i < |slots| && SlotOk(s) && (Live(s) ==> OnlyAt(slots, i, s.id))
    requires Known(s) <==> Known(slots[i])
    requires Known(s) ==> s.id == slots[i].id
    ensures Inv(slots[i := s], h)
  {
    UniqueAfter(slots, i, s);
    forall id: U16
      ensures Defined(h, id) <==> HasHolder(slots[i := s], id)
    {
      HolderAfter(slots, i, s, id);
    }
  }

  /** Who holds the id of a live slot. */
  lemma HolderAt(slots: seq<Slot>, i: nat)
    requires UniqueIds(slots) && i < |slots| && Live(slots[i])
    ensures HasHolder(slots, slots[i].id) <==> Known(slots[i])
  {
    UniqueAt(slots, i);
  }

  /** A change of a live slot: safe exactly when the collectors have its template after as before. */
  lemma ChangeIsSafe(slots: seq<Slot>, h: seq<Placement>, i: nat, s: Slot)
    requires Inv(slots, h) && i < |slots| && Live(slots[i]) && SlotOk(s) && s.id == slots[i].id
    ensures Inv(slots[i := s], h) <==> (Known(s) <==> Known(slots[i]))
  {
    UniqueAt(slots, i);
    if Known(s) <==> Known(slots[i]) {
      Silent(slots, h, i, s);
    } else {
      HolderAfter(slots, i, s, s.id);
      HolderAt(slots, i);
    }
  }

  // ----- What the calls do to a slot

  /** What becomes of a template that is removed. */
  function Gone(s: Slot): Slot {
    if s.state.Sent? then s.(state := Withdrawn, fieldCount := 0, fields := []) else s.(state := Unused)
  }

  /** What becomes of a template that is ended. */
  function Finished(s: Slot): Slot {
    s.(state := if |s.fields| == s.fieldCount then Committed else Unused)
  }

  lemma GoneIsOk(s: Slot)
    requires SlotOk(s) && Live(s)
    ensures SlotOk(Gone(s)) && SlotOk(Finished(s)) && Gone(s).id == Finished(s).id == s.id
  {
  }

  /** A template without fields that has been ended. */
  predicate Empty(s: Slot) { s.fieldCount == 0 && (s.state.Committed? || s.state.Sent?) }

  /** Removing the template keeps collectors and slots in agreement. */
  predicate Removable(s: Slot) { !s.state.Withdrawn? && !Empty(s) }

  /** Ending the template keeps collectors and slots in agreement. */
  predicate Endable(s: Slot) {
    s.state.Committed? || s.state.Withdrawn? || (s.state.Unclean? && s.fieldCount > 0)
  }

  /** Removing a template: safe exactly when no withdrawal of it is waiting and it has fields, if it was ended. */
  lemma GoneIsSafe(slots: seq<Slot>, h: seq<Placement>, i: nat)
    requires Inv(slots, h) && i < |slots| && Live(slots[i])
    ensures Inv(slots[i := Gone(slots[i])], h) <==> Removable(slots[i])
  {
    GoneIsOk(slots[i]);
    ChangeIsSafe(slots, h, i, Gone(slots[i]));
  }

  /** Ending a template: safe exactly while it is being defined with fields, or has not been sent since it was ended. */
  lemma FinishedIsSafe(slots: seq<Slot>, h: seq<Placement>, i: nat)
    requires Inv(slots, h) && i < |slots| && Live(slots[i])
    ensures Inv(slots[i := Finished(slots[i])], h) <==> Endable(slots[i])
  {
    GoneIsOk(slots[i]);
    ChangeIsSafe(slots, h, i, Finished(slots[i]));
  }

  // ----- Placing the templates

  /** The state of a slot after ipfix_update_template_sendbuffer. */
  function After(s: Slot): Slot {
    match s.state
    case ToBeDeleted => s.(state := Unused)
    case Committed => s.(state := Sent)
    case Withdrawn => s.(state := ToBeDeleted)
    case _ => s
  }

  /** What it places for the SCTP collectors. */
  function Placed(s: Slot): seq<Placement> {
    if s.state.Committed? || s.state.Withdrawn? then [Placement(s.id, s.fieldCount)] else []
  }

  /** Placing one slot keeps the definitions and withdrawals in turn. */
  lemma PlaceSlot(slots: seq<Slot>, h: seq<Placement>, i: nat)
    requires Inv(slots, h) && i < |slots|
    ensures Inv(slots[i := After(slots[i])], h + Placed(slots[i]))
  {
    var s, s' := slots[i], After(slots[i]);
    if Placed(s) == [] {
      assert h + [] == h;
      if Live(s) {
        UniqueAt(slots, i);
      }
      Silent(slots, h, i, s');
    } else {
      var p := Placed(s)[0];
      UniqueAt(slots, i);
      UniqueAfter(slots, i, s');
      HolderAt(slots, i);
      AlternatesLonger(h, p);
      forall id: U16
        ensures Defined(h + [p], id) <==> HasHolder(slots[i := s'], id)
      {
        HolderAfter(slots, i, s', id);
        DefinedLonger(h, p, id);
      }
    }
  }

  function Refreshed(slots: seq<Slot>): seq<Slot> {
    if slots == [] then [] else Refreshed(slots[..|slots| - 1]) + [After(slots[|slots| - 1])]
  }

  function Placements(slots: seq<Slot>): seq<Placement> {
    if slots == [] then [] else Placements(slots[..|slots| - 1]) + Placed(slots[|slots| - 1])
  }

  lemma {:induction false} RefreshedAt(slots: seq<Slot>)
    ensures |Refreshed(slots)| == |slots|
    ensures forall i :: 0 <= i < |slots| ==> Refreshed(slots)[i] == After(slots[i])
  {
    if slots != [] {
      RefreshedAt(slots[..|slots| - 1]);
    }
  }

  lemma RefreshedIsSound(slots: seq<Slot>)
    requires Sound(slots)
    ensures Sound(Refreshed(slots))
  {
    RefreshedAt(slots);
  }

  /** The slots while the first i of them have been placed. */
  function Midway(slots: seq<Slot>, i: nat): seq<Slot>
    requires i <= |slots|
  {
    Refreshed(slots[..i]) + slots[i..]
  }

  lemma MidwayNext(slots: seq<Slot>, i: nat)
    requires i < |slots|
    ensures |Midway(slots, i)| == |slots| && Midway(slots, i)[i] == slots[i]
    ensures Midway(slots, i + 1) == Midway(slots, i)[i := After(slots[i])]
  {
    RefreshedAt(slots[..i]);
    assert slots[..i + 1][..i] == slots[..i];
  }

  lemma PlacementsNext(slots: seq<Slot>, h: seq<Placement>, i: nat)
    requires i < |slots|
    ensures h + Placements(slots[..i + 1]) == h + Placements(slots[..i]) + Placed(slots[i])
  {
    assert slots[..i + 1][..i] == slots[..i];
  }

  lemma PlaceNext(slots: seq<Slot>, h: seq<Placement>, i: nat)
    requires i < |slots| && Inv(Midway(slots, i), h + Placements(slots[..i]))
    ensures Inv(Midway(slots, i + 1), h + Placements(slots[..i + 1]))
  {
    var m, before := Midway(slots, i), h + Placements(slots[..i]);
    MidwayNext(slots, i);
    PlacementsNext(slots, h, i);
    PlaceSlot(m, before, i);
  }

  /** Placing the slots one by one keeps the definitions and withdrawals in turn. */
  lemma {:induction false} PlaceFirst(slots: seq<Slot>, h: seq<Placement>, i: nat)
    requires Inv(slots, h) && i <= |slots|
    ensures Inv(Midway(slots, i), h + Placements(slots[..i]))
  {
    if i == 0 {
      assert Midway(slots, 0) == slots && h + [] == h;
    } else {
      PlaceFirst(slots, h, i - 1);
      PlaceNext(slots, h, i - 1);
    }
  }

  lemma PlaceAll(slots: seq<Slot>, h: seq<Placement>)
    requires Inv(slots, h)
    ensures Inv(Refreshed(slots), h + Placements(slots))
  {
    PlaceFirst(slots, h, |slots|);
    assert slots[..|slots|] == slots && Midway(slots, |slots|) == Refreshed(slots);
  }

  // ----- What a collector reads

  /** The template set in the buffer of a slot. */
  function SlotBytes(s: Slot): seq<Byte> { TemplateBytes(s.id, s.fields) }

  /** What a collector reads at the beginning of a template set. */
  function Head(b: seq<Byte>): Placement
    requires |b| >= TEMPLATE_HEADER
  {
    Placement(Read16(b, 4), Read16(b, 6))
  }

  lemma HeadOfTemplate(id: U16, fields: seq<FieldSpec>)
    requires |fields| < 0x1_0000
    ensures |TemplateBytes(id, fields)| >= TEMPLATE_HEADER && Head(TemplateBytes(id, fields)) == Placement(id, |fields|)
  {
    var b := FieldsBytes(fields);
    ReadTemplateHeader(Low16(TEMPLATE_HEADER + |b|), id, |fields|, b);
  }

  /**
   * A placement is what a collector reads in the bytes of the slot.  It decodes these to the
   * fields that were put exactly when the set is shorter than 2^16 bytes, and takes them for a
   * withdrawal exactly when there are none.
   */
  lemma PlacedReads(s: Slot)
    requires SlotOk(s) && Placed(s) != []
    ensures |SlotBytes(s)| >= TEMPLATE_HEADER && Placed(s) == [Head(SlotBytes(s))]
    ensures Withdraws(Placed(s)[0]) <==> SlotBytes(s) == WithdrawalBytes(s.id)
    ensures DecodeTemplate(SlotBytes(s)) == Some(Template(s.id, s.fields)) <==>
            TEMPLATE_HEADER + |FieldsBytes(s.fields)| < 0x1_0000
  {
    HeadOfTemplate(s.id, s.fields);
    WithdrawalIsDistinct(s.id, s.fields);
    TemplateRoundTrip(s.id, s.fields);
  }

  // ----- What breaking the rules leads to

  lemma {:induction false} AlternatesShorter(h: seq<Placement>, t: seq<Placement>)
    requires Alternates(h + t)
    ensures Alternates(h)
  {
    if t == [] {
      assert h + t == h;
    } else {
      var init, p := t[..|t| - 1], t[|t| - 1];
      assert h + t == (h + init) + [p];
      AlternatesLonger(h + init, p);
      AlternatesShorter(h, init);
    }
  }

  lemma SlotLeavesDefined(h: seq<Placement>, s: Slot, id: U16)
    requires Live(s) ==> s.id != id
    ensures Defined(h + Placed(s), id) <==> Defined(h, id)
  {
    if Placed(s) != [] {
      DefinedLonger(h, Placed(s)[0], id);
    } else {
      assert h + [] == h;
    }
  }

  /** Slots that do not hold the id leave it as it is. */
  lemma {:induction false} OthersLeaveDefined(slots: seq<Slot>, h: seq<Placement>, id: U16)
    requires forall j :: 0 <= j < |slots| && Live(slots[j]) ==> slots[j].id != id
    ensures Defined(h + Placements(slots), id) <==> Defined(h, id)
  {
    if slots == [] {
      assert h + [] == h;
    } else {
      var init, s := slots[..|slots| - 1], slots[|slots| - 1];
      OthersLeaveDefined(init, h, id);
      assert slots[..|init| + 1] == slots;
      PlacementsNext(slots, h, |init|);
      SlotLeavesDefined(h + Placements(init), s, id);
    }
  }

  lemma {:induction false} PlacementsSplit(slots: seq<Slot>, i: nat)
    requires i <= |slots|
    ensures Placements(slots[..i]) <= Placements(slots)
  {
    if i == |slots| {
      assert slots[..i] == slots;
    } else {
      var init := slots[..|slots| - 1];
      PlacementsSplit(init, i);
      assert init[..i] == slots[..i];
    }
  }

  lemma AlternatesUpTo(slots: seq<Slot>, h: seq<Placement>, k: nat)
    requires k <= |slots| && Alternates(h + Placements(slots))
    ensures Alternates(h + Placements(slots[..k]))
  {
    PlacementsSplit(slots, k);
    AlternatesPrefix(h, Placements(slots[..k]), Placements(slots));
  }

  lemma AlternatesPrefix(h: seq<Placement>, part: seq<Placement>, all: seq<Placement>)
    requires part <= all && Alternates(h + all)
    ensures Alternates(h + part)
  {
    assert h + all == (h + part) + all[|part|..];
    AlternatesShorter(h + part, all[|part|..]);
  }

  /** A definition of a defined id is waiting, or a withdrawal of an undefined one: the next update is out of turn. */
  lemma OutOfTurn(slots: seq<Slot>, h: seq<Placement>, j: nat)
    requires j < |slots| && Placed(slots[j]) != [] && OnlyAt(slots, j, slots[j].id)
    requires slots[j].fieldCount == 0 <==> !Defined(h, slots[j].id)
    ensures !Alternates(h + Placements(slots))
  {
    OthersLeaveDefined(slots[..j], h, slots[j].id);
    PlacementsNext(slots, h, j);
    AlternatesLonger(h + Placements(slots[..j]), Placed(slots[j])[0]);
    if Alternates(h + Placements(slots)) {
      AlternatesUpTo(slots, h, j + 1);
    }
  }

  /** Ending a template: the next update keeps the turns exactly when this is safe. */
  lemma CommitKeepsTurns(slots: seq<Slot>, h: seq<Placement>, i: nat)
    requires Inv(slots, h) && i < |slots| && Live(slots[i])
    ensures Alternates(h + Placements(slots[i := Finished(slots[i])])) <==> Endable(slots[i])
  {
    var after := slots[i := Finished(slots[i])];
    FinishedIsSafe(slots, h, i);
    if Endable(slots[i]) {
      PlaceAll(after, h);
    } else {
      UniqueAt(slots, i);
      HolderAt(slots, i);
      OutOfTurn(after, h, i);
    }
  }

  /**
   * Freeing a slot and defining its id again, in whichever slot and with whichever fields: the
   * next update keeps the turns exactly when the new template has fields and the collectors did
   * not have the old one, or has none and they did.
   */
  lemma GiveUpKeepsTurns(slots: seq<Slot>, h: seq<Placement>, i: nat, j: nat, fields: seq<FieldSpec>)
    requires Inv(slots, h) && i < |slots| && Live(slots[i]) && AllEncodable(fields) && |fields| < 0x1_0000
    requires j < |slots| && (j == i || !Live(slots[j]))
    ensures
      var freed := slots[i := slots[i].(state := Unused)];
      Alternates(h + Placements(freed[j := Slot(Committed, slots[i].id, |fields|, fields)])) <==>
      (fields == [] <==> Known(slots[i]))
  {
    var freed := slots[i := slots[i].(state := Unused)];
    var s := Slot(Committed, slots[i].id, |fields|, fields);
    UniqueAt(slots, i);
    HolderAt(slots, i);
    assert OnlyAt(freed[j := s], j, s.id);
    if fields == [] <==> Known(slots[i]) {
      MovedIsSafe(slots, h, i, j, s);
      PlaceAll(freed[j := s], h);
    } else {
      OutOfTurn(freed[j := s], h, j);
    }
  }

  /** A template moves to another slot: the collectors do not hear of it. */
  lemma MovedIsSafe(slots: seq<Slot>, h: seq<Placement>, i: nat, j: nat, s: Slot)
    requires Inv(slots, h) && i < |slots| && Live(slots[i]) && SlotOk(s) && s.id == slots[i].id
    requires j < |slots| && (j == i || !Live(slots[j])) && Live(s) && (Known(s) <==> Known(slots[i]))
    ensures Inv(slots[i := slots[i].(state := Unused)][j := s], h)
  {
    var freed := slots[i := slots[i].(state := Unused)];
    UniqueAt(slots, i);
    UniqueAfter(slots, i, freed[i]);
    assert OnlyAt(freed, j, s.id);
    UniqueAfter(freed, j, s);
    forall id: U16
      ensures Defined(h, id) <==> HasHolder(freed[j := s], id)
    {
      HolderAfter(slots, i, freed[i], id);
      HolderAfter(freed, j, s, id);
      HolderAt(slots, i);
    }
  }
}
