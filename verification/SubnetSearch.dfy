/**
 * The subnet search of AnonCryptoPanPrefix.cpp, for any way of cutting addresses to
 * prefixes: a table keyed by base address alone, searched by falling prefix length.
 * It finds the longest configured subnet of an address only under a condition, which
 * SelectionIsLongest gives exactly.
 */
module SubnetSearch {
  import opened Options
  import opened Sequences

  /** How an address is cut to a prefix length. */
  type Cut<!A> = (A, nat) -> A

  /** Cutting twice is cutting once, at the shorter length. */
  ghost predicate Lawful<A(!new)>(net: Cut<A>) {
    forall a: A, short: nat, long: nat {:trigger net(net(a, long), short)} {:trigger net(net(a, short), long)} ::
      short <= long ==> net(net(a, long), short) == net(a, short) && net(net(a, short), long) == net(a, short)
  }

  datatype Entry<A> = Entry(fromNet: A, toNet: A, cidr: nat)

  function Base<A>(net: Cut<A>, e: Entry<A>): A {
    net(e.fromNet, e.cidr)
  }

  /** What the constructor stores for a configured subnet. */
  function Stored<A>(net: Cut<A>, e: Entry<A>): Entry<A> {
    Entry(Base(net, e), net(e.toNet, e.cidr), e.cidr)
  }

  /** The table: a later subnet with the same base replaces an earlier one. */
  function Table<A(==)>(net: Cut<A>, entries: seq<Entry<A>>): map<A, Entry<A>> {
    if entries == [] then map[] else
      var last := |entries| - 1;
      Table(net, entries[..last])[Base(net, entries[last]) := Stored(net, entries[last])]
  }

  ghost predicate Configured<A>(entries: seq<Entry<A>>, c: nat) {
    exists j :: 0 <= j < |entries| && entries[j].cidr == c
  }

  ghost predicate Falling(lens: seq<nat>) {
    forall i, j :: 0 <= i < j < |lens| ==> lens[j] < lens[i]
  }

  /** The prefix lengths as the search goes through them. */
  ghost predicate Scans<A>(lens: seq<nat>, entries: seq<Entry<A>>) {
    Falling(lens) && forall c: nat :: c in lens <==> Configured(entries, c)
  }

  /** The search of pseudomize: the place of the first length at which the table has the address. */
  function FirstHit<A>(net: Cut<A>, lens: seq<nat>, table: map<A, Entry<A>>, a: A): (k: nat)
    ensures k <= |lens| && (k < |lens| ==> net(a, lens[k]) in table)
    ensures forall i :: 0 <= i < k ==> net(a, lens[i]) !in table
  {
    if lens == [] then 0
    else if net(a, lens[0]) in table then 0
    else
      var k := FirstHit(net, lens[1..], table, a);
      assert forall i :: 0 < i < k + 1 ==> lens[i] == lens[1..][i - 1];
      k + 1
  }

  /** The stored subnet that the search comes back with. */
  function Choice<A>(net: Cut<A>, lens: seq<nat>, table: map<A, Entry<A>>, a: A): Option<Entry<A>> {
    var k := FirstHit(net, lens, table, a);
    if k < |lens| then Some(table[net(a, lens[k])]) else None
  }

  // ----- The specification: longest configured subnet

  ghost predicate Contains<A>(net: Cut<A>, e: Entry<A>, a: A) {
    net(a, e.cidr) == Base(net, e)
  }

  /** Entry i is the longest configured subnet of a, and the last one configured with it. */
  ghost predicate IsLongest<A>(net: Cut<A>, entries: seq<Entry<A>>, a: A, i: nat) {
    && i < |entries|
    && Contains(net, entries[i], a)
    && forall j :: 0 <= j < |entries| && Contains(net, entries[j], a) ==>
         entries[j].cidr < entries[i].cidr || (entries[j].cidr == entries[i].cidr && j <= i)
  }

  /** The search gives the longest configured subnet, or nothing if there is none. */
  ghost predicate SelectsLongest<A>(net: Cut<A>, lens: seq<nat>, entries: seq<Entry<A>>, a: A) {
    match Choice(net, lens, Table(net, entries), a)
    case None => forall j :: 0 <= j < |entries| ==> !Contains(net, entries[j], a)
    case Some(found) => exists i: nat :: IsLongest(net, entries, a, i) && found == Stored(net, entries[i])
  }

  /** Cut to the configured length l, the address is a configured base. */
  ghost predicate Hits<A>(net: Cut<A>, entries: seq<Entry<A>>, a: A, l: nat) {
    Configured(entries, l) && exists j :: 0 <= j < |entries| && Base(net, entries[j]) == net(a, l)
  }

  ghost predicate LongestHit<A>(net: Cut<A>, entries: seq<Entry<A>>, a: A, l: nat) {
    Hits(net, entries, a, l) && forall c: nat :: Hits(net, entries, a, c) ==> c <= l
  }

  /** Entry i is the last one configured with the base b. */
  ghost predicate LastWith<A>(net: Cut<A>, entries: seq<Entry<A>>, b: A, i: nat) {
    && i < |entries| && Base(net, entries[i]) == b
    && forall j :: i < j < |entries| ==> Base(net, entries[j]) != b
  }

  /**
   * What makes the search right for an address: at the longest length that hits a base, the
   * last subnet with that base is no longer than this length, and no other subnet with that
   * base has a length in between.
   */
  ghost predicate BaseIsClear<A>(net: Cut<A>, entries: seq<Entry<A>>, a: A) {
    forall l: nat, i: nat :: LongestHit(net, entries, a, l) && LastWith(net, entries, net(a, l), i) ==>
      && entries[i].cidr <= l
      && forall j :: 0 <= j < |entries| && Base(net, entries[j]) == net(a, l) ==>
           !(entries[i].cidr < entries[j].cidr <= l)
  }

  // ----- Proofs

  /** The table holds, under each base, the last subnet configured with it. */
  lemma {:induction false} TableHolds<A>(net: Cut<A>, entries: seq<Entry<A>>, b: A) returns (i: nat)
    requires b in Table(net, entries)
    ensures LastWith(net, entries, b, i) && Table(net, entries)[b] == Stored(net, entries[i])
  {
    var last := |entries| - 1;
    if Base(net, entries[last]) == b {
      i := last;
    } else {
      i := TableHolds(net, entries[..last], b);
    }
  }

  lemma {:induction false} TableHasBases<A>(net: Cut<A>, entries: seq<Entry<A>>, j: nat)
    requires j < |entries|
    ensures Base(net, entries[j]) in Table(net, entries)
  {
    var last := |entries| - 1;
    if j < last {
      TableHasBases(net, entries[..last], j);
    }
  }

  /** A configured length that hits is met by the search. */
  lemma HitIsMet<A>(net: Cut<A>, lens: seq<nat>, entries: seq<Entry<A>>, a: A, l: nat)
    requires Scans(lens, entries) && Hits(net, entries, a, l)
    ensures var k := FirstHit(net, lens, Table(net, entries), a); k < |lens| && l <= lens[k]
  {
    var j: nat :| j < |entries| && Base(net, entries[j]) == net(a, l);
    TableHasBases(net, entries, j);
    var k := FirstHit(net, lens, Table(net, entries), a);
    var p: nat :| p < |lens| && lens[p] == l;
    assert k <= p;
  }

  /** The search stops at the longest length that hits. */
  lemma StopsAtLongestHit<A>(net: Cut<A>, lens: seq<nat>, entries: seq<Entry<A>>, a: A)
    requires Scans(lens, entries)
    ensures
      var k := FirstHit(net, lens, Table(net, entries), a);
      if k < |lens| then LongestHit(net, entries, a, lens[k]) else forall l: nat :: !Hits(net, entries, a, l)
  {
    var k := FirstHit(net, lens, Table(net, entries), a);
    forall l: nat | Hits(net, entries, a, l)
      ensures k < |lens| && l <= lens[k]
    {
      HitIsMet(net, lens, entries, a, l);
    }
    if k < |lens| {
      assert lens[k] in lens;
      var i := TableHolds(net, entries, net(a, lens[k]));
    }
  }

  /** A configured subnet of the address is found at its own length at the latest. */
  lemma HitAtOwnLength<A>(net: Cut<A>, lens: seq<nat>, entries: seq<Entry<A>>, a: A, j: nat)
    requires Scans(lens, entries) && j < |entries| && Contains(net, entries[j], a)
    ensures var k := FirstHit(net, lens, Table(net, entries), a); k < |lens| && entries[j].cidr <= lens[k]
  {
    assert Hits(net, entries, a, entries[j].cidr);
    HitIsMet(net, lens, entries, a, entries[j].cidr);
  }

  /** A base that is cut at d, seen at a length between d and l. */
  lemma SameBase<A(!new)>(net: Cut<A>, a: A, b: A, d: nat, c: nat, l: nat)
    requires Lawful(net) && d <= c <= l && b == net(a, l) && b == net(b, d)
    ensures net(a, c) == b
  {
    assert net(net(a, l), c) == net(a, c);
    assert net(net(b, d), c) == net(b, d);
  }

  lemma ClearSelectsLongest<A(!new)>(net: Cut<A>, lens: seq<nat>, entries: seq<Entry<A>>, a: A)
    requires Lawful(net) && Scans(lens, entries) && BaseIsClear(net, entries, a)
    ensures SelectsLongest(net, lens, entries, a)
  {
    var k := FirstHit(net, lens, Table(net, entries), a);
    forall j: nat | j < |entries| && Contains(net, entries[j], a)
      ensures k < |lens| && entries[j].cidr <= lens[k]
    {
      HitAtOwnLength(net, lens, entries, a, j);
    }
    if k < |lens| {
      var l, b := lens[k], net(a, lens[k]);
      var i := TableHolds(net, entries, b);
      var d := entries[i].cidr;
      StopsAtLongestHit(net, lens, entries, a);
      assert LastWith(net, entries, net(a, l), i);
      assert net(net(entries[i].fromNet, d), d) == b;
      SameBase(net, a, b, d, d, l);
      forall j: nat | j < |entries| && Contains(net, entries[j], a)
        ensures entries[j].cidr < d || (entries[j].cidr == d && j <= i)
      {
        if d <= entries[j].cidr {
          SameBase(net, a, b, d, entries[j].cidr, l);
        }
      }
      assert IsLongest(net, entries, a, i);
    }
  }

  /** Where the search gives the longest subnet, the base that it stops at is clear. */
  lemma LongestIsClear<A(!new)>(net: Cut<A>, lens: seq<nat>, entries: seq<Entry<A>>, a: A, l: nat, h: nat)
    requires Lawful(net) && Scans(lens, entries) && SelectsLongest(net, lens, entries, a)
    requires LongestHit(net, entries, a, l) && LastWith(net, entries, net(a, l), h)
    ensures entries[h].cidr <= l
    ensures forall j :: 0 <= j < |entries| && Base(net, entries[j]) == net(a, l) ==>
              !(entries[h].cidr < entries[j].cidr <= l)
  {
    var b := net(a, l);
    HitIsMet(net, lens, entries, a, l);
    StopsAtLongestHit(net, lens, entries, a);
    var last := TableHolds(net, entries, b);
    var i: nat :| IsLongest(net, entries, a, i) && Table(net, entries)[b] == Stored(net, entries[i]);
    var d := entries[i].cidr;
    HitAtOwnLength(net, lens, entries, a, i);
    assert net(net(entries[h].fromNet, d), d) == b;
    forall j: nat | j < |entries| && Base(net, entries[j]) == b
      ensures !(d < entries[j].cidr <= l)
    {
      if d < entries[j].cidr <= l {
        SameBase(net, a, b, d, entries[j].cidr, l);
      }
    }
  }

  /** The search finds the longest configured subnet exactly when the longest base that is hit is clear. */
  lemma SelectionIsLongest<A(!new)>(net: Cut<A>, lens: seq<nat>, entries: seq<Entry<A>>, a: A)
    requires Lawful(net) && Scans(lens, entries)
    ensures SelectsLongest(net, lens, entries, a) <==> BaseIsClear(net, entries, a)
  {
    if BaseIsClear(net, entries, a) {
      ClearSelectsLongest(net, lens, entries, a);
    } else if SelectsLongest(net, lens, entries, a) {
      forall l: nat, i: nat | LongestHit(net, entries, a, l) && LastWith(net, entries, net(a, l), i)
        ensures entries[i].cidr <= l
        ensures forall j :: 0 <= j < |entries| && Base(net, entries[j]) == net(a, l) ==>
                  !(entries[i].cidr < entries[j].cidr <= l)
      {
        LongestIsClear(net, lens, entries, a, l, i);
      }
    }
  }

  /** No base is left unchanged by cutting it to a shorter configured length. */
  ghost predicate BasesDistinct<A>(net: Cut<A>, entries: seq<Entry<A>>) {
    forall i, j :: 0 <= i < |entries| && 0 <= j < |entries| && entries[i].cidr < entries[j].cidr ==>
      net(Base(net, entries[j]), entries[i].cidr) != Base(net, entries[j])
  }

  /** A condition on the configuration under which the search is right for every address. */
  lemma DistinctBasesAreClear<A(!new)>(net: Cut<A>, entries: seq<Entry<A>>, a: A)
    requires Lawful(net) && BasesDistinct(net, entries)
    ensures BaseIsClear(net, entries, a)
  {
    forall l: nat, i: nat | LongestHit(net, entries, a, l) && LastWith(net, entries, net(a, l), i)
      ensures entries[i].cidr <= l
      ensures forall j :: 0 <= j < |entries| && Base(net, entries[j]) == net(a, l) ==>
                entries[j].cidr == entries[i].cidr
    {
      var b := net(a, l);
      assert net(net(a, l), l) == b && Configured(entries, l);
      assert forall j :: 0 <= j < |entries| && Base(net, entries[j]) == b ==>
          net(net(entries[j].fromNet, entries[j].cidr), entries[j].cidr) == b;
    }
  }

  /** The lengths that the masking and the length list are made for. */
  ghost predicate Usable<A>(entries: seq<Entry<A>>) {
    forall j :: 0 <= j < |entries| ==> 1 <= entries[j].cidr <= 32
  }

  /** The search invents no prefix length. */
  lemma ChoiceIsUsable<A>(net: Cut<A>, lens: seq<nat>, entries: seq<Entry<A>>, a: A)
    requires Usable(entries) && Choice(net, lens, Table(net, entries), a).Some?
    ensures 1 <= Choice(net, lens, Table(net, entries), a).value.cidr <= 32
  {
    var k := FirstHit(net, lens, Table(net, entries), a);
    var i := TableHolds(net, entries, net(a, lens[k]));
  }

  // ----- The code

  /** Insertion into a falling list. */
  function Insert(x: nat, s: seq<nat>): (r: seq<nat>)
    ensures |r| == |s| + 1 && forall y :: y in r <==> y == x || y in s
    ensures Falling(s) && x !in s ==> Falling(r)
  {
    if s == [] then [x]
    else if x > s[0] then [x] + s
    else
      assert s == [s[0]] + s[1..];
      var r := Insert(x, s[1..]);
      assert forall j :: 0 <= j < |r| ==> r[j] in r;
      assert Falling(s) ==> forall y :: y in s[1..] ==> y < s[0];
      [s[0]] + r
  }

  /** The effect of qsort with compare_cidrs on distinct lengths. */
  function Sorted(s: seq<nat>): (r: seq<nat>)
    ensures |r| == |s| && forall y :: y in r <==> y in s
    ensures NoDuplicates(s) ==> Falling(r)
  {
    if s == [] then []
    else
      assert s == [s[0]] + s[1..];
      Insert(s[0], Sorted(s[1..]))
  }

  /** A list of the configured lengths, each once. */
  ghost predicate Covers<A>(lens: seq<nat>, entries: seq<Entry<A>>) {
    NoDuplicates(lens) && forall c: nat :: c in lens <==> Configured(entries, c)
  }

  /** The table and the length list of AnonCryptoPanPrefix. */
  class Mapping<A(==)> {
    const net: Cut<A>
    var netMapping: map<A, Entry<A>>
    const availCidrs: array<nat>
    var numberOfCidrs: nat

    /** The lists in the order in which the constructor meets the lengths. */
    ghost predicate Collected(entries: seq<Entry<A>>)
      reads this, availCidrs
    {
      && availCidrs.Length == 32 && numberOfCidrs <= 32
      && netMapping == Table(net, entries)
      && Covers(availCidrs[..numberOfCidrs], entries)
    }

    /** The object as the constructor leaves it. */
    ghost predicate Built(entries: seq<Entry<A>>)
      reads this, availCidrs
    {
      && availCidrs.Length == 32 && numberOfCidrs <= 32
      && netMapping == Table(net, entries)
      && Scans(availCidrs[..numberOfCidrs], entries)
    }

    constructor (net: Cut<A>)
      ensures Collected([]) && this.net == net && fresh(availCidrs)
    {
      this.net := net;
      netMapping := map[];
      numberOfCidrs := 0;
      availCidrs := new nat[32];
    }

    /** The inner loop of the constructor. */
    method HasCidr(c: nat) returns (found: bool)
      requires numberOfCidrs <= availCidrs.Length
      ensures found <==> c in availCidrs[..numberOfCidrs]
    {
      for i := 0 to numberOfCidrs
        invariant c !in availCidrs[..i]
      {
        if availCidrs[i] == c {
          return true;
        }
      }
      return false;
    }

    /** One pass of the constructor's loop, for a length that is not too long. */
    method Add(e: Entry<A>, ghost entries: seq<Entry<A>>)
      requires Collected(entries) && 1 <= e.cidr <= 32 && Usable(entries)
      modifies this, availCidrs
      ensures Collected(entries + [e])
    {
      ghost var before := availCidrs[..numberOfCidrs];
      var found := HasCidr(e.cidr);
      LengthsGrow(entries, before, e);
      if !found {
        availCidrs[numberOfCidrs] := e.cidr;
        numberOfCidrs := numberOfCidrs + 1;
        assert availCidrs[..numberOfCidrs] == before + [e.cidr];
      }
      assert (entries + [e])[..|entries|] == entries;
      netMapping := netMapping[Base(net, e) := Stored(net, e)];
    }

    /** The rest of the constructor: the loop over the configuration, and qsort. */
    method Build(mapping: seq<Entry<A>>) returns (ok: bool)
      requires Collected([]) && forall j :: 0 <= j < |mapping| ==> mapping[j].cidr != 0
      modifies this, availCidrs
      ensures ok <==> Usable(mapping)
      ensures ok ==> Built(mapping)
    {
      for i := 0 to |mapping|
        invariant Collected(mapping[..i]) && Usable(mapping[..i])
      {
        if mapping[i].cidr > 32 {
          return false;
        }
        assert mapping[..i + 1] == mapping[..i] + [mapping[i]];
        Add(mapping[i], mapping[..i]);
      }
      assert mapping[..|mapping|] == mapping;
      ghost var lens := availCidrs[..numberOfCidrs];
      var sorted := Sorted(availCidrs[..numberOfCidrs]);
      forall k | 0 <= k < numberOfCidrs {
        availCidrs[k] := sorted[k];
      }
      assert availCidrs[..numberOfCidrs] == sorted;
      return true;
    }

    /** The search loop of pseudomize. */
    method Find(a: A) returns (r: Option<Entry<A>>)
      requires numberOfCidrs <= availCidrs.Length
      ensures r == Choice(net, availCidrs[..numberOfCidrs], netMapping, a)
    {
      ghost var lens := availCidrs[..numberOfCidrs];
      ghost var k := FirstHit(net, lens, netMapping, a);
      for i := 0 to numberOfCidrs
        invariant i <= k
      {
        assert availCidrs[i] == lens[i];
        var tmp := net(a, availCidrs[i]);
        if tmp in netMapping {
          return Some(netMapping[tmp]);
        }
      }
      return None;
    }
  }

  /** The length list with one more configured subnet. */
  lemma LengthsGrow<A>(entries: seq<Entry<A>>, lens: seq<nat>, e: Entry<A>)
    requires Covers(lens, entries) && 1 <= e.cidr <= 32 && Usable(entries)
    ensures e.cidr in lens ==> Covers(lens, entries + [e])
    ensures e.cidr !in lens ==> |lens| < 32 && Covers(lens + [e.cidr], entries + [e])
  {
    var all := entries + [e];
    forall c: nat
      ensures Configured(all, c) <==> c in lens || c == e.cidr
    {
      if c in lens {
        var j :| 0 <= j < |entries| && entries[j].cidr == c;
        assert all[j].cidr == c;
      }
      assert all[|entries|].cidr == e.cidr;
    }
    if e.cidr !in lens {
      assert forall i :: 0 <= i < |lens| ==> lens[i] in lens;
      Pigeonhole(lens + [e.cidr] + [0], 33);
    }
  }
}
