/**
 * AnonCryptoPanPrefix on 32-bit addresses: the search of module SubnetSearch with the
 * masking of the source, and pseudomize.
 */
module SubnetTable {
  import opened Options
  import opened Bits
  import opened CryptoPan
  import opened Subnets
  import opened SubnetSearch

  /** A prefix length as a shift amount. */
  function Amount(c: nat): (n: Cidr)
    requires 1 <= c <= 31
  {
    (c as bv5) as bv32
  }

  lemma AmountOrder(c: nat, d: nat)
    requires 1 <= c <= d <= 31
    ensures Amount(c) <= Amount(d)
  {
  }

  /** The masking of the source, as a function of every length. */
  function CutTo(a: Address, c: nat): Address {
    if c == 0 then 0 else if c <= 31 then Net(a, Amount(c)) else a
  }

  lemma NetOfZero(c: Cidr)
    ensures Net(0, c) == 0
  {
  }

  lemma CutTwice(a: Address, short: nat, long: nat)
    requires short <= long
    ensures CutTo(CutTo(a, long), short) == CutTo(a, short)
    ensures CutTo(CutTo(a, short), long) == CutTo(a, short)
  {
    if 1 <= short && long <= 31 {
      AmountOrder(short, long);
      NetNet(a, Amount(short), Amount(long));
    } else if short == 0 && 1 <= long <= 31 {
      NetOfZero(Amount(long));
    }
  }

  lemma CutIsLawful()
    ensures Lawful(CutTo)
  {
    forall a: Address, short: nat, long: nat | short <= long
      ensures CutTo(CutTo(a, long), short) == CutTo(a, short) && CutTo(CutTo(a, short), long) == CutTo(a, short)
    {
      CutTwice(a, short, long);
    }
  }

  /** The last lines of pseudomize: the host part moved into the target subnet.  A shift by 32 gives any word. */
  method MoveToTarget(e: Cipher, pad: Block, found: Entry<Address>, origAddr: Address) returns (r: Address)
    requires 1 <= found.cidr <= 32
    ensures found.cidr <= 31 ==> r == Pseudonym(e, pad, found.toNet, Amount(found.cidr), origAddr)
  {
    if found.cidr == 32 {
      r := *;
    } else {
      var cidr := Amount(found.cidr);
      var addr := Anonymize(e, pad, origAddr);
      r := Xor(NetPart(found.toNet, cidr), HostPart(addr, cidr));
    }
  }

  /** The subnet i of the configuration gives the address a the pseudonym r. */
  ghost predicate Given(e: Cipher, pad: Block, entries: seq<Entry<Address>>, i: nat, a: Address, r: Address)
    requires i < |entries|
  {
    1 <= entries[i].cidr <= 31 ==>
      r == Pseudonym(e, pad, Stored(CutTo, entries[i]).toNet, Amount(entries[i].cidr), a)
  }

  /**
   * What pseudomize is for: the longest subnet of the address gives the pseudonym, and an
   * address in no subnet is left as it is.
   */
  ghost predicate IsPseudonym(e: Cipher, pad: Block, entries: seq<Entry<Address>>, a: Address, r: Address) {
    && (forall i: nat :: IsLongest(CutTo, entries, a, i) ==> Given(e, pad, entries, i, a, r))
    && ((forall j :: 0 <= j < |entries| ==> !Contains(CutTo, entries[j], a)) ==> r == a)
  }

  lemma LongestIsUnique(entries: seq<Entry<Address>>, a: Address, i: nat, j: nat)
    requires IsLongest(CutTo, entries, a, i) && IsLongest(CutTo, entries, a, j)
    ensures i == j
  {
  }

  /** Whatever the search comes back with, the address gets its pseudonym where the search is right. */
  lemma RightSearch(e: Cipher, pad: Block, lens: seq<nat>, entries: seq<Entry<Address>>, a: Address, r: Address)
    requires Scans(lens, entries) && BaseIsClear(CutTo, entries, a)
    requires
      match Choice(CutTo, lens, Table(CutTo, entries), a)
      case None => r == a
      case Some(found) =>
        1 <= found.cidr <= 31 ==> r == Pseudonym(e, pad, found.toNet, Amount(found.cidr), a)
    ensures IsPseudonym(e, pad, entries, a, r)
  {
    CutIsLawful();
    SelectionIsLongest(CutTo, lens, entries, a);
    var choice := Choice(CutTo, lens, Table(CutTo, entries), a);
    if choice.Some? {
      var i: nat :| IsLongest(CutTo, entries, a, i) && choice.value == Stored(CutTo, entries[i]);
      forall j: nat | IsLongest(CutTo, entries, a, j)
        ensures Given(e, pad, entries, j, a, r)
      {
        LongestIsUnique(entries, a, i, j);
      }
    }
  }

  /**
   * pseudomize.  Where the configuration is clear for the address, the result is the
   * pseudonym that its longest subnet gives it, or the address itself.
   */
  method Pseudomize(e: Cipher, pad: Block, mapping: Mapping<Address>, origAddr: Address,
                    ghost entries: seq<Entry<Address>>) returns (r: Address)
    requires mapping.net == CutTo && mapping.Built(entries) && Usable(entries)
    ensures
      match Choice(CutTo, mapping.availCidrs[..mapping.numberOfCidrs], Table(CutTo, entries), origAddr)
      case None => r == origAddr
      case Some(found) =>
        1 <= found.cidr <= 31 ==> r == Pseudonym(e, pad, found.toNet, Amount(found.cidr), origAddr)
    ensures BaseIsClear(CutTo, entries, origAddr) ==> IsPseudonym(e, pad, entries, origAddr, r)
  {
    ghost var lens := mapping.availCidrs[..mapping.numberOfCidrs];
    var hit := mapping.Find(origAddr);
    if hit.Some? {
      ChoiceIsUsable(CutTo, lens, entries, origAddr);
      r := MoveToTarget(e, pad, hit.value, origAddr);
    } else {
      r := origAddr;
    }
    if BaseIsClear(CutTo, entries, origAddr) {
      RightSearch(e, pad, lens, entries, origAddr, r);
    }
  }

  /** A configuration with distinct bases, from the constructor to the pseudonym of any address. */
  method PseudomizeWith(e: Cipher, pad: Block, entries: seq<Entry<Address>>, origAddr: Address) returns (r: Address)
    requires Usable(entries) && BasesDistinct(CutTo, entries)
    ensures IsPseudonym(e, pad, entries, origAddr, r)
  {
    var mapping := new Mapping(CutTo);
    var ok := mapping.Build(entries);
    CutIsLawful();
    DistinctBasesAreClear(CutTo, entries, origAddr);
    r := Pseudomize(e, pad, mapping, origAddr, entries);
  }

  /** Two pseudonyms in one target share exactly the prefixes that the addresses share. */
  ghost predicate Alike(a: Address, b: Address, a': Address, b': Address, toNet: Address, c: Cidr, n: bv32)
    requires n <= 32
  {
    && Drop(a', 32 - c) == Drop(b', 32 - c) == Drop(toNet, 32 - c)
    && (Drop(a, n) == Drop(b, n) <==> Drop(a', n) == Drop(b', n))
  }

  lemma SubnetPair(e: Cipher, pad: Block, toNet: Address, c: Cidr, a: Address, b: Address, n: bv32)
    requires Net(a, c) == Net(b, c) && n <= 32
    ensures Alike(a, b, Pseudonym(e, pad, toNet, c, a), Pseudonym(e, pad, toNet, c, b), toNet, c, n)
  {
    InTarget(e, pad, toNet, c, a);
    InTarget(e, pad, toNet, c, b);
    PrefixKept(e, pad, toNet, c, a, b, n);
  }

  /** Two addresses with the same longest subnet land in its target, and keep every common prefix and no other. */
  lemma SubnetKept(e: Cipher, pad: Block, entries: seq<Entry<Address>>, i: nat,
                   a: Address, b: Address, a': Address, b': Address, n: bv32)
    requires IsLongest(CutTo, entries, a, i) && IsLongest(CutTo, entries, b, i)
    requires IsPseudonym(e, pad, entries, a, a') && IsPseudonym(e, pad, entries, b, b')
    requires 1 <= entries[i].cidr <= 31 && n <= 32
    ensures Alike(a, b, a', b', Stored(CutTo, entries[i]).toNet, Amount(entries[i].cidr), n)
  {
    var c, toNet := Amount(entries[i].cidr), Stored(CutTo, entries[i]).toNet;
    assert Given(e, pad, entries, i, a, a') && Given(e, pad, entries, i, b, b');
    assert Contains(CutTo, entries[i], a) && Contains(CutTo, entries[i], b);
    SubnetPair(e, pad, toNet, c, a, b, n);
  }

  /** 10.0.0.0/16 and 172.0.0.0/8: the first is found, at length 8, for 10.5.0.0 outside both. */
  lemma WrongSubnetFound()
    ensures
      var entries := [Entry(0x0A000000, 0xC0A80000, 16), Entry(0xAC000000, 0x01000000, 8)];
      && Scans([16, 8], entries)
      && Choice(CutTo, [16, 8], Table(CutTo, entries), 0x0A050000) == Some(Stored(CutTo, entries[0]))
      && !Contains(CutTo, entries[0], 0x0A050000) && !Contains(CutTo, entries[1], 0x0A050000)
      && !SelectsLongest(CutTo, [16, 8], entries, 0x0A050000)
  {
    var first, second := Entry(0x0A000000, 0xC0A80000, 16), Entry(0xAC000000, 0x01000000, 8);
    var entries := [first, second];
    assert entries[0].cidr == 16 && entries[1].cidr == 8;
    assert Amount(16) == 16 && Amount(8) == 8;
    assert Base(CutTo, first) == 0x0A000000 && Base(CutTo, second) == 0xAC000000;
    assert CutTo(0x0A050000, 16) == 0x0A050000 && CutTo(0x0A050000, 8) == 0x0A000000;
    assert entries[..1] == [first] && [first][..0] == [];
    assert Table(CutTo, [first]) == map[0x0A000000 := Stored(CutTo, first)];
    assert Table(CutTo, entries) == map[0x0A000000 := Stored(CutTo, first), 0xAC000000 := Stored(CutTo, second)];
    assert [16, 8][1..] == [8];
    assert FirstHit(CutTo, [16, 8], Table(CutTo, entries), 0x0A050000) == 1;
    assert !Contains(CutTo, first, 0x0A050000) && !Contains(CutTo, second, 0x0A050000);
  }
}
