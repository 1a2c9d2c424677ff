/**
 * Subnet-wise pseudonyms (AnonCryptoPanPrefix.cpp): a table of subnets, each mapped to a
 * target subnet, with the host part anonymised by Crypto-PAn.  Addresses are in host
 * byte order.  Prefix lengths are 1 to 31: at 0 and 32 the source shifts by the word size.
 */
module Subnets {
  import opened Bits
  import opened CryptoPan

  type Cidr = c: bv32 | 1 <= c <= 31 witness 1

  // ----- Network parts of addresses

  function NetMask(cidr: Cidr): bv32
  {
    !((1 << (32 - cidr)) - 1)
  }

  function And(x: bv32, y: bv32): bv32 { x & y }

  /** An address with everything behind its first cidr bits cleared. */
  function Net(a: Address, cidr: Cidr): Address
  {
    And(a, NetMask(cidr))
  }

  lemma NestedMasks(short: Cidr, long: Cidr)
    requires short <= long
    ensures And(NetMask(long), NetMask(short)) == NetMask(short)
    ensures And(NetMask(short), NetMask(long)) == NetMask(short)
  {
  }

  lemma AndAssociates(x: bv32, y: bv32, z: bv32)
    ensures And(And(x, y), z) == And(x, And(y, z))
  {
  }

  /** Cutting twice is cutting at the shorter length. */
  lemma NetNet(a: Address, short: Cidr, long: Cidr)
    requires short <= long
    ensures Net(Net(a, long), short) == Net(a, short)
    ensures Net(Net(a, short), long) == Net(a, short)
  {
    NestedMasks(short, long);
    AndAssociates(a, NetMask(long), NetMask(short));
    AndAssociates(a, NetMask(short), NetMask(long));
  }

  lemma MaskedShift(x: bv32, cidr: Cidr)
    ensures Shr(And(x, NetMask(cidr)), 32 - cidr) == Shr(x, 32 - cidr)
  {
  }

  /** Addresses of one subnet agree on its prefix. */
  lemma SameNet(a: Address, b: Address, cidr: Cidr)
    requires Net(a, cidr) == Net(b, cidr)
    ensures Drop(a, 32 - cidr) == Drop(b, 32 - cidr)
  {
    MaskedShift(a, cidr);
    MaskedShift(b, cidr);
    DropIsShift(a, 32 - cidr);
    DropIsShift(b, 32 - cidr);
  }

  // ----- Pseudonyms inside one subnet

  function HostPart(x: bv32, cidr: Cidr): bv32
  {
    Shr(Shl(x, cidr), cidr)
  }

  function NetPart(x: bv32, cidr: Cidr): bv32
  {
    Shl(Shr(x, 32 - cidr), 32 - cidr)
  }

  /** The address that pseudomize builds for an address of a mapped subnet. */
  function Pseudonym(e: Cipher, pad: Block, toNet: Address, cidr: Cidr, a: Address): Address
  {
    Xor(NetPart(toNet, cidr), HostPart(Anonymized(e, pad, a), cidr))
  }

  lemma HostPartIsLow(x: bv32, cidr: Cidr)
    ensures Shr(HostPart(x, cidr), 32 - cidr) == 0
  {
  }

  lemma NetPartIsHigh(x: bv32, cidr: Cidr)
    ensures Shr(NetPart(x, cidr), 32 - cidr) == Shr(x, 32 - cidr)
  {
  }

  lemma PartsMakeWhole(x: bv32, cidr: Cidr)
    ensures x == Xor(NetPart(x, cidr), HostPart(x, cidr))
  {
  }

  /** Every pseudonym lies in the target subnet. */
  lemma InTarget(e: Cipher, pad: Block, toNet: Address, cidr: Cidr, a: Address)
    ensures Drop(Pseudonym(e, pad, toNet, cidr, a), 32 - cidr) == Drop(toNet, 32 - cidr)
  {
    var n := 32 - cidr;
    var x := Anonymized(e, pad, a);
    DropXor(NetPart(toNet, cidr), HostPart(x, cidr), n);
    DropIsShift(NetPart(toNet, cidr), n);
    DropIsShift(HostPart(x, cidr), n);
    DropIsShift(toNet, n);
    HostPartIsLow(x, cidr);
    NetPartIsHigh(toNet, cidr);
    XorZero(Drop(toNet, n));
  }

  /** Two words with a common part share a prefix exactly when they do with any other common part. */
  lemma SwapCommonPart(one: bv32, other: bv32, x: bv32, y: bv32, n: bv32)
    requires n <= 32
    ensures Drop(Xor(one, x), n) == Drop(Xor(one, y), n) <==> Drop(Xor(other, x), n) == Drop(Xor(other, y), n)
  {
    CommonPart(one, x, y, n);
    CommonPart(other, x, y, n);
  }

  lemma CommonPart(c: bv32, x: bv32, y: bv32, n: bv32)
    requires n <= 32
    ensures Drop(Xor(c, x), n) == Drop(Xor(c, y), n) <==> Drop(x, n) == Drop(y, n)
  {
    DropXor(c, x, n);
    DropXor(c, y, n);
    XorCancels(Drop(x, n), Drop(y, n), Drop(c, n));
  }

  /** Replacing a common network part keeps every common prefix. */
  lemma SwapNetPart(net: bv32, x: bv32, y: bv32, cidr: Cidr, n: bv32)
    requires n <= 32 && Shr(x, 32 - cidr) == Shr(y, 32 - cidr)
    ensures Drop(Xor(net, HostPart(x, cidr)), n) == Drop(Xor(net, HostPart(y, cidr)), n)
            <==> Drop(x, n) == Drop(y, n)
  {
    PartsMakeWhole(x, cidr);
    PartsMakeWhole(y, cidr);
    SwapCommonPart(net, NetPart(x, cidr), HostPart(x, cidr), HostPart(y, cidr), n);
  }

  /**
   * Inside a subnet, two addresses share a prefix exactly when their pseudonyms do;
   * for n == 0 this says that pseudonyms are distinct.
   */
  lemma PrefixKept(e: Cipher, pad: Block, toNet: Address, cidr: Cidr, a: Address, b: Address, n: bv32)
    requires n <= 32 && Net(a, cidr) == Net(b, cidr)
    ensures Drop(a, n) == Drop(b, n)
            <==> Drop(Pseudonym(e, pad, toNet, cidr, a), n) == Drop(Pseudonym(e, pad, toNet, cidr, b), n)
  {
    var x, y := Anonymized(e, pad, a), Anonymized(e, pad, b);
    SameNet(a, b, cidr);
    DropPreserved(e, pad, a, b, 32 - cidr);
    DropIsShift(x, 32 - cidr);
    DropIsShift(y, 32 - cidr);
    SwapNetPart(NetPart(toNet, cidr), x, y, cidr, n);
    DropPreserved(e, pad, a, b, n);
  }
}
