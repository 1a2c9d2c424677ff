/**
 * The Bloom filter of BloomFilter.cpp: one bit for each hash function of each key, eight
 * bits packed in an octet.
 */
module BitFilter {
  import opened MinFilter

  // ----- Octets

  /** bitmask[i]. */
  function Mask(i: nat): bv8
    requires i < 8
  {
    [0x01, 0x02, 0x04, 0x08, 0x10, 0x20, 0x40, 0x80][i]
  }

  predicate IsSet(octet: bv8, i: nat)
    requires i < 8
  {
    octet & Mask(i) != 0
  }

  function WithBit(octet: bv8, i: nat): bv8
    requires i < 8
  {
    octet | Mask(i)
  }

  lemma SetIsSet(octet: bv8, m: bv8)
    requires m != 0
    ensures (octet | m) & m != 0
  {
    assert (octet | m) & m == m;
  }

  lemma OtherBits(octet: bv8, m: bv8, l: bv8)
    requires m & l == 0
    ensures (octet | m) & l == octet & l
  {
  }

  lemma MaskIsSomething(i: nat)
    requires i < 8
    ensures Mask(i) != 0
  {
  }

  lemma MasksAreApart(i: nat, j: nat)
    requires i < 8 && j < 8 && i != j
    ensures Mask(i) & Mask(j) == 0
  {
  }

  lemma SameBit(octet: bv8, i: nat)
    requires i < 8
    ensures IsSet(WithBit(octet, i), i)
  {
    MaskIsSomething(i);
    SetIsSet(octet, Mask(i));
  }

  lemma OtherBit(octet: bv8, i: nat, j: nat)
    requires i < 8 && j < 8 && i != j
    ensures IsSet(WithBit(octet, i), j) <==> IsSet(octet, j)
  {
    MasksAreApart(i, j);
    OtherBits(octet, Mask(i), Mask(j));
  }

  lemma EmptyOctet(i: nat)
    requires i < 8
    ensures !IsSet(0, i)
  {
  }

  // ----- The filter

  /** Some key of the history is hashed to the bit by one of the first n hash functions. */
  ghost predicate Marked<K>(p: Params<K>, keys: seq<K>, r: nat, c: nat) {
    exists j, i :: 0 <= j < |keys| && 0 <= i < p.hashes && p.HashesTo(keys[j], i, r, c)
  }

  ghost predicate MarkedBy<K>(p: Params<K>, k: K, n: nat, r: nat, c: nat) {
    exists i :: 0 <= i < n && p.HashesTo(k, i, r, c)
  }

  lemma MarkedMore<K>(p: Params<K>, keys: seq<K>, k: K, r: nat, c: nat)
    ensures Marked(p, keys + [k], r, c) <==> Marked(p, keys, r, c) || MarkedBy(p, k, p.hashes, r, c)
  {
    var keys' := keys + [k];
    if Marked(p, keys', r, c) {
      var j, i :| 0 <= j < |keys'| && 0 <= i < p.hashes && p.HashesTo(keys'[j], i, r, c);
      if j < |keys| {
        assert p.HashesTo(keys[j], i, r, c);
      }
    }
    if Marked(p, keys, r, c) {
      var j, i :| 0 <= j < |keys| && 0 <= i < p.hashes && p.HashesTo(keys[j], i, r, c);
      assert p.HashesTo(keys'[j], i, r, c);
    }
    if MarkedBy(p, k, p.hashes, r, c) {
      var i :| 0 <= i < p.hashes && p.HashesTo(k, i, r, c);
      assert p.HashesTo(keys'[|keys|], i, r, c);
    }
  }

  lemma MarkedByNext<K>(p: Params<K>, k: K, n: nat, r: nat, c: nat)
    ensures MarkedBy(p, k, n + 1, r, c) <==> MarkedBy(p, k, n, r, c) || p.HashesTo(k, n, r, c)
  {
  }

  /** The bit that hash function i finds for the key is set. */
  ghost predicate MarkedAt<K>(p: Params<K>, keys: seq<K>, k: K, i: nat) {
    p.hash(k, i) < p.size && Marked(p, keys, p.Row(i), p.hash(k, i))
  }

  /** The answer of get. */
  ghost predicate AllMarked<K>(p: Params<K>, keys: seq<K>, k: K, n: nat) {
    forall i: nat :: i < n ==> MarkedAt(p, keys, k, i)
  }

  class Filter<K(!new)> {
    const p: Params<K>
    const octets: array2<bv8>
    ghost var bits: set<(nat, nat)>
    ghost var keys: seq<K>

    predicate BitAt(r: nat, c: nat)
      requires r < octets.Length0 && c / 8 < octets.Length1
      reads octets
    {
      IsSet(octets[r, c / 8], c % 8)
    }

    /** The octets are the packed form of the bits. */
    ghost predicate Packed()
      reads this, octets
    {
      && octets.Length0 == p.Rows() && octets.Length1 == (p.size + 7) / 8
      && (forall b :: b in bits ==> b.0 < p.Rows() && b.1 < p.size)
      && (forall r: nat, c: nat {:trigger BitAt(r, c)} :: r < p.Rows() && c < p.size ==> (BitAt(r, c) <==> (r, c) in bits))
    }

    ghost predicate Valid()
      reads this, octets
    {
      && Packed()
      && forall r: nat, c: nat :: r < p.Rows() && c < p.size ==> ((r, c) in bits <==> Marked(p, keys, r, c))
    }

    constructor (p: Params<K>)
      ensures Valid() && fresh(octets) && this.p == p && keys == []
    {
      this.p := p;
      octets := new bv8[p.Rows(), (p.size + 7) / 8]((_, _) => 0);
      keys, bits := [], {};
      new;
      forall r: nat, c: nat | r < p.Rows() && c < p.size
        ensures !BitAt(r, c)
      {
        EmptyOctet(c % 8);
      }
    }

    /** Bitmap::set. */
    method SetBit(row: nat, index: nat)
      requires Packed() && row < p.Rows()
      modifies octets, this`bits
      ensures Packed() && bits == old(bits) + if index < p.size then {(row, index)} else {}
    {
      if index < p.size {
        bits := bits + {(row, index)};
        forall c: nat | c < p.size && c / 8 == index / 8
          ensures IsSet(WithBit(octets[row, index / 8], index % 8), c % 8) <==> BitAt(row, c) || index == c
        {
          if index == c {
            SameBit(octets[row, index / 8], c % 8);
          } else {
            OtherBit(octets[row, index / 8], index % 8, c % 8);
          }
        }
        octets[row, index / 8] := WithBit(octets[row, index / 8], index % 8);
        forall r: nat, c: nat | r < p.Rows() && c < p.size
          ensures BitAt(r, c) <==> (r, c) in bits
        {
          assert old(BitAt(r, c)) <==> (r, c) in old(bits);
        }
      }
    }

    /** Bitmap::get. */
    method GetBit(row: nat, index: nat) returns (b: bool)
      requires Packed() && row < p.Rows()
      ensures b <==> index < p.size && (row, index) in bits
    {
      b := index < p.size && BitAt(row, index);
    }

    method Set(k: K)
      requires Valid()
      modifies this, octets
      ensures Valid() && keys == old(keys) + [k]
    {
      ghost var before := keys;
      for i := 0 to p.hashes
        invariant keys == before && Packed()
        invariant forall r: nat, c: nat :: r < p.Rows() && c < p.size ==>
                    ((r, c) in bits <==> Marked(p, before, r, c) || MarkedBy(p, k, i, r, c))
      {
        SetBit(p.Row(i), p.hash(k, i));
        forall r: nat, c: nat {
          MarkedByNext(p, k, i, r, c);
        }
      }
      keys := keys + [k];
      forall r: nat, c: nat {
        MarkedMore(p, before, k, r, c);
      }
    }

    /** True exactly when every bit of the key has been set by some key. */
    method Get(k: K) returns (found: bool)
      requires Valid()
      ensures found <==> AllMarked(p, keys, k, p.hashes)
    {
      for i := 0 to p.hashes
        invariant AllMarked(p, keys, k, i)
      {
        found := GetBit(p.Row(i), p.hash(k, i));
        assert found <==> MarkedAt(p, keys, k, i);
        if !found {
          return;
        }
      }
      return true;
    }
  }

  /** A key that has been set is always found. */
  lemma NoFalseNegatives<K(!new)>(p: Params<K>, keys: seq<K>, j: nat)
    requires InRange(p) && j < |keys|
    ensures AllMarked(p, keys, keys[j], p.hashes)
  {
    forall i | 0 <= i < p.hashes
      ensures Marked(p, keys, p.Row(i), p.hash(keys[j], i))
    {
      assert p.HashesTo(keys[j], i, p.Row(i), p.hash(keys[j], i));
    }
  }
}
