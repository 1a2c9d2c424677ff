/**
 * Crypto-PAn (panonymizer.cpp): prefix-preserving anonymisation of 32-bit addresses.
 * The block cipher is a parameter; everything here holds for every cipher and every pad.
 */
module CryptoPan {
  import opened Bits

  type Byte = bv8
  type Block = b: seq<Byte> | |b| == 16 witness [0, 0, 0, 0, 0, 0, 0, 0, 0, 0, 0, 0, 0, 0, 0, 0]
  type Cipher = Block -> Block

  /** The first four bytes of the pad as one number. */
  function PadWord(pad: Block): bv32 {
    ((pad[0] as bv32) << 24) + ((pad[1] as bv32) << 16) + ((pad[2] as bv32) << 8) + (pad[3] as bv32)
  }

  /** The head of the cipher input at a position: pos bits of the address, then bits of the pad. */
  function InputWord(padWord: bv32, a: Address, pos: bv32): bv32
    requires pos < 32
  {
    if pos == 0 then padWord
    else Or(Shl(Shr(a, 32 - pos), 32 - pos), Shr(Shl(padWord, pos), pos))
  }

  /** Byte k of that word, as the source cuts it out. */
  function HeadByte(w: bv32, k: nat): Byte
    requires k < 4
  {
    if k == 0 then (w >> 24) as Byte
    else if k == 1 then ((w << 8) >> 24) as Byte
    else if k == 2 then ((w << 16) >> 24) as Byte
    else ((w << 24) >> 24) as Byte
  }

  function InputBlock(pad: Block, w: bv32): Block {
    [HeadByte(w, 0), HeadByte(w, 1), HeadByte(w, 2), HeadByte(w, 3)] + pad[4..]
  }

  /** The first bit of a cipher output. */
  function FirstBit(output: Block): (b: bv32)
    ensures b == 0 || b == 1
  {
    (output[0] >> 7) as bv32
  }

  /** The pseudorandom bit for a position. */
  function Flip(e: Cipher, pad: Block, a: Address, pos: bv32): (b: bv32)
    requires pos < 32
    ensures b == 0 || b == 1
  {
    FirstBit(e(InputBlock(pad, InputWord(PadWord(pad), a, pos))))
  }

  /** The one-time pad after n positions. */
  function Mask(e: Cipher, pad: Block, a: Address, n: bv32): bv32
    requires n <= 32
  {
    if n == 0 then 0 else Or(Mask(e, pad, a, n - 1), Shl(Flip(e, pad, a, n - 1), 32 - n))
  }

  function Anonymized(e: Cipher, pad: Block, a: Address): Address {
    Xor(Mask(e, pad, a, 32), a)
  }

  /** One encryption: the head of the input is rewritten in place, the rest is the pad's. */
  method GenerateBit(e: Cipher, pad: Block, input: array<Byte>, w: bv32) returns (bit: bv32)
    requires input.Length == 16 && input[4..] == pad[4..]
    modifies input
    ensures input[4..] == pad[4..]
    ensures bit == FirstBit(e(InputBlock(pad, w)))
  {
    input[0] := HeadByte(w, 0);
    input[1] := HeadByte(w, 1);
    input[2] := HeadByte(w, 2);
    input[3] := HeadByte(w, 3);
    assert input[..] == InputBlock(pad, w);
    bit := FirstBit(e(input[..]));
  }

  /** PAnonymizer::anonymize. */
  method Anonymize(e: Cipher, pad: Block, origAddr: Address) returns (r: Address)
    ensures r == Anonymized(e, pad, origAddr)
  {
    var result: bv32 := 0;
    var input := new Byte[16];
    forall i | 0 <= i < 16 {
      input[i] := pad[i];
    }
    var padWord := PadWord(pad);
    var pos: bv32 := 0;
    while pos <= 31
      invariant pos <= 32 && result == Mask(e, pad, origAddr, pos)
      invariant input[4..] == pad[4..]
      decreases 32 - pos
    {
      var bit := GenerateBit(e, pad, input, InputWord(padWord, origAddr, pos));
      result := Or(result, Shl(bit, 31 - pos));
      pos := pos + 1;
    }
    r := Xor(result, origAddr);
  }

  /** The pseudorandom bit depends on the address's first pos bits only. */
  lemma FlipOfPrefix(e: Cipher, pad: Block, a: Address, b: Address, pos: bv32)
    requires pos < 32 && Drop(a, 32 - pos) == Drop(b, 32 - pos)
    ensures Flip(e, pad, a, pos) == Flip(e, pad, b, pos)
  {
    DropIsShift(a, 32 - pos);
    DropIsShift(b, 32 - pos);
  }

  /** Each bit of the one-time pad is the one generated for its position. */
  lemma {:induction false} MaskBit(e: Cipher, pad: Block, a: Address, n: bv32, k: bv32)
    requires n <= 32 && k < 32
    ensures Bit(Mask(e, pad, a, n), k) == if k < 32 - n then 0 else Flip(e, pad, a, 31 - k)
  {
    if n == 0 {
      BitPlaced(0, 0, k);
    } else {
      var b := Flip(e, pad, a, n - 1);
      MaskBit(e, pad, a, n - 1, k);
      BitOr(Mask(e, pad, a, n - 1), Shl(b, 32 - n), k);
      BitPlaced(b, 32 - n, k);
    }
  }

  lemma AnonymizedBit(e: Cipher, pad: Block, a: Address, k: bv32)
    requires k < 32
    ensures Bit(Anonymized(e, pad, a), k) == Xor(Flip(e, pad, a, 31 - k), Bit(a, k))
  {
    MaskBit(e, pad, a, 32, k);
    BitXor(Mask(e, pad, a, 32), a, k);
  }

  lemma XorCancels(x: bv32, y: bv32, z: bv32)
    ensures Xor(z, x) == Xor(z, y) <==> x == y
  {
  }

  /** Where the longer prefixes are equal, the next bits agree exactly when those of the images do. */
  lemma BitPreserved(e: Cipher, pad: Block, a: Address, b: Address, n: bv32)
    requires n < 32 && Drop(a, n + 1) == Drop(b, n + 1)
    ensures Bit(a, n) == Bit(b, n) <==> Bit(Anonymized(e, pad, a), n) == Bit(Anonymized(e, pad, b), n)
  {
    FlipOfPrefix(e, pad, a, b, 31 - n);
    AnonymizedBit(e, pad, a, n);
    AnonymizedBit(e, pad, b, n);
    XorCancels(Bit(a, n), Bit(b, n), Flip(e, pad, a, 31 - n));
  }

  /** Two addresses share their first 32 - n bits exactly when their images do. */
  lemma {:induction false} DropPreserved(e: Cipher, pad: Block, a: Address, b: Address, n: bv32)
    requires n <= 32
    ensures Drop(a, n) == Drop(b, n) <==> Drop(Anonymized(e, pad, a), n) == Drop(Anonymized(e, pad, b), n)
    decreases 32 - n
  {
    if n == 32 {
      DropAll(a); DropAll(b); DropAll(Anonymized(e, pad, a)); DropAll(Anonymized(e, pad, b));
    } else {
      DropPreserved(e, pad, a, b, n + 1);
      DropSplits(a, b, n);
      DropSplits(Anonymized(e, pad, a), Anonymized(e, pad, b), n);
      if Drop(a, n + 1) == Drop(b, n + 1) {
        BitPreserved(e, pad, a, b, n);
      }
    }
  }

  /** The promise of Crypto-PAn, in terms of prefix lengths. */
  lemma PrefixPreserving(e: Cipher, pad: Block, a: Address, b: Address, k: bv32)
    requires k <= 32
    ensures Shr(a, 32 - k) == Shr(b, 32 - k) <==>
            Shr(Anonymized(e, pad, a), 32 - k) == Shr(Anonymized(e, pad, b), 32 - k)
  {
    var n := 32 - k;
    DropPreserved(e, pad, a, b, n);
    DropIsShift(a, n);
    DropIsShift(b, n);
    DropIsShift(Anonymized(e, pad, a), n);
    DropIsShift(Anonymized(e, pad, b), n);
  }

  lemma Injective(e: Cipher, pad: Block, a: Address, b: Address)
    requires Anonymized(e, pad, a) == Anonymized(e, pad, b)
    ensures a == b
  {
    DropPreserved(e, pad, a, b, 0);
  }

  /** An address whose image agrees with y except possibly in the last n bits. */
  function Original(e: Cipher, pad: Block, y: Address, n: bv32): Address
    requires n <= 32
    decreases 32 - n
  {
    if n == 32 then 0 else
      var c := Original(e, pad, y, n + 1);
      if Bit(Anonymized(e, pad, c), n) == Bit(y, n) then c else Xor(c, Shl(1, n))
  }

  lemma XorZero(x: bv32)
    ensures Xor(x, 0) == x
  {
  }

  lemma XorOne(x: bv32)
    ensures Xor(x, 1) != x
  {
  }

  /** Flipping bit n changes the prefix that ends there and no shorter one. */
  lemma Flipped(c: Address, n: bv32)
    requires n < 32
    ensures Drop(Xor(c, Shl(1, n)), n + 1) == Drop(c, n + 1)
    ensures Drop(Xor(c, Shl(1, n)), n) != Drop(c, n)
  {
    DropXor(c, Shl(1, n), n + 1);
    DropPlaced(1, n, n + 1);
    XorZero(Drop(c, n + 1));
    BitXor(c, Shl(1, n), n);
    BitPlaced(1, n, n);
    XorOne(Bit(c, n));
    DropSplits(Xor(c, Shl(1, n)), c, n);
  }

  /** A bit that differs from one of two different bits is the other one. */
  lemma ThreeBits(x: bv32, x': bv32, y: bv32)
    requires (x == 0 || x == 1) && (x' == 0 || x' == 1) && (y == 0 || y == 1) && x != x'
    ensures x' == y <==> x != y
  {
  }

  /** Of two addresses that differ in bit n first, one agrees with y there. */
  lemma OneAgrees(x: Address, x': Address, y: Address, n: bv32)
    requires n < 32 && Drop(x, n + 1) == Drop(x', n + 1) && Drop(x, n) != Drop(x', n)
    ensures Bit(x', n) == Bit(y, n) <==> Bit(x, n) != Bit(y, n)
  {
    DropSplits(x, x', n);
    ThreeBits(Bit(x, n), Bit(x', n), Bit(y, n));
  }

  /** Flipping a bit of an address flips this bit of its image. */
  lemma FlippedImage(e: Cipher, pad: Block, c: Address, y: Address, n: bv32)
    requires n < 32
    ensures
      var x, x' := Anonymized(e, pad, c), Anonymized(e, pad, Xor(c, Shl(1, n)));
      Drop(x, n + 1) == Drop(x', n + 1) && (Bit(x', n) == Bit(y, n) <==> Bit(x, n) != Bit(y, n))
  {
    var c' := Xor(c, Shl(1, n));
    Flipped(c, n);
    DropPreserved(e, pad, c, c', n + 1);
    DropPreserved(e, pad, c, c', n);
    OneAgrees(Anonymized(e, pad, c), Anonymized(e, pad, c'), y, n);
  }

  lemma {:induction false} OriginalWorks(e: Cipher, pad: Block, y: Address, n: bv32)
    requires n <= 32
    ensures Drop(Anonymized(e, pad, Original(e, pad, y, n)), n) == Drop(y, n)
    decreases 32 - n
  {
    if n == 32 {
      DropAll(y);
      DropAll(Anonymized(e, pad, Original(e, pad, y, n)));
    } else {
      OriginalWorks(e, pad, y, n + 1);
      FlippedImage(e, pad, Original(e, pad, y, n + 1), y, n);
      DropSplits(Anonymized(e, pad, Original(e, pad, y, n)), y, n);
    }
  }

  /** Every address is the image of some address; with Injective, of exactly one. */
  lemma Surjective(e: Cipher, pad: Block, y: Address)
    ensures exists a: Address :: Anonymized(e, pad, a) == y
  {
    OriginalWorks(e, pad, y, 0);
    assert Anonymized(e, pad, Original(e, pad, y, 0)) == y;
  }
}
