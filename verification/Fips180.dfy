/**
 * SHA-1 as the standard writes it (FIPS 180-4): the functions and constants of
 * section 4, the padding of section 5.1.1 and the hash of section 6.1.2 with its
 * 80-word message schedule and its five-register round loop.
 */
module Fips180 {

  type Word = bv32
  type Byte = bv8

  datatype Regs = Regs(a: Word, b: Word, c: Word, d: Word, e: Word)

  const INITIAL := Regs(0x67452301, 0xEFCDAB89, 0x98BADCFE, 0x10325476, 0xC3D2E1F0)

  /** ROTL of section 3.2. */
  function Rotl(x: Word, n: Word): Word
    requires n <= 32
  {
    (x << n) | (x >> (32 - n))
  }

  function Ch(x: Word, y: Word, z: Word): Word { (x & y) ^ (!x & z) }

  function Parity(x: Word, y: Word, z: Word): Word { x ^ y ^ z }

  function Maj(x: Word, y: Word, z: Word): Word { (x & y) ^ (x & z) ^ (y & z) }

  /** The round function of section 4.1.1. */
  function F(t: nat, x: Word, y: Word, z: Word): Word {
    if t < 20 then Ch(x, y, z) else if t < 40 then Parity(x, y, z)
    else if t < 60 then Maj(x, y, z) else Parity(x, y, z)
  }

  /** The round constant of section 4.2.1. */
  function K(t: nat): Word {
    if t < 20 then 0x5A827999 else if t < 40 then 0x6ED9EBA1
    else if t < 60 then 0x8F1BBCDC else 0xCA62C1D6
  }

  function Xor4(p: Word, q: Word, r: Word, s: Word): Word { p ^ q ^ r ^ s }

  /** The sum of section 6.1.2, step 3, in the order in which it is written there. */
  function Sum5(rotated: Word, f: Word, e: Word, k: Word, w: Word): Word { rotated + f + e + k + w }

  /** The message schedule of section 6.1.2, step 1. */
  function W(m: seq<Word>, t: nat): Word
    requires |m| == 16
  {
    if t < 16 then m[t] else Rotl(Xor4(W(m, t - 3), W(m, t - 8), W(m, t - 14), W(m, t - 16)), 1)
  }

  /** One pass of the loop of section 6.1.2, step 3. */
  function Round(r: Regs, f: Word, k: Word, w: Word): Regs {
    Regs(Sum5(Rotl(r.a, 5), f, r.e, k, w), r.a, Rotl(r.b, 30), r.c, r.d)
  }

  /** The working variables before pass t of that loop. */
  function Rounds(h: Regs, m: seq<Word>, t: nat): Regs
    requires |m| == 16
  {
    if t == 0 then h else
      var r := Rounds(h, m, t - 1);
      Round(r, F(t - 1, r.b, r.c, r.d), K(t - 1), W(m, t - 1))
  }

  function AddRegs(h: Regs, r: Regs): Regs {
    Regs(h.a + r.a, h.b + r.b, h.c + r.c, h.d + r.d, h.e + r.e)
  }

  /** Section 6.1.2 for one message block. */
  function HashBlock(h: Regs, m: seq<Word>): Regs
    requires |m| == 16
  {
    AddRegs(h, Rounds(h, m, 80))
  }

  function Widen(b: Byte): Word { b as bv32 }

  /** Four bytes as one word, most significant byte first (section 3.1). */
  function WordAt(s: seq<Byte>, i: nat): Word
    requires i + 4 <= |s|
  {
    (Widen(s[i]) << 24) | (Widen(s[i + 1]) << 16) | (Widen(s[i + 2]) << 8) | Widen(s[i + 3])
  }

  function WordsOf(block: seq<Byte>): (m: seq<Word>)
    requires |block| == 64
    ensures |m| == 16
  {
    seq(16, i requires 0 <= i < 16 => WordAt(block, 4 * i))
  }

  /** The block hash on bytes. */
  function BlockHash(h: Regs, block: seq<Byte>): Regs {
    if |block| == 64 then HashBlock(h, WordsOf(block)) else h
  }

  /** A compression function folded over a whole number of blocks. */
  function Fold(f: (Regs, seq<Byte>) -> Regs, h: Regs, s: seq<Byte>): Regs
    requires |s| % 64 == 0
    decreases |s|
  {
    if s == [] then h else Fold(f, f(h, s[..64]), s[64..])
  }

  /** Byte k of a word, counted from the most significant one. */
  function ByteOfWord(w: Word, k: nat): Byte
    requires k < 4
  {
    if k == 0 then (w >> 24) as Byte
    else if k == 1 then ((w >> 16) & 0xFF) as Byte
    else if k == 2 then ((w >> 8) & 0xFF) as Byte
    else (w & 0xFF) as Byte
  }

  /** Word k of a chaining value. */
  function WordOf(r: Regs, k: nat): Word
    requires k < 5
  {
    if k == 0 then r.a else if k == 1 then r.b else if k == 2 then r.c else if k == 3 then r.d else r.e
  }

  /** The five words one after the other, each with its most significant byte first. */
  function DigestOf(r: Regs): (s: seq<Byte>)
    ensures |s| == 20
  {
    seq(20, i requires 0 <= i < 20 => ByteOfWord(WordOf(r, i / 4), i % 4))
  }

  /** Byte k of a number below 2^32, counted from the most significant one. */
  function ByteOfCount(n: nat, k: nat): Byte
    requires n < 0x1_0000_0000 && k < 4
  {
    var q := if k == 0 then n / 0x100_0000 else if k == 1 then n / 0x1_0000 else if k == 2 then n / 0x100 else n;
    (q % 256) as Byte
  }

  function CountBytes(n: nat): (s: seq<Byte>)
    requires n < 0x1_0000_0000
    ensures |s| == 4
  {
    [ByteOfCount(n, 0), ByteOfCount(n, 1), ByteOfCount(n, 2), ByteOfCount(n, 3)]
  }

  /** The bit length of a message of n bytes, as a 64-bit number. */
  function BitLength(n: nat): (bits: nat)
    ensures bits < 0x1_0000_0000_0000_0000
  {
    8 * n % 0x1_0000_0000_0000_0000
  }

  /** The number of zero bytes after the 0x80 byte. */
  function ZeroBytes(n: nat): nat { if n % 64 < 56 then 55 - n % 64 else 119 - n % 64 }

  /** The padding of section 5.1.1, for a message of n bytes. */
  function Padding(n: nat): (s: seq<Byte>)
    ensures |s| == 9 + ZeroBytes(n)
  {
    var bits := BitLength(n);
    [0x80] + seq(ZeroBytes(n), _ => 0) + CountBytes(bits / 0x1_0000_0000) + CountBytes(bits % 0x1_0000_0000)
  }

  /** The padding fills the last block. */
  lemma PaddingFills(n: nat)
    ensures (n + |Padding(n)|) % 64 == 0
  {
    assert n + |Padding(n)| == n + 9 + ZeroBytes(n);
    PaddedBlocks(n / 64, n % 64);
  }

  lemma PaddedBlocks(blocks: nat, r: nat)
    requires r < 64
    ensures (64 * blocks + r + 9 + if r < 56 then 55 - r else 119 - r) % 64 == 0
  {
  }

  /** No shorter run of zero bytes would fill it. */
  lemma PaddingIsLeast(n: nat, z: nat)
    requires z < ZeroBytes(n)
    ensures (n + 1 + z + 8) % 64 != 0
  {
  }

  /** SHA-1 of a message of any length. */
  function Hash(m: seq<Byte>): (digest: seq<Byte>)
    ensures |digest| == 20
  {
    PaddingFills(|m|);
    DigestOf(Fold(BlockHash, INITIAL, m + Padding(|m|)))
  }
}
