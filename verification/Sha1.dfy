/**
 * The streaming interface of sha1.cpp: a context that takes a message in pieces of any
 * size, proved to give the hash of the standard for the whole message.
 */
module Sha1 {
  import opened Fips180
  import Sha1Transform

  const TWO32: nat := 0x1_0000_0000
  const TWO64: nat := 0x1_0000_0000_0000_0000

  type Compression = (Regs, seq<Byte>) -> Regs

  /** Compressing one more block. */
  lemma {:induction false} FoldAppend(f: Compression, h: Regs, s: seq<Byte>, block: seq<Byte>)
    requires |s| % 64 == 0 && |block| == 64
    ensures Fold(f, h, s + block) == f(Fold(f, h, s), block)
    decreases |s|
  {
    if s == [] {
      assert s + block == block && block[..64] == block && block[64..] == [];
    } else {
      assert (s + block)[..64] == s[..64] && (s + block)[64..] == s[64..] + block;
      FoldAppend(f, f(h, s[..64]), s[64..], block);
    }
  }

  /** The function computes the block hash of the standard. */
  ghost predicate Standard(f: Compression) {
    forall h: Regs, b: seq<Byte> {:trigger BlockHash(h, b)} :: f(h, b) == BlockHash(h, b)
  }

  lemma {:induction false} FoldStandard(f: Compression, h: Regs, s: seq<Byte>)
    requires Standard(f) && |s| % 64 == 0
    ensures Fold(f, h, s) == Fold(BlockHash, h, s)
    decreases |s|
  {
    if s != [] {
      assert f(h, s[..64]) == BlockHash(h, s[..64]);
      FoldStandard(f, BlockHash(h, s[..64]), s[64..]);
    }
  }

  /** The counters of a context: 64 bits in two 32-bit halves. */
  ghost predicate Counts(count0: nat, count1: nat, n: nat) {
    count0 < TWO32 && count1 < TWO32 && count1 * TWO32 + count0 == BitLength(n)
  }

  /** The three statements of SHA1_Update that advance the counters by len bytes. */
  function Advance(count0: nat, count1: nat, len: nat): (c: (nat, nat))
    requires len < TWO32
  {
    var bits := len * 8 % TWO32;
    var low := (count0 + bits) % TWO32;
    var high := if low < bits then (count1 + 1) % TWO32 else count1;
    (low, (high + len / 0x2000_0000) % TWO32)
  }

  lemma ModuloOnce(x: nat, y: nat)
    ensures (x % TWO64 + y) % TWO64 == (x + y) % TWO64
  {
    var q := x / TWO64;
    assert x + y == TWO64 * q + (x % TWO64 + y);
  }

  lemma HighHalf(low: nat, high: nat)
    requires low < TWO32
    ensures (high * TWO32 + low) % TWO64 == high % TWO32 * TWO32 + low
  {
    var q := high / TWO32;
    assert high * TWO32 + low == TWO64 * q + (high % TWO32 * TWO32 + low);
  }

  /** What the low half loses is what the high half gains. */
  lemma LowHalf(count0: nat, len: nat) returns (carry: nat, low: nat)
    requires count0 < TWO32 && len < TWO32
    ensures low == (count0 + len * 8 % TWO32) % TWO32 && carry == (if low < len * 8 % TWO32 then 1 else 0)
    ensures count0 + len * 8 == (carry + len / 0x2000_0000) * TWO32 + low
  {
    var bits := len * 8 % TWO32;
    low := (count0 + bits) % TWO32;
    carry := if low < bits then 1 else 0;
    assert len * 8 == len / 0x2000_0000 * TWO32 + bits;
    assert count0 + bits == carry * TWO32 + low;
  }

  lemma ModuloTwice(x: nat, y: nat)
    ensures (x % TWO32 + y) % TWO32 == (x + y) % TWO32
  {
    var q := x / TWO32;
    assert x + y == TWO32 * q + (x % TWO32 + y);
  }

  /** The 64-bit count is exact: the carry between its two halves is right. */
  lemma AdvanceIsExact(count0: nat, count1: nat, n: nat, len: nat)
    requires Counts(count0, count1, n) && len < TWO32
    ensures var c := Advance(count0, count1, len); Counts(c.0, c.1, n + len)
  {
    var carry, low := LowHalf(count0, len);
    var high := count1 + carry + len / 0x2000_0000;
    ModuloTwice(count1 + carry, len / 0x2000_0000);
    assert Advance(count0, count1, len) == (low, high % TWO32);
    assert count1 * TWO32 + count0 + 8 * len == high * TWO32 + low;
    HighHalf(low, high);
    ModuloOnce(8 * n, 8 * len);
  }

  lemma WholeBlocks(blocks: nat, x: nat)
    ensures (64 * blocks + x) % 64 == x % 64
  {
  }

  /** A count in bits that wraps around q times, in whole blocks and what is left. */
  lemma BlocksCounted(q: nat, count0: nat, count1: nat, n: nat)
    requires 8 * n == TWO64 * q + count1 * TWO32 + count0
    ensures n == 64 * (0x80_0000_0000_0000 * q + 0x80_0000 * count1) + count0 / 8
  {
    var k := n - 0x2000_0000_0000_0000 * q - 0x2000_0000 * count1;
    assert count0 == 8 * k;
  }

  lemma CountsModulo(count0: nat, count1: nat, n: nat)
    requires Counts(count0, count1, n)
    ensures count0 / 8 % 64 == n % 64
  {
    var q := 8 * n / TWO64;
    BlocksCounted(q, count0, count1, n);
    WholeBlocks(0x80_0000_0000_0000 * q + 0x80_0000 * count1, count0 / 8);
  }

  /** The 64-bit length field of the padding. */
  ghost function LengthBytes(n: nat): (s: seq<Byte>)
    ensures |s| == 8
  {
    CountBytes(BitLength(n) / TWO32) + CountBytes(BitLength(n) % TWO32)
  }

  lemma CountBytesAt(n: nat, k: nat)
    requires n < TWO32 && k < 4
    ensures CountBytes(n)[k] == ByteOfCount(n, k)
  {
    assert k == 0 || k == 1 || k == 2 || k == 3;
  }

  lemma HalvesAt(high: nat, low: nat, h: nat, k: nat)
    requires high < TWO32 && low < TWO32 && h < 2 && k < 4
    ensures (CountBytes(high) + CountBytes(low))[4 * h + k] == ByteOfCount(if h == 1 then low else high, k)
  {
    CountBytesAt(high, k);
    CountBytesAt(low, k);
  }

  lemma CountHalves(count0: nat, count1: nat, n: nat)
    requires Counts(count0, count1, n)
    ensures count1 == BitLength(n) / TWO32 && count0 == BitLength(n) % TWO32
  {
  }

  ghost function Zeros(k: nat): (s: seq<Byte>)
    ensures |s| == k
  {
    seq(k, _ => 0)
  }

  lemma ZerosNext(m: seq<Byte>, k: nat)
    ensures m + Zeros(k) + [0] == m + Zeros(k + 1)
  {
  }

  /** The padding loop stops after exactly the standard's run of zeros. */
  lemma ZeroRun(n: nat, k: nat)
    requires k <= ZeroBytes(n)
    ensures (n + 1 + k) % 64 == 56 <==> k == ZeroBytes(n)
  {
  }

  lemma PaddedMessage(m: seq<Byte>)
    ensures m + [0x80] + Zeros(ZeroBytes(|m|)) + LengthBytes(|m|) == m + Padding(|m|)
    ensures |m + Padding(|m|)| % 64 == 0
  {
    PaddingFills(|m|);
  }

  lemma Offset(n: nat, done: nat)
    requires done % 64 == 0 && done <= n < done + 64
    ensures n % 64 == n - done
  {
  }

  /**
   * The test of SHA1_Update in 32 bits: what it lets through to the copy at the end fits the
   * buffer exactly when the sum has not wrapped around.
   */
  lemma CopyFits(j: nat, len: nat)
    requires j < 64 && len < TWO32
    ensures ((j + len) % TWO32 <= 63 ==> j + len <= 64) <==> j + len < TWO32
  {
  }

  /** At the end of a block the loop's sum does not wrap around either. */
  lemma NoWrap(i: nat, j: nat, blocks: nat, len: nat)
    requires i + j == 64 * blocks && i <= len && j + len < TWO32
    ensures i + 63 < TWO32
  {
  }

  /** SHA1_CTX with the three functions that work on it. */
  class Context {
    var state: Regs
    var count0: nat
    var count1: nat
    const buffer: array<Byte>
    ghost const f: Compression
    ghost var done: seq<Byte>  // the blocks already compressed

    ghost predicate Valid()
      reads this
    {
      buffer.Length == 64 && Standard(f) && |done| % 64 == 0 && state == Fold(f, INITIAL, done)
    }

    /** The context has taken exactly the bytes of m. */
    ghost predicate Took(m: seq<Byte>)
      reads this, buffer
    {
      && Valid()
      && Counts(count0, count1, |m|)
      && |done| <= |m| < |done| + 64
      && m == done + buffer[..|m| - |done|]
    }

    /** SHA1_Init. */
    constructor ()
      ensures Took([]) && fresh(buffer)
    {
      f := BlockHash;
      done := [];
      state := INITIAL;
      count0, count1 := 0, 0;
      buffer := new Byte[64](_ => 0);
    }

    /** A call of SHA1Transform on one block. */
    method Compress(block: seq<Byte>)
      requires Valid() && |block| == 64
      modifies this`state, this`done
      ensures Valid() && done == old(done) + block
    {
      FoldAppend(f, INITIAL, done, block);
      assert f(state, block) == BlockHash(state, block);
      state := Sha1Transform.Transform(state, WordsOf(block));
      done := done + block;
    }

    /** The memcpy calls into the context's buffer. */
    method CopyIn(j: nat, chunk: seq<Byte>)
      requires j + |chunk| <= buffer.Length
      modifies buffer
      ensures buffer[..j + |chunk|] == old(buffer[..j]) + chunk
    {
      forall k | 0 <= k < |chunk| {
        buffer[j + k] := chunk[k];
      }
    }

    /** The first lines of SHA1_Update: the offset in the buffer, and the new counts. */
    method AdvanceCount(len: nat, ghost n: nat) returns (j: nat)
      requires Counts(count0, count1, n) && len < TWO32
      modifies this`count0, this`count1
      ensures j == n % 64 && Counts(count0, count1, n + len)
    {
      CountsModulo(count0, count1, n);
      AdvanceIsExact(count0, count1, n, len);
      j := count0 / 8 % 64;
      var c := Advance(count0, count1, len);
      count0, count1 := c.0, c.1;
    }

    /** The branch of SHA1_Update that completes at least one block, with its sums in 32 bits. */
    method CompressWhole(data: seq<Byte>, j: nat, ghost m: seq<Byte>) returns (i: nat)
      requires Valid() && j < 64 && 63 < j + |data| < TWO32 && m == done + buffer[..j]
      modifies this`state, this`done, buffer
      ensures Valid() && i <= |data| < i + 64 && done == m + data[..i]
    {
      i := 64 - j;
      CopyIn(j, data[..i]);
      assert buffer[..j + i] == buffer[..];
      Compress(buffer[..]);
      ghost var blocks := 1;
      NoWrap(i, j, blocks, |data|);
      while (i + 63) % TWO32 < |data|
        invariant Valid() && i <= |data| && done == m + data[..i]
        invariant i + j == 64 * blocks && i + 63 < TWO32
        decreases |data| - i
      {
        assert data[..i + 64] == data[..i] + data[i..i + 64];
        Compress(data[i..i + 64]);
        i := i + 64;
        blocks := blocks + 1;
        NoWrap(i, j, blocks, |data|);
      }
    }

    /** The part of SHA1_Update that moves bytes. */
    method Absorb(data: seq<Byte>, offset: nat, ghost m: seq<Byte>)
      requires Valid() && offset < 64 && offset + |data| < TWO32 && m == done + buffer[..offset]
      modifies this`state, this`done, buffer
      ensures Valid() && |done| <= |m + data| < |done| + 64
      ensures m + data == done + buffer[..|m + data| - |done|]
    {
      var i, j := 0, offset;
      if (j + |data|) % TWO32 > 63 {
        i := CompressWhole(data, j, m);
        j := 0;
      }
      assert m + data == done + (buffer[..j] + data[i..]);
      CopyIn(j, data[i..]);
    }

    /** SHA1_Update.  CopyFits says why no more can be asked for. */
    method Update(data: seq<Byte>, ghost m: seq<Byte>)
      requires Took(m) && |m| % 64 + |data| < TWO32
      modifies this, buffer
      ensures Took(m + data)
    {
      Offset(|m|, |done|);
      var j := AdvanceCount(|data|, |m|);
      Absorb(data, j, m);
    }

    /** The bit count as SHA1_Final takes it before the padding is added. */
    method FinalCount(ghost n: nat) returns (finalcount: seq<Byte>)
      requires Counts(count0, count1, n)
      ensures finalcount == LengthBytes(n)
    {
      CountHalves(count0, count1, n);
      finalcount := [];
      for i := 0 to 8
        invariant finalcount == LengthBytes(n)[..i]
      {
        HalvesAt(BitLength(n) / TWO32, BitLength(n) % TWO32, i / 4, i % 4);
        finalcount := finalcount + [ByteOfCount(if i >= 4 then count0 else count1, i % 4)];
      }
    }

    /** The digest loop of SHA1_Final. */
    method Digest() returns (digest: seq<Byte>)
      ensures digest == DigestOf(state)
    {
      digest := [];
      for i := 0 to 20
        invariant digest == DigestOf(state)[..i]
      {
        digest := digest + [ByteOfWord(WordOf(state, i / 4), i % 4)];
      }
    }

    /** The padding loop of SHA1_Final. */
    method Pad(ghost m: seq<Byte>) returns (ghost padded: seq<Byte>)
      requires Took(m)
      modifies this, buffer
      ensures padded == m + [0x80] + Zeros(ZeroBytes(|m|)) && Took(padded)
    {
      Update([0x80], m);
      ghost var k := 0;
      padded := m + [0x80];
      while count0 / 8 % 64 != 56
        invariant k <= ZeroBytes(|m|) && padded == m + [0x80] + Zeros(k) && Took(padded)
        decreases ZeroBytes(|m|) - k
      {
        PadStops(|m|, k);
        Update([0], padded);
        ZerosNext(m + [0x80], k);
        padded := padded + [0];
        k := k + 1;
      }
      PadStops(|m|, k);
    }

    /** The loop condition of SHA1_Final. */
    lemma PadStops(n: nat, k: nat)
      requires k <= ZeroBytes(n) && Counts(count0, count1, n + 1 + k)
      ensures count0 / 8 % 64 == 56 <==> k == ZeroBytes(n)
    {
      CountsModulo(count0, count1, n + 1 + k);
      ZeroRun(n, k);
    }

    /** SHA1_Final, with the wiping at its end. */
    method Final(ghost m: seq<Byte>) returns (digest: seq<Byte>)
      requires Took(m)
      modifies this, buffer
      ensures digest == Hash(m)
      ensures count0 == 0 && count1 == 0 && forall k :: 0 <= k < buffer.Length ==> buffer[k] == 0
    {
      var finalcount := FinalCount(|m|);
      ghost var padded := Pad(m);
      Update(finalcount, padded);
      PaddedMessage(m);
      assert padded + finalcount == m + Padding(|m|);
      Offset(|m + Padding(|m|)|, |done|);
      assert done == m + Padding(|m|);
      FoldStandard(f, INITIAL, done);
      digest := Digest();
      forall k | 0 <= k < 64 {
        buffer[k] := 0;
      }
      count0, count1 := 0, 0;
      state := Sha1Transform.Transform(Regs(0, 0, 0, 0, 0), WordsOf(buffer[..]));
    }
  }
}
