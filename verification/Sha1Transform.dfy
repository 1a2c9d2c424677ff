/**
 * The compression function of sha1.cpp: a ring of sixteen words rewritten in place and
 * eighty macro calls whose argument names rotate, proved equal to the block hash of the
 * standard.
 */
module Sha1Transform {
  import opened Fips180

  /** The index of the schedule word in slot k of the ring, before round i. */
  ghost function Newest(i: nat, k: nat): (j: nat)
    requires k < 16
    ensures j % 16 == k && (if i < 16 then j < 16 else i - 16 <= j < i)
  {
    if i < 16 then k else i - 1 - (i - 1 - k) % 16
  }

  lemma NewestBack(i: nat, back: nat)
    requires 1 <= back <= 16 <= i
    ensures Newest(i, (i - back) % 16) == i - back
  {
  }

  /** The source's offsets 13, 8, 2 and 0 reach back 3, 8, 14 and 16 words. */
  lemma NewestOf(i: nat)
    requires 16 <= i
    ensures Newest(i, (i + 13) % 16) == i - 3
    ensures Newest(i, (i + 8) % 16) == i - 8
    ensures Newest(i, (i + 2) % 16) == i - 14
    ensures Newest(i, i % 16) == i - 16
  {
    assert (i + 13) % 16 == (i - 3) % 16 && (i + 8) % 16 == (i - 8) % 16;
    assert (i + 2) % 16 == (i - 14) % 16 && i % 16 == (i - 16) % 16;
    NewestBack(i, 3);
    NewestBack(i, 8);
    NewestBack(i, 14);
    NewestBack(i, 16);
  }

  lemma NewestNext(i: nat, k: nat)
    requires 16 <= i && k < 16
    ensures Newest(i + 1, k) == if k == i % 16 then i else Newest(i, k)
  {
  }

  /** The ring before round i: the sixteen schedule words that rounds i, i + 1, ... may still read. */
  ghost predicate Ring(l: array<Word>, m: seq<Word>, i: nat)
    requires |m| == 16
    reads l
  {
    l.Length == 16 && forall k: nat :: k < 16 ==> l[k] == W(m, Newest(i, k))
  }

  /** The three mixing expressions of the macros and the sum they feed. */
  function ChMacro(w: Word, x: Word, y: Word): Word { (w & (x ^ y)) ^ y }

  function ParityMacro(w: Word, x: Word, y: Word): Word { w ^ x ^ y }

  function MajMacro(w: Word, x: Word, y: Word): Word { ((w | x) & y) | (w & x) }

  function SumMacro(z: Word, f: Word, word: Word, k: Word, rotated: Word): Word { z + (f + word + k + rotated) }

  lemma ChForm(w: Word, x: Word, y: Word)
    ensures ChMacro(w, x, y) == Ch(w, x, y)
  {
    assert (w & (x ^ y)) ^ y == (w & x) ^ (!w & y);
  }

  lemma MajForm(w: Word, x: Word, y: Word)
    ensures MajMacro(w, x, y) == Maj(w, x, y)
  {
    assert ((w | x) & y) | (w & x) == (w & x) ^ (w & y) ^ (x & y);
  }

  lemma SumForm(z: Word, f: Word, word: Word, k: Word, rotated: Word)
    ensures SumMacro(z, f, word, k, rotated) == Sum5(rotated, f, z, k, word)
  {
  }

  /**
   * Macro blk: the next schedule word, written over the oldest one.  The indices are the
   * source's i + 13, i + 8, i + 2 and i, all taken modulo 16.
   */
  method Blk(l: array<Word>, ghost m: seq<Word>, i: nat) returns (word: Word)
    requires |m| == 16 && 16 <= i
    requires Ring(l, m, i)
    modifies l
    ensures Ring(l, m, i + 1)
    ensures word == W(m, i)
  {
    NewestOf(i);
    word := Rotl(Xor4(l[(i + 13) % 16], l[(i + 8) % 16], l[(i + 2) % 16], l[i % 16]), 1);
    assert word == W(m, i);
    l[i % 16] := word;
    forall k: nat | k < 16
      ensures l[k] == W(m, Newest(i + 1, k))
    {
      NewestNext(i, k);
    }
  }

  /**
   * Macro blk0 of a little-endian build turns the word that such a machine loads from
   * four bytes into the word the standard reads from them.
   */
  lemma Blk0SwapsBytes(s: seq<Byte>)
    requires |s| == 4
    ensures
      var l := (Widen(s[3]) << 24) | (Widen(s[2]) << 16) | (Widen(s[1]) << 8) | Widen(s[0]);
      (Rotl(l, 24) & 0xFF00FF00) | (Rotl(l, 8) & 0x00FF00FF) == WordAt(s, 0)
  {
    SwapBits(Widen(s[0]), Widen(s[1]), Widen(s[2]), Widen(s[3]));
  }

  lemma SwapBits(p: Word, q: Word, r: Word, t: Word)
    requires p <= 0xFF && q <= 0xFF && r <= 0xFF && t <= 0xFF
    ensures
      var l := (t << 24) | (r << 16) | (q << 8) | p;
      (Rotl(l, 24) & 0xFF00FF00) | (Rotl(l, 8) & 0x00FF00FF) == (p << 24) | (q << 16) | (r << 8) | t
  {
  }

  /** Macro R0; blk0 only reads the ring here. */
  method R0(l: array<Word>, ghost h: Regs, ghost m: seq<Word>,
                v: Word, w: Word, x: Word, y: Word, z: Word, i: nat)
    returns (z': Word, w': Word)
    requires |m| == 16 && 0 <= i < 16
    requires Ring(l, m, i) && Regs(v, w, x, y, z) == Rounds(h, m, i)
    modifies l
    ensures Ring(l, m, i + 1) && Regs(z', v, w', x, y) == Rounds(h, m, i + 1)
  {
    var word := l[i];
    var f := ChMacro(w, x, y);
    z' := SumMacro(z, f, word, 0x5A827999, Rotl(v, 5));
    w' := Rotl(w, 30);
    ChForm(w, x, y);
    SumForm(z, f, word, 0x5A827999, Rotl(v, 5));
  }

  /** Macro R1. */
  method R1(l: array<Word>, ghost h: Regs, ghost m: seq<Word>,
                v: Word, w: Word, x: Word, y: Word, z: Word, i: nat)
    returns (z': Word, w': Word)
    requires |m| == 16 && 16 <= i < 20
    requires Ring(l, m, i) && Regs(v, w, x, y, z) == Rounds(h, m, i)
    modifies l
    ensures Ring(l, m, i + 1) && Regs(z', v, w', x, y) == Rounds(h, m, i + 1)
  {
    var word := Blk(l, m, i);
    var f := ChMacro(w, x, y);
    z' := SumMacro(z, f, word, 0x5A827999, Rotl(v, 5));
    w' := Rotl(w, 30);
    ChForm(w, x, y);
    SumForm(z, f, word, 0x5A827999, Rotl(v, 5));
  }

  /** Macro R2. */
  method R2(l: array<Word>, ghost h: Regs, ghost m: seq<Word>,
                v: Word, w: Word, x: Word, y: Word, z: Word, i: nat)
    returns (z': Word, w': Word)
    requires |m| == 16 && 20 <= i < 40
    requires Ring(l, m, i) && Regs(v, w, x, y, z) == Rounds(h, m, i)
    modifies l
    ensures Ring(l, m, i + 1) && Regs(z', v, w', x, y) == Rounds(h, m, i + 1)
  {
    var word := Blk(l, m, i);
    var f := ParityMacro(w, x, y);
    z' := SumMacro(z, f, word, 0x6ED9EBA1, Rotl(v, 5));
    w' := Rotl(w, 30);
    SumForm(z, f, word, 0x6ED9EBA1, Rotl(v, 5));
  }

  /** Macro R3. */
  method R3(l: array<Word>, ghost h: Regs, ghost m: seq<Word>,
                v: Word, w: Word, x: Word, y: Word, z: Word, i: nat)
    returns (z': Word, w': Word)
    requires |m| == 16 && 40 <= i < 60
    requires Ring(l, m, i) && Regs(v, w, x, y, z) == Rounds(h, m, i)
    modifies l
    ensures Ring(l, m, i + 1) && Regs(z', v, w', x, y) == Rounds(h, m, i + 1)
  {
    var word := Blk(l, m, i);
    var f := MajMacro(w, x, y);
    z' := SumMacro(z, f, word, 0x8F1BBCDC, Rotl(v, 5));
    w' := Rotl(w, 30);
    MajForm(w, x, y);
    SumForm(z, f, word, 0x8F1BBCDC, Rotl(v, 5));
  }

  /** Macro R4. */
  method R4(l: array<Word>, ghost h: Regs, ghost m: seq<Word>,
                v: Word, w: Word, x: Word, y: Word, z: Word, i: nat)
    returns (z': Word, w': Word)
    requires |m| == 16 && 60 <= i < 80
    requires Ring(l, m, i) && Regs(v, w, x, y, z) == Rounds(h, m, i)
    modifies l
    ensures Ring(l, m, i + 1) && Regs(z', v, w', x, y) == Rounds(h, m, i + 1)
  {
    var word := Blk(l, m, i);
    var f := ParityMacro(w, x, y);
    z' := SumMacro(z, f, word, 0xCA62C1D6, Rotl(v, 5));
    w' := Rotl(w, 30);
    SumForm(z, f, word, 0xCA62C1D6, Rotl(v, 5));
  }

  // The names a to e are back in place after every fifth macro call, so the eighty calls
  // are sixteen runs of five.

  /** Calls 0 to 14, five at a time. */
  method Five0(l: array<Word>, ghost h: Regs, ghost m: seq<Word>, r: Regs, i: nat) returns (r': Regs)
    requires |m| == 16 && 0 <= i <= 10
    requires Ring(l, m, i) && r == Rounds(h, m, i)
    modifies l
    ensures Ring(l, m, i + 5) && r' == Rounds(h, m, i + 5)
  {
    var Regs(a, b, c, d, e) := r;
    e, b := R0(l, h, m, a, b, c, d, e, i);
    d, a := R0(l, h, m, e, a, b, c, d, i + 1);
    c, e := R0(l, h, m, d, e, a, b, c, i + 2);
    b, d := R0(l, h, m, c, d, e, a, b, i + 3);
    a, c := R0(l, h, m, b, c, d, e, a, i + 4);
    r' := Regs(a, b, c, d, e);
  }

  /** Calls 15 to 19. */
  method Five1(l: array<Word>, ghost h: Regs, ghost m: seq<Word>, r: Regs, i: nat) returns (r': Regs)
    requires |m| == 16 && 15 <= i <= 15
    requires Ring(l, m, i) && r == Rounds(h, m, i)
    modifies l
    ensures Ring(l, m, i + 5) && r' == Rounds(h, m, i + 5)
  {
    var Regs(a, b, c, d, e) := r;
    e, b := R0(l, h, m, a, b, c, d, e, i);
    d, a := R1(l, h, m, e, a, b, c, d, i + 1);
    c, e := R1(l, h, m, d, e, a, b, c, i + 2);
    b, d := R1(l, h, m, c, d, e, a, b, i + 3);
    a, c := R1(l, h, m, b, c, d, e, a, i + 4);
    r' := Regs(a, b, c, d, e);
  }

  /** Calls 20 to 39. */
  method Five2(l: array<Word>, ghost h: Regs, ghost m: seq<Word>, r: Regs, i: nat) returns (r': Regs)
    requires |m| == 16 && 20 <= i <= 35
    requires Ring(l, m, i) && r == Rounds(h, m, i)
    modifies l
    ensures Ring(l, m, i + 5) && r' == Rounds(h, m, i + 5)
  {
    var Regs(a, b, c, d, e) := r;
    e, b := R2(l, h, m, a, b, c, d, e, i);
    d, a := R2(l, h, m, e, a, b, c, d, i + 1);
    c, e := R2(l, h, m, d, e, a, b, c, i + 2);
    b, d := R2(l, h, m, c, d, e, a, b, i + 3);
    a, c := R2(l, h, m, b, c, d, e, a, i + 4);
    r' := Regs(a, b, c, d, e);
  }

  /** Calls 40 to 59. */
  method Five3(l: array<Word>, ghost h: Regs, ghost m: seq<Word>, r: Regs, i: nat) returns (r': Regs)
    requires |m| == 16 && 40 <= i <= 55
    requires Ring(l, m, i) && r == Rounds(h, m, i)
    modifies l
    ensures Ring(l, m, i + 5) && r' == Rounds(h, m, i + 5)
  {
    var Regs(a, b, c, d, e) := r;
    e, b := R3(l, h, m, a, b, c, d, e, i);
    d, a := R3(l, h, m, e, a, b, c, d, i + 1);
    c, e := R3(l, h, m, d, e, a, b, c, i + 2);
    b, d := R3(l, h, m, c, d, e, a, b, i + 3);
    a, c := R3(l, h, m, b, c, d, e, a, i + 4);
    r' := Regs(a, b, c, d, e);
  }

  /** Calls 60 to 79. */
  method Five4(l: array<Word>, ghost h: Regs, ghost m: seq<Word>, r: Regs, i: nat) returns (r': Regs)
    requires |m| == 16 && 60 <= i <= 75
    requires Ring(l, m, i) && r == Rounds(h, m, i)
    modifies l
    ensures Ring(l, m, i + 5) && r' == Rounds(h, m, i + 5)
  {
    var Regs(a, b, c, d, e) := r;
    e, b := R4(l, h, m, a, b, c, d, e, i);
    d, a := R4(l, h, m, e, a, b, c, d, i + 1);
    c, e := R4(l, h, m, d, e, a, b, c, i + 2);
    b, d := R4(l, h, m, c, d, e, a, b, i + 3);
    a, c := R4(l, h, m, b, c, d, e, a, i + 4);
    r' := Regs(a, b, c, d, e);
  }

  /** Calls 0 to 19. */
  method Quarter0(l: array<Word>, ghost h: Regs, ghost m: seq<Word>, r: Regs) returns (r': Regs)
    requires |m| == 16
    requires Ring(l, m, 0) && r == Rounds(h, m, 0)
    modifies l
    ensures Ring(l, m, 20) && r' == Rounds(h, m, 20)
  {
    r' := Five0(l, h, m, r, 0);
    r' := Five0(l, h, m, r', 5);
    r' := Five0(l, h, m, r', 10);
    r' := Five1(l, h, m, r', 15);
  }

  /** Calls 20 to 39. */
  method Quarter1(l: array<Word>, ghost h: Regs, ghost m: seq<Word>, r: Regs) returns (r': Regs)
    requires |m| == 16
    requires Ring(l, m, 20) && r == Rounds(h, m, 20)
    modifies l
    ensures Ring(l, m, 40) && r' == Rounds(h, m, 40)
  {
    r' := Five2(l, h, m, r, 20);
    r' := Five2(l, h, m, r', 25);
    r' := Five2(l, h, m, r', 30);
    r' := Five2(l, h, m, r', 35);
  }

  /** Calls 40 to 59. */
  method Quarter2(l: array<Word>, ghost h: Regs, ghost m: seq<Word>, r: Regs) returns (r': Regs)
    requires |m| == 16
    requires Ring(l, m, 40) && r == Rounds(h, m, 40)
    modifies l
    ensures Ring(l, m, 60) && r' == Rounds(h, m, 60)
  {
    r' := Five3(l, h, m, r, 40);
    r' := Five3(l, h, m, r', 45);
    r' := Five3(l, h, m, r', 50);
    r' := Five3(l, h, m, r', 55);
  }

  /** Calls 60 to 79. */
  method Quarter3(l: array<Word>, ghost h: Regs, ghost m: seq<Word>, r: Regs) returns (r': Regs)
    requires |m| == 16
    requires Ring(l, m, 60) && r == Rounds(h, m, 60)
    modifies l
    ensures Ring(l, m, 80) && r' == Rounds(h, m, 80)
  {
    r' := Five4(l, h, m, r, 60);
    r' := Five4(l, h, m, r', 65);
    r' := Five4(l, h, m, r', 70);
    r' := Five4(l, h, m, r', 75);
  }

  /** SHA1Transform, from the sixteen words that blk0 yields. */
  method Transform(state: Regs, words: seq<Word>) returns (state': Regs)
    requires |words| == 16
    ensures state' == HashBlock(state, words)
  {
    var l := new Word[16];
    forall j | 0 <= j < 16 {
      l[j] := words[j];
    }
    var r := Quarter0(l, state, words, state);
    r := Quarter1(l, state, words, r);
    r := Quarter2(l, state, words, r);
    r := Quarter3(l, state, words, r);
    state' := AddRegs(state, r);
  }
}
