/**
 * Prefixes of 32-bit addresses.  Two addresses agree on their first 32 - n bits when
 * dropping the last n bits leaves the same number.  The operations are named so that
 * proofs about prefixes need no bit-level reasoning of their own.
 */
module Bits {

  type Address = bv32

  function Half(x: bv32): bv32 { x >> 1 }

  function Low(x: bv32): (b: bv32)
    ensures b == 0 || b == 1
  {
    x & 1
  }

  function Xor(x: bv32, y: bv32): bv32 { x ^ y }

  function Or(x: bv32, y: bv32): bv32 { x | y }

  function Shr(x: bv32, n: bv32): bv32
    requires n <= 32
  {
    x >> n
  }

  function Shl(x: bv32, n: bv32): bv32
    requires n <= 32
  {
    x << n
  }

  /** An address without its last n bits, one bit at a time. */
  function Drop(a: Address, n: bv32): bv32
    requires n <= 32
  {
    if n == 0 then a else Half(Drop(a, n - 1))
  }

  /** Bit n of an address, counted from the least significant one. */
  function Bit(a: Address, n: bv32): (b: bv32)
    requires n < 32
    ensures b == 0 || b == 1
  {
    Low(Drop(a, n))
  }

  lemma ShiftOnce(a: bv32, n: bv32)
    requires 0 < n <= 32
    ensures Shr(a, n) == Half(Shr(a, n - 1))
  {
  }

  lemma {:induction false} DropIsShift(a: Address, n: bv32)
    requires n <= 32
    ensures Drop(a, n) == Shr(a, n)
  {
    if n > 0 {
      DropIsShift(a, n - 1);
      ShiftOnce(a, n);
    }
  }

  lemma LastBit(x: bv32, y: bv32)
    ensures x == y <==> Half(x) == Half(y) && Low(x) == Low(y)
  {
  }

  /** One more common bit of a prefix. */
  lemma DropSplits(a: Address, b: Address, n: bv32)
    requires n < 32
    ensures Drop(a, n) == Drop(b, n) <==> Drop(a, n + 1) == Drop(b, n + 1) && Bit(a, n) == Bit(b, n)
  {
    LastBit(Drop(a, n), Drop(b, n));
  }

  /** A longer common prefix includes every shorter one. */
  lemma {:induction false} DropShorter(a: Address, b: Address, n: bv32, m: bv32)
    requires n <= m <= 32 && Drop(a, n) == Drop(b, n)
    ensures Drop(a, m) == Drop(b, m)
    decreases m
  {
    if n < m {
      DropShorter(a, b, n, m - 1);
    }
  }

  lemma DropAll(a: Address)
    ensures Drop(a, 32) == 0
  {
    DropIsShift(a, 32);
  }

  lemma HalfXor(x: bv32, y: bv32)
    ensures Half(Xor(x, y)) == Xor(Half(x), Half(y))
  {
  }

  lemma LowXor(x: bv32, y: bv32)
    ensures Low(Xor(x, y)) == Xor(Low(x), Low(y))
  {
  }

  lemma {:induction false} DropXor(x: bv32, y: bv32, n: bv32)
    requires n <= 32
    ensures Drop(Xor(x, y), n) == Xor(Drop(x, n), Drop(y, n))
  {
    if n > 0 {
      DropXor(x, y, n - 1);
      HalfXor(Drop(x, n - 1), Drop(y, n - 1));
    }
  }

  lemma BitXor(x: bv32, y: bv32, n: bv32)
    requires n < 32
    ensures Bit(Xor(x, y), n) == Xor(Bit(x, n), Bit(y, n))
  {
    DropXor(x, y, n);
    LowXor(Drop(x, n), Drop(y, n));
  }

  lemma HalfOr(x: bv32, y: bv32)
    ensures Half(Or(x, y)) == Or(Half(x), Half(y))
  {
  }

  lemma LowOr(x: bv32, y: bv32)
    ensures Low(Or(x, y)) == Or(Low(x), Low(y))
  {
  }

  lemma {:induction false} DropOr(x: bv32, y: bv32, n: bv32)
    requires n <= 32
    ensures Drop(Or(x, y), n) == Or(Drop(x, n), Drop(y, n))
  {
    if n > 0 {
      DropOr(x, y, n - 1);
      HalfOr(Drop(x, n - 1), Drop(y, n - 1));
    }
  }

  lemma BitOr(x: bv32, y: bv32, n: bv32)
    requires n < 32
    ensures Bit(Or(x, y), n) == Or(Bit(x, n), Bit(y, n))
  {
    DropOr(x, y, n);
    LowOr(Drop(x, n), Drop(y, n));
  }

  lemma ShiftedBack(b: bv32, m: bv32, n: bv32)
    requires b <= 1 && m < 32 && n <= 32
    ensures Low(Shr(Shl(b, m), n)) == if m == n then b else 0
    ensures m < n ==> Shr(Shl(b, m), n) == 0
  {
  }

  /** A single bit put at place m. */
  lemma BitPlaced(b: bv32, m: bv32, n: bv32)
    requires b <= 1 && m < 32 && n < 32
    ensures Bit(Shl(b, m), n) == if m == n then b else 0
  {
    DropIsShift(Shl(b, m), n);
    ShiftedBack(b, m, n);
  }

  lemma DropPlaced(b: bv32, m: bv32, n: bv32)
    requires b <= 1 && m < n <= 32
    ensures Drop(Shl(b, m), n) == 0
  {
    DropIsShift(Shl(b, m), n);
    ShiftedBack(b, m, n);
  }
}
