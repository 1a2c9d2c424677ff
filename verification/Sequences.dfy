/** Sequences without repetitions, and sums over sequences. */
module Sequences {

  ghost predicate NoDuplicates<T>(s: seq<T>) {
    forall i, j :: 0 <= i < j < |s| ==> s[i] != s[j]
  }

  /** Distinct numbers below a bound are at most that many. */
  lemma {:induction false} Pigeonhole(s: seq<nat>, bound: nat)
    requires NoDuplicates(s) && forall x :: x in s ==> x < bound
    ensures |s| <= bound
  {
    if s != [] {
      assert s[0] in s;
      var top := bound - 1;
      if top in s {
        var i: nat :| i < |s| && s[i] == top;
        var rest := s[..i] + s[i + 1..];
        forall x | x in rest
          ensures x < top
        {
          var k: nat :| k < |rest| && rest[k] == x;
          assert x == s[if k < i then k else k + 1];
          assert x in s;
        }
        Pigeonhole(rest, top);
      } else {
        Pigeonhole(s, top);
      }
    }
  }

  /** A sequence with all the numbers below a bound is at least that long. */
  lemma {:induction false} Covering(s: seq<nat>, bound: nat)
    requires forall x: nat :: x < bound ==> x in s
    ensures bound <= |s|
  {
    if bound > 0 {
      var top := bound - 1;
      assert top in s;
      var i: nat :| i < |s| && s[i] == top;
      var rest := s[..i] + s[i + 1..];
      forall x: nat | x < top
        ensures x in rest
      {
        assert x in s;
        var k: nat :| k < |s| && s[k] == x;
        assert rest[if k < i then k else k - 1] == x;
      }
      Covering(rest, top);
    }
  }

  /** The sum of a weight over a sequence. */
  function Total<T>(s: seq<T>, weight: T -> nat): nat {
    if s == [] then 0 else weight(s[0]) + Total(s[1..], weight)
  }

  lemma {:induction false} TotalUpdate<T>(s: seq<T>, i: nat, x: T, weight: T -> nat)
    requires i < |s|
    ensures Total(s[i := x], weight) + weight(s[i]) == Total(s, weight) + weight(x)
    ensures Total(s, weight) >= weight(s[i])
  {
    if i > 0 {
      assert s[i := x][1..] == s[1..][i - 1 := x];
      TotalUpdate(s[1..], i - 1, x, weight);
    }
  }

  lemma {:induction false} TotalZero<T>(s: seq<T>, weight: T -> nat)
    requires forall i :: 0 <= i < |s| ==> weight(s[i]) == 0
    ensures Total(s, weight) == 0
  {
    if s != [] {
      TotalZero(s[1..], weight);
    }
  }
}
