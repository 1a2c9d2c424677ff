/**
 * What a depth-first search knows: the invariant of Graph::depthSearch, and why the order
 * in which it finishes nodes is a topological one exactly for graphs without cycles.
 */
module Topology {
  import opened Sequences

  type Edges = (nat, nat) -> bool

  ghost predicate IsPath(e: Edges, p: seq<nat>) {
    forall i :: 0 <= i < |p| - 1 ==> e(p[i], p[i + 1])
  }

  ghost predicate IsCycle(e: Edges, p: seq<nat>) {
    |p| >= 2 && p[0] == p[|p| - 1] && IsPath(e, p)
  }

  ghost predicate Acyclic(e: Edges) {
    forall p: seq<nat> :: !IsCycle(e, p)
  }

  /** Edges join the nodes below n only. */
  ghost predicate Within(e: Edges, n: nat) {
    forall i: nat, j: nat :: e(i, j) ==> i < n && j < n
  }

  /** An order of the nodes below n. */
  ghost predicate Permutation(order: seq<nat>, n: nat) {
    |order| == n && NoDuplicates(order) && forall x :: x in order ==> x < n
  }

  /** Every edge goes from an earlier to a later node. */
  ghost predicate Forward(e: Edges, order: seq<nat>) {
    forall i, j :: 0 <= i < |order| && 0 <= j < |order| && e(order[i], order[j]) ==> i < j
  }

  // ----- The state of a search

  /** Every edge out of a finished node leads to a node finished before it, or to one of the first m nodes. */
  ghost predicate Ordered(e: Edges, m: nat, done: seq<nat>) {
    forall p: nat, w: nat :: p < |done| && e(done[p], w) ==> w < m || w in done[..p]
  }

  /**
   * The invariant of a search that takes the first m nodes for visited: the other visited
   * nodes are finished or on the stack of calls, the stack is a path, and in a graph without
   * cycles the finished nodes are ordered.
   */
  ghost predicate Progress(e: Edges, n: nat, m: nat, pre: seq<int>, done: seq<nat>, stack: seq<nat>) {
    && n <= |pre|
    && NoDuplicates(done + stack)
    && (forall x :: x in done + stack ==> m <= x < n)
    && (forall u: nat :: u < n ==> (pre[u] != -1 <==> u < m || u in done + stack))
    && IsPath(e, stack)
    && (Acyclic(e) ==> Ordered(e, m, done))
  }

  lemma Room(e: Edges, n: nat, m: nat, pre: seq<int>, done: seq<nat>, stack: seq<nat>)
    requires Progress(e, n, m, pre, done, stack)
    ensures |done| + |stack| <= n
  {
    Pigeonhole(done + stack, n);
  }

  /** Entering a node. */
  lemma Enter(e: Edges, n: nat, m: nat, pre: seq<int>, done: seq<nat>, stack: seq<nat>, v: nat, cnt: nat)
    requires Progress(e, n, m, pre, done, stack) && v < n && pre[v] == -1
    requires stack != [] ==> e(stack[|stack| - 1], v)
    ensures Progress(e, n, m, pre[v := cnt], done, stack + [v])
  {
    assert done + (stack + [v]) == (done + stack) + [v];
    assert v !in done + stack;
  }

  /** An edge back to the stack closes a cycle. */
  lemma BackEdge(e: Edges, stack: seq<nat>, w: nat)
    requires stack != [] && IsPath(e, stack) && e(stack[|stack| - 1], w) && w in stack
    ensures !Acyclic(e)
  {
    var k: nat :| k < |stack| && stack[k] == w;
    var p := stack[k..] + [w];
    assert IsCycle(e, p);
  }

  /** Leaving a node all of whose successors have been visited. */
  lemma Leave(e: Edges, n: nat, m: nat, pre: seq<int>, done: seq<nat>, stack: seq<nat>, v: nat)
    requires Progress(e, n, m, pre, done, stack + [v])
    requires forall w: nat :: e(v, w) ==> w < m || w in done + (stack + [v])
    ensures Progress(e, n, m, pre, done + [v], stack)
  {
    var grey := stack + [v];
    LastToFront(done, stack, v);
    assert IsPath(e, stack) by {
      assert forall i :: 0 <= i < |stack| ==> stack[i] == grey[i];
    }
    if Acyclic(e) {
      forall w: nat | e(v, w)
        ensures w < m || w in done
      {
        if w in grey {
          BackEdge(e, grey, w);
        }
      }
      forall p: nat, w: nat | p < |done + [v]| && e((done + [v])[p], w)
        ensures w < m || w in (done + [v])[..p]
      {
        assert (done + [v])[..p] == done[..p];
      }
    }
  }

  lemma LastToFront(done: seq<nat>, stack: seq<nat>, v: nat)
    requires NoDuplicates(done + (stack + [v]))
    ensures NoDuplicates((done + [v]) + stack)
    ensures forall x :: x in (done + [v]) + stack <==> x in done + (stack + [v])
  {
    var a, b := done + (stack + [v]), (done + [v]) + stack;
    forall i: nat, j: nat | i < j < |b|
      ensures b[i] != b[j]
    {
      assert b[i] == a[if i < |done| then i else if i == |done| then |a| - 1 else i - 1];
      assert b[j] == a[if j < |done| then j else if j == |done| then |a| - 1 else j - 1];
    }
  }

  // ----- The result

  /** The last nodes of an order are an order of their own exactly when the first one has the highest id. */
  lemma WithoutFirst(order: seq<nat>, n: nat)
    requires Permutation(order, n + 1)
    ensures Permutation(order[1..], n) <==> order[0] == n
  {
    assert order[0] in order;
    if order[0] == n {
      forall x | x in order[1..]
        ensures x < n
      {
        var i: nat :| i < n && order[1..][i] == x;
        assert order[i + 1] == x && x in order;
      }
    } else {
      Surjective(order, n + 1);
      var i := Place(order, n);
      assert order[1..][i - 1] == n && n in order[1..];
    }
  }

  function Reversed(s: seq<nat>): (r: seq<nat>)
    ensures |r| == |s| && forall i :: 0 <= i < |s| ==> r[i] == s[|s| - 1 - i]
  {
    seq(|s|, i requires 0 <= i < |s| => s[|s| - 1 - i])
  }

  lemma NothingFinished(e: Edges, n: nat, m: nat, pre: seq<int>)
    requires n <= |pre| && forall u :: 0 <= u < n ==> (pre[u] != -1 <==> u < m)
    ensures Progress(e, n, m, pre, [], [])
  {
  }

  /** A search that takes a node for visited does not finish every node. */
  lemma FewFinished(e: Edges, n: nat, m: nat, pre: seq<int>, done: seq<nat>)
    requires Progress(e, n, m, pre, done, [])
    ensures n <= m ==> done == []
    ensures 0 < m < n ==> |done| < n
  {
    assert done + [] == done;
    if done != [] {
      assert done[0] in done;
    }
    if 0 < m < n {
      assert 0 !in done;
      Pigeonhole(done + [0], n);
    }
  }

  /** A finished search has a place for every node. */
  lemma AllFinished(e: Edges, n: nat, pre: seq<int>, done: seq<nat>)
    requires Progress(e, n, 0, pre, done, []) && forall u: nat :: u < n ==> u in done
    ensures Permutation(Reversed(done), n) && Permutation(done, n)
  {
    assert done + [] == done;
    Pigeonhole(done, n);
    Covering(done, n);
    forall x | x in Reversed(done)
      ensures x < n
    {
      var i: nat :| i < n && Reversed(done)[i] == x;
      assert done[n - 1 - i] == x;
      assert x in done + [];
    }
  }

  /** In the reversed finishing order of a graph without cycles every edge goes forward. */
  lemma FinishedIsForward(e: Edges, n: nat, pre: seq<int>, done: seq<nat>)
    requires Progress(e, n, 0, pre, done, []) && Acyclic(e) && NoDuplicates(done)
    ensures Forward(e, Reversed(done))
  {
    var order := Reversed(done);
    forall i: nat, j: nat | i < |order| && j < |order| && e(order[i], order[j])
      ensures i < j
    {
      var p, q := |done| - 1 - i, |done| - 1 - j;
      assert done[q] in done[..p];
      var k: nat :| k < p && done[k] == done[q];
      assert k == q;
    }
  }

  /** No other graph has such an order. */
  lemma ForwardMeansAcyclic(e: Edges, n: nat, order: seq<nat>)
    requires Within(e, n) && Permutation(order, n) && Forward(e, order)
    ensures Acyclic(e)
  {
    forall p: seq<nat>
      ensures !IsCycle(e, p)
    {
      if IsCycle(e, p) {
        Surjective(order, n);
        PathGoesForward(e, n, order, p, |p| - 1);
      }
    }
  }

  /** The place of a node in an order. */
  ghost function Place(order: seq<nat>, x: nat): (i: nat)
    requires x in order
    ensures i < |order| && order[i] == x
  {
    var i: nat :| i < |order| && order[i] == x;
    i
  }

  /** a comes before b. */
  ghost predicate Before(order: seq<nat>, a: nat, b: nat) {
    a in order && b in order && Place(order, a) < Place(order, b)
  }

  lemma PlaceAt(order: seq<nat>, i: nat)
    requires NoDuplicates(order) && i < |order|
    ensures order[i] in order && Place(order, order[i]) == i
  {
  }

  /** An order is forward exactly when each edge goes from an earlier to a later node. */
  lemma ForwardByPlaces(e: Edges, n: nat, order: seq<nat>)
    requires Within(e, n) && Permutation(order, n)
    ensures Forward(e, order) <==> forall a: nat, b: nat :: e(a, b) ==> Before(order, a, b)
  {
    Surjective(order, n);
    if Forward(e, order) {
      forall a: nat, b: nat | e(a, b)
        ensures Before(order, a, b)
      {
        assert a in order && b in order;
        assert e(order[Place(order, a)], order[Place(order, b)]);
      }
    }
    if forall a: nat, b: nat :: e(a, b) ==> Before(order, a, b) {
      forall i: nat, j: nat | i < |order| && j < |order| && e(order[i], order[j])
        ensures i < j
      {
        PlaceAt(order, i);
        PlaceAt(order, j);
        assert Before(order, order[i], order[j]);
      }
    }
  }

  /** Edges change and nodes do not: the old order is still right exactly when the new edges go forward in it. */
  lemma StillForward(e: Edges, e': Edges, n: nat, order: seq<nat>)
    requires Within(e, n) && Within(e', n) && Permutation(order, n) && Forward(e, order)
    ensures Forward(e', order) <==> forall a: nat, b: nat :: e'(a, b) && !e(a, b) ==> Before(order, a, b)
  {
    ForwardByPlaces(e, n, order);
    ForwardByPlaces(e', n, order);
  }

  /** The id of a node after node pos has been removed. */
  function Renumbered(u: nat, pos: nat): nat { if u <= pos then u else u - 1 }

  /** e' is what is left of e without node pos, with the nodes renumbered. */
  ghost predicate LeftOver(e: Edges, e': Edges, pos: nat) {
    && (forall a: nat, b: nat :: e(a, b) && a != pos && b != pos ==> e'(Renumbered(a, pos), Renumbered(b, pos)))
    && (forall i: nat, j: nat :: e'(i, j) ==> e(Original(i, pos), Original(j, pos)))
  }

  function Original(i: nat, pos: nat): (u: nat)
    ensures u != pos && Renumbered(u, pos) == i
  {
    if i < pos then i else i + 1
  }

  /** Each edge that is left goes forward in the order, with the ids that the nodes have now. */
  ghost predicate GoesOn(e: Edges, pos: nat, order: seq<nat>) {
    forall a: nat, b: nat :: e(a, b) && a != pos && b != pos ==>
      Before(order, Renumbered(a, pos), Renumbered(b, pos))
  }

  /** A node is removed: the order that is left is right exactly when the edges go forward under their new ids. */
  lemma ForwardWithout(e: Edges, e': Edges, n: nat, pos: nat, order: seq<nat>)
    requires Within(e', n) && Permutation(order, n) && LeftOver(e, e', pos)
    ensures Forward(e', order) <==> GoesOn(e, pos, order)
  {
    ForwardByPlaces(e', n, order);
    if GoesOn(e, pos, order) {
      forall i: nat, j: nat | e'(i, j)
        ensures Before(order, i, j)
      {
        assert e(Original(i, pos), Original(j, pos));
      }
    }
  }

  /** The node with the highest id is removed, and came first: no other is renumbered, and the rest stays in order. */
  lemma FirstGoes(e: Edges, n: nat, order: seq<nat>)
    requires Within(e, n + 1) && Permutation(order, n + 1) && order[0] == n && Forward(e, order)
    ensures GoesOn(e, n, order[1..])
  {
    WithoutFirst(order, n);
    ForwardByPlaces(e, n + 1, order);
    var rest := order[1..];
    forall a: nat, b: nat | e(a, b) && a != n && b != n
      ensures Before(rest, a, b)
    {
      var i, j := Place(order, a), Place(order, b);
      assert Before(order, a, b) && i > 0;
      assert rest[i - 1] == a && rest[j - 1] == b;
      PlaceAt(rest, i - 1);
      PlaceAt(rest, j - 1);
    }
  }

  lemma Surjective(order: seq<nat>, n: nat)
    requires Permutation(order, n)
    ensures forall x: nat :: x < n ==> x in order
  {
    if x: nat :| x < n && x !in order {
      Pigeonhole(order + [x], n);
    }
  }

  lemma {:induction false} PathGoesForward(e: Edges, n: nat, order: seq<nat>, p: seq<nat>, k: nat)
    requires Within(e, n) && Forward(e, order) && IsPath(e, p) && 1 <= k < |p|
    requires forall x: nat :: x < n ==> x in order
    ensures p[0] < n && p[k] < n && Place(order, p[0]) < Place(order, p[k])
  {
    assert e(p[k - 1], p[k]);
    if k > 1 {
      PathGoesForward(e, n, order, p, k - 1);
    }
  }

  /** The order a finished search gives: topological exactly when there is no cycle. */
  lemma FirstOrder(e: Edges, n: nat, pre: seq<int>, done: seq<nat>) returns (order: seq<nat>)
    requires Within(e, n) && Progress(e, n, 0, pre, done, []) && forall u: nat :: u < n ==> u in done
    ensures Permutation(order, n) && Reversed(order) == done
    ensures forall u :: 0 <= u < n ==> pre[u] != -1
    ensures Forward(e, order) <==> Acyclic(e)
  {
    assert done + [] == done;
    AllFinished(e, n, pre, done);
    order := Reversed(done);
    if Acyclic(e) {
      FinishedIsForward(e, n, pre, done);
    } else if Forward(e, order) {
      ForwardMeansAcyclic(e, n, order);
    }
  }

  /** Everything a node needs comes before it: its successors when starting, its predecessors when stopping. */
  ghost predicate SuccessorsFirst(e: Edges, s: seq<nat>) {
    forall i: nat, w: nat :: i < |s| && e(s[i], w) ==> w in s[..i]
  }

  ghost predicate PredecessorsFirst(e: Edges, s: seq<nat>) {
    forall i: nat, u: nat :: i < |s| && e(u, s[i]) ==> u in s[..i]
  }

  lemma StopOrder(e: Edges, n: nat, order: seq<nat>)
    requires Within(e, n) && Permutation(order, n) && Forward(e, order)
    ensures PredecessorsFirst(e, order)
  {
    Surjective(order, n);
    forall i: nat, u: nat | i < |order| && e(u, order[i])
      ensures u in order[..i]
    {
      assert order[Place(order, u)] == u;
    }
  }

  lemma StartOrder(e: Edges, n: nat, order: seq<nat>)
    requires Within(e, n) && Permutation(order, n) && Forward(e, order)
    ensures SuccessorsFirst(e, Reversed(order))
  {
    var s := Reversed(order);
    Surjective(order, n);
    forall i: nat, w: nat | i < |s| && e(s[i], w)
      ensures w in s[..i]
    {
      var k := n - 1 - Place(order, w);
      assert e(order[n - 1 - i], order[n - 1 - k]);
      assert s[..i][k] == w;
    }
  }
}
