/**
 * The module graph (core/Graph.cpp): nodes with consecutive ids, and an adjacency matrix
 * whose rows are pointers that are moved when a node goes.
 */
module Graphs {
  import opened Sequences
  import opened Topology

  const RESERVED := 30

  datatype Cell = Null | Edge(id: nat)

  type Cells = seq<seq<Cell>>

  class Node {
    var id: nat

    constructor (id: nat)
      ensures this.id == id
    {
      this.id := id;
    }
  }

  // ----- The matrix as a value

  /** A full matrix with nothing stored outside the square of the first n nodes. */
  ghost predicate Square(c: Cells, n: nat) {
    && |c| == RESERVED
    && (forall i :: 0 <= i < RESERVED ==> |c[i]| == RESERVED)
    && (forall i, j :: 0 <= i < RESERVED && 0 <= j < RESERVED && (n <= i || n <= j) ==> c[i][j] == Null)
  }

  /** The old index of a node that survives the removal of node pos. */
  function Surviving(i: nat, pos: nat): nat { if i < pos then i else i + 1 }

  /** A row without column pos, for a graph of n nodes. */
  function WithoutColumn(row: seq<Cell>, pos: nat, n: nat): (r: seq<Cell>)
    requires pos < n <= |row|
    ensures |r| == |row|
  {
    row[..pos] + row[pos + 1..n] + [Null] + row[n..]
  }

  function Cleared(row: seq<Cell>, n: nat): (r: seq<Cell>)
    requires n <= |row|
    ensures |r| == |row|
  {
    seq(n, _ => Null) + row[n..]
  }

  /** The rows with row pos moved behind row n. */
  function MovedRow<T>(rows: seq<T>, pos: nat, n: nat): (r: seq<T>)
    requires pos <= n < |rows|
    ensures |r| == |rows|
  {
    rows[..pos] + rows[pos + 1..n + 1] + [rows[pos]] + rows[n + 1..]
  }

  /** Moving a row keeps the rows a permutation of what they were. */
  lemma MovedRowPermutes<T>(rows: seq<T>, pos: nat, n: nat)
    requires pos <= n < |rows| && NoDuplicates(rows)
    ensures NoDuplicates(MovedRow(rows, pos, n))
    ensures forall x :: x in MovedRow(rows, pos, n) <==> x in rows
  {
    assert rows == rows[..pos] + [rows[pos]] + rows[pos + 1..n + 1] + rows[n + 1..];
    MovedRowAt(rows, pos, n);
  }

  lemma MovedRowAt<T>(rows: seq<T>, pos: nat, n: nat)
    requires pos <= n < |rows|
    ensures forall i :: 0 <= i < |rows| ==> MovedRow(rows, pos, n)[i] == rows[Origin(i, pos, n)]
  {
  }

  ghost function Origin(i: nat, pos: nat, n: nat): (k: nat)
    ensures pos <= n ==> k <= if i <= n then n else i
  {
    if i < pos || n < i then i else if i < n then i + 1 else pos
  }

  function WithoutColumns(c: Cells, pos: nat, n: nat): (r: Cells)
    requires pos < n <= |c| && forall i :: 0 <= i < n - 1 ==> n <= |c[i]|
    ensures |r| == |c|
  {
    seq(|c|, i requires 0 <= i < |c| => if i < n - 1 then WithoutColumn(c[i], pos, n) else c[i])
  }

  /** Clearing row pos, moving it out of the way and closing the gap in every other row. */
  function Removed(c: Cells, pos: nat, n: nat): (r: Cells)
    requires Square(c, n) && pos < n <= RESERVED
  {
    WithoutColumns(MovedRow(c[pos := Cleared(c[pos], n)], pos, n - 1), pos, n)
  }

  /** Matrix r is that of the graph induced by the nodes other than pos, with nothing outside it. */
  ghost predicate Induced(c: Cells, r: Cells, pos: nat, n: nat)
    requires Square(c, n) && pos < n <= RESERVED
  {
    && Square(r, n - 1)
    && forall i, j :: 0 <= i < n - 1 && 0 <= j < n - 1 ==> r[i][j] == c[Surviving(i, pos)][Surviving(j, pos)]
  }

  ghost predicate InducedCell(c: Cells, r: Cells, pos: nat, n: nat, i: nat, j: nat)
    requires Square(c, n) && pos < n <= RESERVED && |r| == RESERVED && i < RESERVED && j < RESERVED
  {
    && |r[i]| == RESERVED
    && r[i][j] == if i < n - 1 && j < n - 1 then c[Surviving(i, pos)][Surviving(j, pos)] else Null
  }

  lemma InducedByCells(c: Cells, r: Cells, pos: nat, n: nat)
    requires Square(c, n) && pos < n <= RESERVED && |r| == RESERVED
    requires forall i: nat, j: nat :: i < RESERVED && j < RESERVED ==> InducedCell(c, r, pos, n, i, j)
    ensures Induced(c, r, pos, n)
  {
    forall i: nat | i < RESERVED
      ensures |r[i]| == RESERVED
    {
      assert InducedCell(c, r, pos, n, i, 0);
    }
    forall i: nat, j: nat | i < RESERVED && j < RESERVED && (n - 1 <= i || n - 1 <= j)
      ensures r[i][j] == Null
    {
      assert InducedCell(c, r, pos, n, i, j);
    }
    forall i: nat, j: nat | i < n - 1 && j < n - 1
      ensures r[i][j] == c[Surviving(i, pos)][Surviving(j, pos)]
    {
      assert InducedCell(c, r, pos, n, i, j);
    }
  }

  lemma RemovedIsInduced(c: Cells, pos: nat, n: nat)
    requires Square(c, n) && pos < n <= RESERVED
    ensures Induced(c, Removed(c, pos, n), pos, n)
  {
    forall i: nat, j: nat | i < RESERVED && j < RESERVED
      ensures InducedCell(c, Removed(c, pos, n), pos, n, i, j)
    {
      RemovedAt(c, pos, n, i);
    }
    InducedByCells(c, Removed(c, pos, n), pos, n);
  }

  lemma RemovedAt(c: Cells, pos: nat, n: nat, i: nat)
    requires Square(c, n) && pos < n <= RESERVED && i < RESERVED
    ensures Removed(c, pos, n)[i] ==
            if i < n - 1 then WithoutColumn(c[Surviving(i, pos)], pos, n)
            else if i == n - 1 then Cleared(c[pos], n) else c[i]
  {
  }

  /** The edges between the first n nodes. */
  ghost function EdgesOf(c: Cells, n: nat): (e: Edges)
    ensures Within(e, n)
  {
    (i: nat, j: nat) => i < n && j < n && n <= |c| && j < |c[i]| && c[i][j] != Null
  }

  // ----- Steps on single rows

  method ClearRow(row: array<Cell>, n: nat)
    requires n <= row.Length
    modifies row
    ensures row[..] == Cleared(old(row[..]), n)
  {
    for i := 0 to n
      invariant forall j :: 0 <= j < i ==> row[j] == Null
      invariant row[i..] == old(row[i..])
    {
      if row[i] != Null {
        row[i] := Null;
      }
    }
  }

  /** The body of the last loop of removeNode, with memmove. */
  method RemoveColumn(row: array<Cell>, pos: nat, n: nat)
    requires pos < n <= row.Length
    modifies row
    ensures row[..] == WithoutColumn(old(row[..]), pos, n)
  {
    ghost var was := row[..];
    if row[pos] != Null {
      row[pos] := Null;
    }
    MoveDown(row, pos, n);
    row[n - 1] := Null;
    assert row[..] == was[..pos] + was[pos + 1..n] + [Null] + was[n..];
  }

  /** The memmove: one cell to the left. */
  method MoveDown(row: array<Cell>, pos: nat, n: nat)
    requires pos < n <= row.Length
    modifies row
    ensures row[..pos] == old(row[..pos]) && row[pos..n - 1] == old(row[pos + 1..n]) && row[n..] == old(row[n..])
  {
    forall j | pos <= j < n - 1 {
      row[j] := row[j + 1];
    }
  }

  ghost function Unvisited(n: nat): (s: seq<int>)
    ensures |s| == n && forall i :: 0 <= i < n ==> s[i] == -1
  {
    seq(n, _ => -1)
  }

  /** What postI holds: the nodes finished in this sort over the reversed order of an earlier one. */
  ghost predicate Numbered(known: seq<nat>, done: seq<nat>, postI: seq<int>) {
    && |done| <= |postI| && |known| <= |postI| && postI[..|done|] == done
    && (forall k :: |done| <= k < |known| ==> postI[k] == known[|known| - 1 - k])
    && (forall k :: |done| <= k < |postI| && |known| <= k ==> postI[k] == -1)
  }

  lemma NumberedNext(known: seq<nat>, done: seq<nat>, postI: seq<int>, v: nat)
    requires Numbered(known, done, postI) && |done| < |postI|
    ensures Numbered(known, done + [v], postI[|done| := v])
  {
  }

  /** The members of Graph that serve topoSort; none of the vectors is ever cleared. */
  class Search {
    var preOrder: seq<int>
    var postOrder: seq<int>
    var postI: seq<int>
    var cnt: nat
    var topoCnt: nat

    constructor ()
      ensures IsNew()
    {
      preOrder, postOrder, postI := [], [], [];
    }

    ghost predicate IsNew()
      reads this
    {
      preOrder == postOrder == postI == []
    }

    /**
     * The vectors hold the order that an earlier sort gave to the nodes that there were then,
     * and nothing else.
     */
    ghost predicate Kept(order: seq<nat>)
      reads this
    {
      && |preOrder| == |postOrder| == |postI| && Permutation(order, |order|)
      && (forall u :: 0 <= u < |preOrder| ==> (preOrder[u] != -1 <==> u < |order|))
      && Numbered(order, [], postI)
    }

    /** The first lines of topoSort. */
    method Begin(n: nat)
      modifies this
      ensures cnt == topoCnt == 0
      ensures preOrder == old(preOrder) + Unvisited(n) && postOrder == old(postOrder) + Unvisited(n)
      ensures postI == old(postI) + Unvisited(n)
    {
      topoCnt, cnt := 0, 0;
      for i := 0 to n
        invariant cnt == topoCnt == 0
        invariant preOrder == old(preOrder) + Unvisited(i) && postOrder == old(postOrder) + Unvisited(i)
        invariant postI == old(postI) + Unvisited(i)
      {
        assert Unvisited(i + 1) == Unvisited(i) + [-1];
        preOrder := preOrder + [-1];
        postOrder := postOrder + [-1];
        postI := postI + [-1];
      }
    }

    /** The search has finished the nodes of done and is inside those of stack. */
    ghost predicate Inside(e: Edges, n: nat, known: seq<nat>, done: seq<nat>, stack: seq<nat>)
      reads this
    {
      && n <= |preOrder| == |postOrder| == |postI| && topoCnt == |done|
      && (forall u :: n <= u < |preOrder| ==> (preOrder[u] != -1 <==> u < |known|))
      && Progress(e, n, |known|, preOrder, done, stack) && Numbered(known, done, postI)
    }

    method Prepare(ghost e: Edges, n: nat, ghost known: seq<nat>)
      requires Kept(known)
      modifies this
      ensures Inside(e, n, known, [], [])
    {
      Begin(n);
      NothingFinished(e, n, |known|, preOrder);
    }

    /** The first line of depthSearch. */
    method EnterNode(v: nat, ghost e: Edges, ghost n: nat, ghost known: seq<nat>, ghost done: seq<nat>,
                     ghost stack: seq<nat>)
      requires v < n && Inside(e, n, known, done, stack) && preOrder[v] == -1
      requires stack != [] ==> e(stack[|stack| - 1], v)
      modifies this
      ensures Inside(e, n, known, done, stack + [v])
    {
      Enter(e, n, |known|, preOrder, done, stack, v, cnt);
      preOrder := preOrder[v := cnt];
      cnt := cnt + 1;
    }

    /** The last lines of depthSearch. */
    method LeaveNode(v: nat, ghost e: Edges, ghost n: nat, ghost known: seq<nat>, ghost done: seq<nat>,
                     ghost stack: seq<nat>)
      requires v < n && Inside(e, n, known, done, stack + [v])
      requires forall w: nat :: e(v, w) ==> w < |known| || w in done + (stack + [v])
      modifies this
      ensures Inside(e, n, known, done + [v], stack)
    {
      Room(e, n, |known|, preOrder, done, stack + [v]);
      Leave(e, n, |known|, preOrder, done, stack, v);
      NumberedNext(known, done, postI, v);
      postOrder := postOrder[v := topoCnt];
      postI := postI[topoCnt := v];
      topoCnt := topoCnt + 1;
    }
  }

  /** The last loop of topoSort reads ids of nodes. */
  ghost predicate Readable(ids: seq<int>) {
    forall i :: 0 <= i < |ids| ==> 0 <= ids[i] < |ids|
  }

  /** Nothing has been sorted, or the end of what has been sorted is an order of n nodes. */
  ghost predicate Resorts(known: seq<nat>, n: nat) {
    known == [] || (n <= |known| && Permutation(known[|known| - n..], n))
  }

  lemma AllReadable(order: seq<nat>)
    requires Permutation(order, |order|)
    ensures Readable(Reversed(order))
  {
    assert forall i :: 0 <= i < |order| ==> order[i] in order;
  }

  lemma EndIsReadable(known: seq<nat>, n: nat)
    requires n <= |known| && Permutation(known, |known|)
    ensures Readable(Reversed(known[|known| - n..])) <==> Permutation(known[|known| - n..], n)
  {
    var end := known[|known| - n..];
    if Permutation(end, n) {
      AllReadable(end);
    } else if Readable(Reversed(end)) {
      assert forall i :: 0 <= i < n ==> end[i] == Reversed(end)[n - 1 - i];
    }
  }

  // ----- The graph

  class Graph {
    var nodes: seq<Node>
    const matrix: array<array<Cell>>
    const search: Search

    ghost predicate Shape()
      reads matrix
    {
      && matrix.Length == RESERVED
      && (forall i :: 0 <= i < RESERVED ==> matrix[i].Length == RESERVED)
      && NoDuplicates(matrix[..])
    }

    /** The allocated rows. */
    ghost function Rows(): set<array<Cell>>
      reads matrix
    {
      set row | row in matrix[..]
    }

    ghost function Contents(): (c: Cells)
      requires Shape()
      reads matrix, Rows()
      ensures |c| == RESERVED && forall i :: 0 <= i < RESERVED ==> c[i] == matrix[i][..]
    {
      seq(RESERVED, i requires 0 <= i < RESERVED && matrix.Length == RESERVED reads matrix, Rows() => matrix[i][..])
    }

    /** Ids are indices, and nothing is stored outside the square of live nodes. */
    ghost predicate Valid()
      reads this, matrix, Rows(), nodes
    {
      && Shape() && |nodes| < RESERVED
      && (forall i :: 0 <= i < |nodes| ==> nodes[i].id == i)
      && Square(Contents(), |nodes|)
    }

    constructor ()
      ensures Valid() && nodes == [] && search.IsNew()
      ensures fresh(matrix) && fresh(Rows()) && fresh(search)
    {
      nodes := [];
      search := new Search();
      matrix := new array<Cell>[RESERVED];
      new;
      var i := 0;
      while i < RESERVED
        invariant 0 <= i <= RESERVED && nodes == [] && search.IsNew()
        invariant forall k :: 0 <= k < i ==> fresh(matrix[k]) && matrix[k].Length == RESERVED
        invariant forall k, l :: 0 <= k < l < i ==> matrix[k] != matrix[l]
        invariant forall k, j :: 0 <= k < i && 0 <= j < RESERVED ==> matrix[k][j] == Null
        modifies matrix
      {
        matrix[i] := new Cell[RESERVED](_ => Null);
        i := i + 1;
      }
    }

    /** A cell outside the live square is already clear. */
    method ClearCell(i: nat, j: nat)
      requires Shape() && i < RESERVED && j < RESERVED && Contents()[i][j] == Null
      modifies Rows()
      ensures Contents() == old(Contents())
    {
      matrix[i][j] := Null;
      assert Contents()[i] == old(Contents())[i];
    }

    /** addNode: false when the matrix is full, where the source throws. */
    method AddNode() returns (added: bool, n: Node)
      requires Valid()
      modifies this, Rows()
      ensures Valid() && Contents() == old(Contents())
      ensures added == (|old(nodes)| + 1 < RESERVED)
      ensures fresh(n) && nodes == if added then old(nodes) + [n] else old(nodes)
    {
      n := new Node(|nodes|);
      if |nodes| + 1 >= RESERVED {
        return false, n;
      }
      nodes := nodes + [n];
      var last := |nodes| - 1;
      for i := 0 to |nodes|
        invariant nodes == old(nodes) + [n] && forall k :: 0 <= k <= last ==> nodes[k].id == k
        invariant Contents() == old(Contents())
      {
        ClearCell(i, last);
        ClearCell(last, i);
      }
      added := true;
    }

    /** addEdge: false when the nodes are already connected, where the source throws. */
    method AddEdge(n1: Node, n2: Node) returns (added: bool)
      requires Valid() && n1 in nodes && n2 in nodes
      modifies Rows()
      ensures Valid() && n1.id < |nodes| && n2.id < |nodes|
      ensures added == (old(matrix[n1.id][n2.id]) == Null)
      ensures matrix[n1.id][n2.id] != Null
      ensures forall i, j :: 0 <= i < RESERVED && 0 <= j < RESERVED && !(added && i == n1.id && j == n2.id) ==>
                matrix[i][j] == old(matrix[i][j])
    {
      assert n1.id < |nodes| && n2.id < |nodes|;
      if matrix[n1.id][n2.id] != Null {
        return false;
      }
      ghost var before := Contents();
      matrix[n1.id][n2.id] := Edge(n1.id * 0x1_0000 + n2.id);
      assert forall i, j :: 0 <= i < RESERVED && 0 <= j < RESERVED && !(i == n1.id && j == n2.id) ==>
          matrix[i][j] == before[i][j];
      added := true;
    }

    /** The first loop of removeNode: the edges in the node's row. */
    method ClearNode(pos: nat)
      requires Shape() && pos < |nodes| <= RESERVED
      modifies Rows()
      ensures Contents() == old(Contents())[pos := Cleared(old(Contents())[pos], |nodes|)]
    {
      ClearRow(matrix[pos], |nodes|);
    }

    /** The loop of removeNode that renumbers the nodes behind pos and moves their rows up. */
    method MovePointers(pos: nat)
      requires matrix.Length == RESERVED && pos <= |nodes| < RESERVED
      requires forall i :: 0 <= i < |nodes| ==> nodes[i].id == Surviving(i, pos)
      modifies matrix, nodes
      ensures matrix[..] == MovedRow(old(matrix[..]), pos, |nodes|)
      ensures forall i :: 0 <= i < |nodes| ==> nodes[i].id == i
    {
      var oldLine := matrix[pos];
      ghost var before := matrix[..];
      for i := pos to |nodes|
        invariant forall k :: pos <= k < i ==> matrix[k] == before[k + 1]
        invariant forall k :: 0 <= k < RESERVED && (k < pos || i <= k) ==> matrix[k] == before[k]
        invariant forall k :: 0 <= k < |nodes| ==> nodes[k].id == if k < i then k else Surviving(k, pos)
      {
        assert forall k :: 0 <= k < |nodes| && k != i ==> nodes[k] != nodes[i];
        nodes[i].id := i;
        matrix[i] := matrix[i + 1];
      }
      matrix[|nodes|] := oldLine;
    }

    /** With the row pointers, the rows have moved. */
    method MoveRows(pos: nat)
      requires Shape() && pos <= |nodes| < RESERVED
      requires forall i :: 0 <= i < |nodes| ==> nodes[i].id == Surviving(i, pos)
      modifies matrix, nodes
      ensures Shape() && Rows() == old(Rows()) && Contents() == MovedRow(old(Contents()), pos, |nodes|)
      ensures forall i :: 0 <= i < |nodes| ==> nodes[i].id == i
    {
      ghost var before, contents := matrix[..], Contents();
      MovePointers(pos);
      MovedRowPermutes(before, pos, |nodes|);
      MovedRowAt(before, pos, |nodes|);
      MovedRowAt(contents, pos, |nodes|);
      forall i | 0 <= i < RESERVED
        ensures matrix[i].Length == RESERVED && matrix[i][..] == MovedRow(contents, pos, |nodes|)[i]
      {
        assert matrix[i] == matrix[..][i] == before[Origin(i, pos, |nodes|)];
      }
    }

    /** The loop of removeNode over the columns. */
    method RemoveColumns(pos: nat, n: nat)
      requires Shape() && pos < n < RESERVED
      modifies Rows()
      ensures Contents() == WithoutColumns(old(Contents()), pos, n)
    {
      for i := 0 to n - 1
        invariant forall k :: 0 <= k < RESERVED ==>
          matrix[k][..] == if k < i then WithoutColumn(old(matrix[k][..]), pos, n) else old(matrix[k][..])
      {
        RemoveColumn(matrix[i], pos, n);
      }
    }

    /** The steps of removeNode, for a node that is in the graph. */
    method RemoveAt(pos: nat)
      requires Valid() && pos < |nodes|
      modifies this, matrix, Rows(), nodes
      ensures Shape() && Rows() == old(Rows())
      ensures nodes == old(nodes)[..pos] + old(nodes)[pos + 1..]
      ensures forall i :: 0 <= i < |nodes| ==> nodes[i].id == i
      ensures Contents() == Removed(old(Contents()), pos, |old(nodes)|)
    {
      var size := |nodes|;
      Erase(pos);
      MoveRows(pos);
      RemoveColumns(pos, size);
    }

    /** The node and the edges in its row are gone. */
    method Erase(pos: nat)
      requires Valid() && pos < |nodes|
      modifies this, Rows()
      ensures Shape() && nodes == old(nodes)[..pos] + old(nodes)[pos + 1..]
      ensures forall i :: 0 <= i < |nodes| ==> nodes[i].id == Surviving(i, pos)
      ensures Contents() == old(Contents())[pos := Cleared(old(Contents())[pos], |old(nodes)|)]
    {
      ClearNode(pos);
      nodes := nodes[..pos] + nodes[pos + 1..];
    }

    /**
     * removeNode: false when the node is not in the graph, where the source throws.
     * The rows stay a permutation of the allocated ones: the same set, without repetition.
     */
    method RemoveNode(n: Node) returns (removed: bool)
      requires Valid()
      modifies this, matrix, Rows(), nodes
      ensures Valid() && Rows() == old(Rows())
      ensures removed <==> n in old(nodes)
      ensures !removed ==> nodes == old(nodes) && Contents() == old(Contents())
      ensures removed ==>
                var pos := old(n.id);
                && pos < |old(nodes)| && nodes == old(nodes)[..pos] + old(nodes)[pos + 1..]
                && Induced(old(Contents()), Contents(), pos, |old(nodes)|)
    {
      if n !in nodes {
        return false;
      }
      RemovedIsInduced(Contents(), n.id, |nodes|);
      RemoveAt(n.id);
      removed := true;
    }

    /** The relation e is the one that the matrix stores. */
    ghost predicate Matches(e: Edges)
      requires Shape()
      reads this, matrix, Rows()
    {
      && |nodes| < RESERVED && Within(e, |nodes|)
      && forall i: nat, j: nat :: i < |nodes| && j < |nodes| ==> (e(i, j) <==> matrix[i][j] != Null)
    }

    lemma MatrixMatches()
      requires Valid()
      ensures Matches(EdgesOf(Contents(), |nodes|))
    {
    }

    /** getDestinations: the successors of a node, by rising id. */
    method GetDestinations(n: Node, ghost e: Edges) returns (result: seq<Node>)
      requires Valid() && Matches(e) && n in nodes
      ensures forall k :: 0 <= k < |result| ==> result[k] in nodes && e(n.id, result[k].id)
      ensures forall w: nat :: e(n.id, w) ==> nodes[w] in result
      ensures forall k, l :: 0 <= k < l < |result| ==> result[k].id < result[l].id
    {
      result := [];
      var a := n.id;
      for b := 0 to |nodes|
        invariant forall k :: 0 <= k < |result| ==>
          result[k] in nodes && e(a, result[k].id) && result[k].id < b
        invariant forall w: nat :: w < b && e(a, w) ==> nodes[w] in result
        invariant forall k, l :: 0 <= k < l < |result| ==> result[k].id < result[l].id
      {
        if matrix[a][b] != Null {
          result := result + [nodes[b]];
        }
      }
    }

    /** depthSearch. */
    method DepthSearch(v: Node, ghost e: Edges, ghost known: seq<nat>, ghost done: seq<nat>, ghost stack: seq<nat>)
      returns (ghost done': seq<nat>)
      requires Valid() && Matches(e) && v in nodes
      requires search.Inside(e, |nodes|, known, done, stack) && search.preOrder[v.id] == -1
      requires stack != [] ==> e(stack[|stack| - 1], v.id)
      modifies search
      ensures search.Inside(e, |nodes|, known, done', stack) && done <= done' && v.id in done'
      decreases |nodes| - |done| - |stack|, 0
    {
      ghost var grey := stack + [v.id];
      search.EnterNode(v.id, e, |nodes|, known, done, stack);
      Room(e, |nodes|, |known|, search.preOrder, done, grey);
      var outNodes := GetDestinations(v, e);
      done' := SearchAll(outNodes, v.id, e, known, done, grey);
      search.LeaveNode(v.id, e, |nodes|, known, done', stack);
      done' := done' + [v.id];
    }

    /** The loop of depthSearch. */
    method SearchAll(outNodes: seq<Node>, ghost v: nat, ghost e: Edges, ghost known: seq<nat>,
                     ghost done: seq<nat>, ghost grey: seq<nat>)
      returns (ghost done': seq<nat>)
      requires Valid() && Matches(e) && search.Inside(e, |nodes|, known, done, grey)
      requires grey != [] && v == grey[|grey| - 1]
      requires forall k :: 0 <= k < |outNodes| ==> outNodes[k] in nodes && e(v, outNodes[k].id)
      requires forall w: nat :: e(v, w) ==> nodes[w] in outNodes
      modifies search
      ensures search.Inside(e, |nodes|, known, done', grey) && done <= done'
      ensures forall w: nat :: e(v, w) ==> w < |known| || w in done' + grey
      decreases |nodes| - |done| - |grey|, 1
    {
      done' := done;
      for i := 0 to |outNodes|
        invariant search.Inside(e, |nodes|, known, done', grey) && done <= done'
        invariant forall k :: 0 <= k < i ==> outNodes[k].id < |known| || outNodes[k].id in done' + grey
      {
        var other := outNodes[i];
        if search.preOrder[other.id] == -1 {
          Room(e, |nodes|, |known|, search.preOrder, done', grey);
          ghost var before := done';
          done' := DepthSearch(other, e, known, before, grey);
          PrefixKeeps(before, done', grey);
        }
      }
      forall w: nat | e(v, w)
        ensures w < |known| || w in done' + grey
      {
        var k: nat :| k < |outNodes| && outNodes[k] == nodes[w];
      }
    }

    /** The loop of topoSort over all nodes. */
    method SearchNodes(ghost e: Edges, ghost known: seq<nat>) returns (ghost done: seq<nat>)
      requires Valid() && Matches(e) && search.Inside(e, |nodes|, known, [], [])
      modifies search
      ensures search.Inside(e, |nodes|, known, done, [])
      ensures forall u: nat :: |known| <= u < |nodes| ==> u in done
    {
      done := [];
      for i := 0 to |nodes|
        invariant search.Inside(e, |nodes|, known, done, [])
        invariant forall u: nat :: |known| <= u < i ==> u in done
      {
        ghost var before := done;
        if search.preOrder[i] == -1 {
          done := DepthSearch(nodes[i], e, known, before, []);
        }
        PrefixKeeps(before, done, []);
        assert before + [] == before && done + [] == done;
        assert |known| <= i ==> i in done;
      }
    }

    /** The nodes of the graph with the given ids. */
    ghost predicate Names(s: seq<Node>, ids: seq<nat>)
      reads this
    {
      |s| == |ids| && forall k :: 0 <= k < |s| ==> ids[k] < |nodes| && s[k] == nodes[ids[k]]
    }

    /** The last loop of topoSort: false where the source reads outside the nodes. */
    method Collect(ghost order: seq<nat>) returns (readable: bool, result: seq<Node>)
      requires |nodes| <= |search.postI|
      requires Readable(search.postI[..|nodes|]) ==>
                 Permutation(order, |nodes|) && search.postI[..|nodes|] == Reversed(order)
      ensures readable <==> Readable(search.postI[..|nodes|])
      ensures readable ==> Names(result, order)
    {
      ghost var read := search.postI[..|nodes|];
      result := [];
      var nz := |nodes|;
      for i := 0 to nz
        invariant forall k :: 0 <= k < i ==> 0 <= read[k] < nz
        invariant |result| == i
        invariant forall k :: 0 <= k < i ==> result[k] == nodes[read[i - 1 - k]]
      {
        assert read[i] == search.postI[i];
        if !(0 <= search.postI[i] < nz) {
          return false, [];
        }
        result := [nodes[search.postI[i]]] + result;
      }
      readable := true;
      forall k | 0 <= k < nz
        ensures order[k] < nz && result[k] == nodes[order[k]]
      {
        assert order[k] == Reversed(order)[nz - 1 - k] == read[nz - 1 - k];
      }
    }

    /**
     * topoSort, after any sorts and changes of the graph.  The vectors are never cleared: known
     * is the order that an earlier sort has left in them.  The first sort is topological exactly
     * when the graph has no cycle.  A later one gives back the end of the order that it finds,
     * and reads outside the nodes exactly when this is no order of the nodes.
     */
    method TopoSort(ghost e: Edges, ghost known: seq<nat>)
      returns (readable: bool, result: seq<Node>, ghost order: seq<nat>)
      requires Valid() && Matches(e) && search.Kept(known)
      modifies search
      ensures readable <==> Resorts(known, |nodes|)
      ensures readable ==> Permutation(order, |nodes|) && Names(result, order)
      ensures readable ==> search.Kept(if known == [] then order else known)
      ensures known == [] ==> (Forward(e, order) <==> Acyclic(e))
      ensures readable && known != [] ==> order == known[|known| - |nodes|..]
    {
      search.Prepare(e, |nodes|, known);
      ghost var done := SearchNodes(e, known);
      order := SortedOrder(e, known, done);
      readable, result := Collect(order);
    }

    /** What a finished search leaves for the last loop. */
    lemma SortedOrder(e: Edges, known: seq<nat>, done: seq<nat>) returns (order: seq<nat>)
      requires Within(e, |nodes|) && Permutation(known, |known|) && search.Inside(e, |nodes|, known, done, [])
      requires forall u: nat :: |known| <= u < |nodes| ==> u in done
      ensures Readable(search.postI[..|nodes|]) <==> Resorts(known, |nodes|)
      ensures Resorts(known, |nodes|) ==> search.Kept(if known == [] then order else known)
      ensures Resorts(known, |nodes|) ==> Permutation(order, |nodes|) && search.postI[..|nodes|] == Reversed(order)
      ensures known == [] ==> (Forward(e, order) <==> Acyclic(e))
      ensures Resorts(known, |nodes|) && known != [] ==> order == known[|known| - |nodes|..]
    {
      var n := |nodes|;
      if known == [] {
        order := FirstOrder(e, n, search.preOrder, done);
        AllReadable(order);
      } else {
        FewFinished(e, n, |known|, search.preOrder, done);
        if n <= |known| {
          order := known[|known| - n..];
          assert search.postI[..n] == Reversed(order);
          EndIsReadable(known, n);
        } else {
          order := known;
          assert search.postI[..n][n - 1] == -1;
        }
      }
    }
  }

  lemma PrefixKeeps(a: seq<nat>, b: seq<nat>, rest: seq<nat>)
    requires a <= b
    ensures forall x :: x in a + rest ==> x in b + rest
    ensures forall x :: x in b ==> x in b + rest
  {
    assert b == a + b[|a|..];
  }

  // ----- Graphs changed since they were sorted

  ghost function Relation(g: Graph): Edges
    requires g.Shape()
    reads g, g.matrix, g.Rows()
  {
    EdgesOf(g.Contents(), |g.nodes|)
  }

  twostate lemma SameRelation(g: Graph)
    requires old(g.Shape()) && unchanged(g, g.matrix) && forall i :: 0 <= i < RESERVED ==> unchanged(g.matrix[i])
    ensures g.Shape() && Relation(g) == old(Relation(g))
  {
    assert forall i :: 0 <= i < RESERVED ==> g.Contents()[i] == old(g.Contents()[i]);
    assert g.Contents() == old(g.Contents());
  }

  /** topoSort on a graph that has not been sorted. */
  method SortNew(g: Graph, ghost e: Edges) returns (readable: bool, result: seq<Node>, ghost order: seq<nat>)
    requires g.Valid() && g.search.Kept([]) && e == Relation(g)
    modifies g.search
    ensures readable && Permutation(order, |g.nodes|) && g.Names(result, order) && g.search.Kept(order)
    ensures (Forward(e, order) <==> Acyclic(e)) && Relation(g) == e
  {
    g.MatrixMatches();
    readable, result, order := SortFresh(g, e);
    SameRelation(g);
  }

  method SortFresh(g: Graph, ghost e: Edges) returns (readable: bool, result: seq<Node>, ghost order: seq<nat>)
    requires g.Valid() && g.Matches(e) && g.search.Kept([])
    modifies g.search
    ensures readable && Permutation(order, |g.nodes|) && g.Names(result, order) && g.search.Kept(order)
    ensures Forward(e, order) <==> Acyclic(e)
  {
    readable, result, order := g.TopoSort(e, []);
  }

  /** topoSort on a graph that has been sorted before. */
  method Resort(g: Graph, ghost known: seq<nat>) returns (readable: bool, result: seq<Node>)
    requires g.Valid() && g.search.Kept(known) && known != []
    modifies g.search
    ensures readable <==> Resorts(known, |g.nodes|)
    ensures readable ==> g.Names(result, known[|known| - |g.nodes|..])
    ensures Relation(g) == old(Relation(g))
  {
    g.MatrixMatches();
    ghost var order;
    readable, result, order := g.TopoSort(Relation(g), known);
    SameRelation(g);
  }

  /** A sorted graph to which a node has been added cannot be sorted again as long as it has that many nodes. */
  method SortAfterAdding(g: Graph, ghost known: seq<nat>) returns (added: bool, readable: bool)
    requires g.Valid() && g.search.Kept(known) && known != [] && |known| == |g.nodes|
    modifies g, g.Rows(), g.search
    ensures added <==> |known| + 1 < RESERVED
    ensures added ==> !readable
  {
    var node, result;
    added, node := g.AddNode();
    readable, result := Resort(g, known);
  }

  /** One edge more in the matrix is one edge more in the graph. */
  lemma OneEdgeMore(c: Cells, c': Cells, n: nat, a: nat, b: nat)
    requires Square(c, n) && Square(c', n) && a < n <= RESERVED && b < n && c[a][b] == Null != c'[a][b]
    requires forall i, j :: 0 <= i < RESERVED && 0 <= j < RESERVED && !(i == a && j == b) ==> c'[i][j] == c[i][j]
    ensures forall i: nat, j: nat :: EdgesOf(c', n)(i, j) <==> EdgesOf(c, n)(i, j) || (i == a && j == b)
  {
  }

  /** The order of a graph with one edge more is right exactly when this edge goes forward in it. */
  lemma ForwardWithEdge(e: Edges, e': Edges, n: nat, order: seq<nat>, a: nat, b: nat)
    requires Within(e, n) && Within(e', n) && Permutation(order, n) && Forward(e, order) && !e(a, b)
    requires forall i: nat, j: nat :: e'(i, j) <==> e(i, j) || (i == a && j == b)
    ensures Forward(e', order) <==> Before(order, a, b)
  {
    StillForward(e, e', n, order);
    assert e'(a, b);
  }

  /** addEdge on a graph that is sorted by the given order. */
  method AddToSorted(g: Graph, n1: Node, n2: Node, ghost known: seq<nat>) returns (added: bool)
    requires g.Valid() && Permutation(known, |g.nodes|) && Forward(Relation(g), known) && n1 in g.nodes && n2 in g.nodes
    modifies g.Rows()
    ensures g.Valid() && (added <==> !old(Relation(g))(n1.id, n2.id))
    ensures Forward(Relation(g), known) <==> !added || Before(known, n1.id, n2.id)
  {
    ghost var c, n := g.Contents(), |g.nodes|;
    added := g.AddEdge(n1, n2);
    if added {
      OneEdgeMore(c, g.Contents(), n, n1.id, n2.id);
      ForwardWithEdge(EdgesOf(c, n), Relation(g), n, known, n1.id, n2.id);
    } else {
      forall i | 0 <= i < RESERVED
        ensures g.Contents()[i] == c[i]
      {
        assert forall j :: 0 <= j < RESERVED ==> g.matrix[i][j] == old(g.matrix[i][j]);
      }
      assert g.Contents() == c;
    }
  }

  /** A sorted graph with an edge added is sorted again as before, which is right exactly when the edge goes forward. */
  method SortAfterAddingEdge(g: Graph, n1: Node, n2: Node, ghost known: seq<nat>)
    returns (added: bool, readable: bool, result: seq<Node>)
    requires g.Valid() && g.search.Kept(known) && known != [] && |known| == |g.nodes| && n1 in g.nodes && n2 in g.nodes
    requires Forward(Relation(g), known)
    modifies g.Rows(), g.search
    ensures readable && g.Valid() && g.Names(result, known) && (added <==> !old(Relation(g))(n1.id, n2.id))
    ensures Forward(Relation(g), known) <==> !added || Before(known, n1.id, n2.id)
  {
    added := AddToSorted(g, n1, n2, known);
    KnownResorts(known);
    readable, result := Resort(g, known);
  }

  /** Two nodes are sorted and then joined against the order: the graph has no cycle, and the order stays wrong. */
  method SortTwoJoinSort(g: Graph) returns (readable: bool, result: seq<Node>, ghost order: seq<nat>)
    requires g.Valid() && g.search.IsNew() && |g.nodes| == 2
    requires forall i: nat, j: nat :: !Relation(g)(i, j)
    modifies g.Rows(), g.search
    ensures readable && g.Valid() && g.Names(result, order) && Acyclic(Relation(g)) && !Forward(Relation(g), order)
  {
    readable, result, order := SortNew(g, Relation(g));
    NoEdges(Relation(g), order);
    readable, result := JoinAndSort(g, result, order);
  }

  lemma NoEdges(e: Edges, order: seq<nat>)
    requires forall i: nat, j: nat :: !e(i, j)
    ensures Forward(e, order)
  {
  }

  method JoinAndSort(g: Graph, sorted: seq<Node>, ghost order: seq<nat>) returns (readable: bool, result: seq<Node>)
    requires g.Valid() && g.search.Kept(order) && |order| == 2 == |g.nodes| && g.Names(sorted, order)
    requires forall i: nat, j: nat :: !Relation(g)(i, j)
    modifies g.Rows(), g.search
    ensures readable && g.Valid() && g.Names(result, order) && Acyclic(Relation(g)) && !Forward(Relation(g), order)
  {
    var added := JoinAgainst(g, sorted[1], sorted[0]);
    KnownResorts(order);
    JoinedBackwards(Relation(g), order);
    readable, result := Resort(g, order);
  }

  /** The first edge of a graph. */
  method JoinAgainst(g: Graph, n1: Node, n2: Node) returns (added: bool)
    requires g.Valid() && n1 in g.nodes && n2 in g.nodes && forall i: nat, j: nat :: !Relation(g)(i, j)
    modifies g.Rows()
    ensures g.Valid() && added && forall i: nat, j: nat :: Relation(g)(i, j) <==> i == n1.id && j == n2.id
  {
    ghost var c, n, e := g.Contents(), |g.nodes|, Relation(g);
    assert n1.id < n && n2.id < n && !e(n1.id, n2.id) && e == EdgesOf(c, n);
    added := g.AddEdge(n1, n2);
    OneEdgeMore(c, g.Contents(), n, n1.id, n2.id);
    assert forall i: nat, j: nat :: Relation(g)(i, j) <==> e(i, j) || (i == n1.id && j == n2.id);
  }

  lemma JoinedBackwards(e: Edges, order: seq<nat>)
    requires Permutation(order, 2) && forall i: nat, j: nat :: e(i, j) <==> i == order[1] && j == order[0]
    ensures Acyclic(e) && !Forward(e, order)
  {
    assert order[0] in order && order[1] in order;
    assert e(order[1], order[0]);
    ForwardMeansAcyclic(e, 2, [order[1], order[0]]);
  }

  /** What a removal leaves of the graph. */
  lemma InducedEdges(c: Cells, c': Cells, pos: nat, n: nat)
    requires Square(c, n) && pos < n <= RESERVED && Induced(c, c', pos, n)
    ensures LeftOver(EdgesOf(c, n), EdgesOf(c', n - 1), pos)
  {
    var e, e' := EdgesOf(c, n), EdgesOf(c', n - 1);
    forall a: nat, b: nat | e(a, b) && a != pos && b != pos
      ensures e'(Renumbered(a, pos), Renumbered(b, pos))
    {
      var i, j := Renumbered(a, pos), Renumbered(b, pos);
      assert Surviving(i, pos) == a && Surviving(j, pos) == b && i < n - 1 && j < n - 1;
      assert c'[i][j] == c[Surviving(i, pos)][Surviving(j, pos)];
    }
    forall i: nat, j: nat | e'(i, j)
      ensures e(Original(i, pos), Original(j, pos))
    {
      assert c'[i][j] == c[Surviving(i, pos)][Surviving(j, pos)];
    }
  }

  /**
   * A sorted graph without one of its nodes can be sorted again exactly when the node with the
   * highest id came first.  The order is then right exactly when the edges that are left go
   * forward in it, with the ids that the nodes have now; it always is when that very node goes.
   */
  method SortAfterRemoving(g: Graph, n: Node, ghost known: seq<nat>)
    returns (readable: bool, result: seq<Node>, ghost order: seq<nat>)
    requires g.Valid() && g.search.Kept(known) && |known| == |g.nodes| && n in g.nodes && Forward(Relation(g), known)
    modifies g, g.matrix, g.Rows(), g.nodes, g.search
    ensures g.Valid() && LeftOver(old(Relation(g)), Relation(g), old(n.id)) && (readable <==> known[0] == |known| - 1)
    ensures readable ==> order == known[1..] && g.Names(result, order)
    ensures readable ==> (Forward(Relation(g), order) <==> GoesOn(old(Relation(g)), old(n.id), order))
    ensures readable && old(n.id) == |known| - 1 ==> Forward(Relation(g), order)
  {
    WithoutFirst(known, |known| - 1);
    RemoveFromSorted(g, n, known);
    order := known[1..];
    readable, result := Resort(g, known);
  }

  /** What is left of a graph that was sorted by known, and of this order, when node pos is removed. */
  ghost predicate Remains(e: Edges, e': Edges, pos: nat, n: nat, known: seq<nat>)
    requires known != []
  {
    && LeftOver(e, e', pos)
    && (Permutation(known[1..], n) ==> (Forward(e', known[1..]) <==> GoesOn(e, pos, known[1..])))
    && (Permutation(known[1..], n) && pos == n ==> Forward(e', known[1..]))
  }

  /** removeNode on a graph that is sorted by the given order. */
  method RemoveFromSorted(g: Graph, n: Node, ghost known: seq<nat>)
    requires g.Valid() && Permutation(known, |g.nodes|) && n in g.nodes && Forward(Relation(g), known)
    modifies g, g.matrix, g.Rows(), g.nodes
    ensures g.Valid() && |g.nodes| + 1 == |known|
    ensures Remains(old(Relation(g)), Relation(g), old(n.id), |g.nodes|, known)
  {
    ghost var e, pos := Relation(g), n.id;
    RemoveAndCompare(g, n);
    RestAfterRemoving(e, Relation(g), pos, |g.nodes|, known);
  }

  method RemoveAndCompare(g: Graph, n: Node)
    requires g.Valid() && n in g.nodes
    modifies g, g.matrix, g.Rows(), g.nodes
    ensures g.Valid() && |g.nodes| + 1 == |old(g.nodes)|
    ensures LeftOver(old(Relation(g)), Relation(g), old(n.id))
  {
    ghost var c, pos, size := g.Contents(), n.id, |g.nodes|;
    var removed := g.RemoveNode(n);
    Compared(c, g.Contents(), pos, size, old(Relation(g)), Relation(g));
  }

  lemma Compared(c: Cells, c': Cells, pos: nat, n: nat, e: Edges, e': Edges)
    requires Square(c, n) && pos < n <= RESERVED && Induced(c, c', pos, n)
    requires e == EdgesOf(c, n) && e' == EdgesOf(c', n - 1)
    ensures LeftOver(e, e', pos)
  {
    InducedEdges(c, c', pos, n);
  }

  lemma RestAfterRemoving(e: Edges, e': Edges, pos: nat, n: nat, known: seq<nat>)
    requires Within(e, n + 1) && Within(e', n) && LeftOver(e, e', pos)
    requires Permutation(known, n + 1) && Forward(e, known)
    ensures Remains(e, e', pos, n, known)
  {
    if Permutation(known[1..], n) {
      WithoutFirst(known, n);
      ForwardWithout(e, e', n, pos, known[1..]);
      if pos == n {
        FirstGoes(e, n, known);
      }
    }
  }

  /** The edges 2 -> 0, 0 -> 1 and 2 -> 1. */
  ghost predicate Triangle(e: Edges) {
    forall i: nat, j: nat :: e(i, j) <==> (i == 2 && j == 0) || (i == 0 && j == 1) || (i == 2 && j == 1)
  }

  /** Three nodes are sorted as 2, 0, 1 and node 0 is removed: the edge that is left goes backward. */
  method SortThreeRemoveSort(g: Graph) returns (readable: bool, result: seq<Node>, ghost order: seq<nat>)
    requires g.Valid() && g.search.IsNew() && |g.nodes| == 3 && Triangle(Relation(g))
    modifies g, g.matrix, g.Rows(), g.nodes, g.search
    ensures readable && g.Valid() && g.Names(result, order) && Acyclic(Relation(g)) && !Forward(Relation(g), order)
  {
    ghost var known;
    readable, result, known := SortNew(g, Relation(g));
    ghost var e := Relation(g);
    TriangleOrder(e, known);
    readable, result, order := SortAfterRemoving(g, g.nodes[0], known);
    TriangleCut(e, Relation(g), order);
  }

  lemma TriangleCut(e: Edges, e': Edges, order: seq<nat>)
    requires Triangle(e) && LeftOver(e, e', 0) && Within(e', 2) && order == [0, 1]
    ensures Acyclic(e') && !Forward(e', order)
  {
    assert e(2, 1) && e'(Renumbered(2, 0), Renumbered(1, 0));
    assert e'(order[1], order[0]);
    ForwardMeansAcyclic(e', 2, [1, 0]);
  }

  lemma TriangleOrder(e: Edges, order: seq<nat>)
    requires Triangle(e) && Permutation(order, 3) && (Forward(e, order) <==> Acyclic(e))
    ensures order == [2, 0, 1] && Forward(e, order)
  {
    ForwardMeansAcyclic(e, 3, [2, 0, 1]);
    assert order[0] in order && order[1] in order && order[2] in order;
    Surjective(order, 3);
    ForwardByPlaces(e, 3, order);
    assert e(2, 0) && e(0, 1);
  }

  /** One node is sorted and another added: the second sort reads what was never written. */
  method SortOneAddSort(g: Graph) returns (added: bool, readable: bool)
    requires g.Valid() && g.search.IsNew() && |g.nodes| == 1
    modifies g, g.Rows(), g.search
    ensures added && !readable
  {
    ghost var order;
    var result;
    readable, result, order := SortNew(g, Relation(g));
    added, readable := SortAfterAdding(g, order);
  }

  // ----- Starting and stopping the modules (modules/ConfigManager.cpp)

  /** The graph is unsorted, or sorted by the given order and unchanged since. */
  ghost predicate Sortable(g: Graph, e: Edges, known: seq<nat>)
    reads g, g.matrix, g.Rows(), g.nodes, g.search
  {
    && g.Valid() && g.Matches(e)
    && g.search.Kept(known) && (known == [] || (|known| == |g.nodes| && (Forward(e, known) <==> Acyclic(e))))
  }

  /** topoSort as the modules are started and stopped with it. */
  method SortForUse(g: Graph, ghost e: Edges, ghost known: seq<nat>)
    returns (topoNodes: seq<Node>, ghost order: seq<nat>)
    requires Sortable(g, e, known)
    modifies g.search
    ensures g.search.Kept(order) && Permutation(order, |g.nodes|) && (Forward(e, order) <==> Acyclic(e))
    ensures g.Names(topoNodes, order)
  {
    KnownResorts(known);
    var readable;
    readable, topoNodes, order := g.TopoSort(e, known);
  }

  lemma KnownResorts(known: seq<nat>)
    requires Permutation(known, |known|)
    ensures Resorts(known, |known|) && known[|known| - |known|..] == known
  {
  }

  /** The start loop of parseConfig: a module starts after every module it sends to. */
  method StartAll(g: Graph, ghost e: Edges, ghost known: seq<nat>)
    returns (started: seq<Node>, ghost order: seq<nat>)
    requires Sortable(g, e, known)
    modifies g.search
    ensures g.search.Kept(order) && Permutation(order, |g.nodes|) && (Forward(e, order) <==> Acyclic(e))
    ensures g.Names(started, Reversed(order))
    ensures Acyclic(e) ==> SuccessorsFirst(e, Reversed(order))
  {
    var topoNodes;
    topoNodes, order := SortForUse(g, e, known);
    started := [];
    for i := 0 to |topoNodes|
      invariant |started| == i && forall k :: 0 <= k < i ==> started[k] == topoNodes[|topoNodes| - 1 - k]
    {
      started := started + [topoNodes[|topoNodes| - 1 - i]];
    }
    if Acyclic(e) {
      StartOrder(e, |g.nodes|, order);
    }
  }

  /** The first loop of shutdown: a module stops after every module that sends to it. */
  method StopAll(g: Graph, ghost e: Edges, ghost known: seq<nat>)
    returns (stopped: seq<Node>, ghost order: seq<nat>)
    requires Sortable(g, e, known)
    modifies g.search
    ensures g.search.Kept(order) && Permutation(order, |g.nodes|) && (Forward(e, order) <==> Acyclic(e))
    ensures g.Names(stopped, order)
    ensures Acyclic(e) ==> PredecessorsFirst(e, order)
  {
    var topoNodes;
    topoNodes, order := SortForUse(g, e, known);
    stopped := [];
    for i := 0 to |topoNodes|
      invariant stopped == topoNodes[..i]
    {
      stopped := stopped + [topoNodes[i]];
    }
    if Acyclic(e) {
      StopOrder(e, |g.nodes|, order);
    }
  }
}
