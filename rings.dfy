/**
 * The node arena of the two dancing-links solvers.  Node objects become
 * integer addresses: nodes 0 .. w-1 are the column headers and node
 * w + 4*x + k is the family-k constraint of matrix row x (k = 0 cell,
 * 1 row, 2 column, 3 box).  A node is a column header exactly when its
 * address is below w, which is how the model reads the source's
 * `instanceof Constraint` tests.  cols[p - w] is the column of constraint
 * node p.
 *
 * The vertical pointers above and below change; the right pointers are
 * fixed once a row is built, so a node's right neighbour is arithmetic
 * on its address (Right).  The invariant Ordered says a constraint's below
 * pointer goes to a smaller address, its above pointer to a larger one or
 * to a header, and every pointer stays within the node's column.  Every
 * detach and reattach keeps it, so every walk down or up a column ends at
 * that column's header.
 */
module Rings {

  /** The above and below pointer of every node, and the count of every column header. */
  datatype Links = Links(above: seq<int>, below: seq<int>, sums: seq<int>)

  /** The node of row x's family-k constraint. */
  function Node(w: int, x: int, k: int): int
  {
    w + 4 * x + k
  }

  /** The matrix row of constraint node p. */
  function RowOf(w: int, p: int): int
  {
    (p - w) / 4
  }

  /** The family of constraint node p. */
  function FamilyOf(w: int, p: int): int
  {
    (p - w) % 4
  }

  /** The source's right pointer of constraint node p: the next family of its row, the box node going back to the cell node. */
  function Right(w: int, p: int): int
  {
    if FamilyOf(w, p) == 3 then p - 3 else p + 1
  }

  /** The column of node p: a header is its own column. */
  function ColOf(cols: seq<int>, w: int, p: int): int
    requires 0 <= p < w + |cols|
  {
    if p < w then p else cols[p - w]
  }

  /** The pointer and count arrays fit w headers and |cols| constraint nodes. */
  predicate Arena(L: Links, cols: seq<int>, w: int)
  {
    w > 0 && |L.above| == w + |cols| && |L.below| == w + |cols| && |L.sums| == w
  }

  /** Four constraint nodes per row, each in a column of the arena. */
  predicate Columns(cols: seq<int>, w: int)
  {
    |cols| % 4 == 0 && forall i :: 0 <= i < |cols| ==> 0 <= cols[i] < w
  }

  /** Node p's pointers lie in the arena and in p's column, below to a smaller node, above to a larger one or a header. */
  predicate Hooked(L: Links, cols: seq<int>, w: int, p: int)
    requires Arena(L, cols, w) && 0 <= p < w + |cols|
  {
    0 <= L.below[p] < w + |cols| && 0 <= L.above[p] < w + |cols| &&
    ColOf(cols, w, L.below[p]) == ColOf(cols, w, p) && ColOf(cols, w, L.above[p]) == ColOf(cols, w, p) &&
    (p >= w ==> L.below[p] < p && (L.above[p] < w || L.above[p] > p))
  }

  /** Every node is hooked. */
  predicate Ordered(L: Links, cols: seq<int>, w: int)
  {
    Arena(L, cols, w) && Columns(cols, w) && forall p :: 0 <= p < w + |cols| ==> Hooked(L, cols, w, p)
  }

  /** detachNode: the nodes above and below p are joined; p keeps its own pointers. */
  function Detach(L: Links, p: int): (L': Links)
    requires |L.above| == |L.below| && 0 <= p < |L.below| && 0 <= L.above[p] < |L.below| && 0 <= L.below[p] < |L.below|
    ensures |L'.above| == |L.above| && |L'.below| == |L.below| && L'.sums == L.sums
  {
    Links(L.above[L.below[p] := L.above[p]], L.below[L.above[p] := L.below[p]], L.sums)
  }

  /** reattachNode: the nodes p still points to point back at p. */
  function Reattach(L: Links, p: int): (L': Links)
    requires |L.above| == |L.below| && 0 <= p < |L.below| && 0 <= L.above[p] < |L.below| && 0 <= L.below[p] < |L.below|
    ensures |L'.above| == |L.above| && |L'.below| == |L.below| && L'.sums == L.sums
  {
    Links(L.above[L.below[p] := p], L.below[L.above[p] := p], L.sums)
  }

  /** Detaching a constraint node keeps every node hooked. */
  lemma DetachOrdered(L: Links, cols: seq<int>, w: int, p: int)
    requires Ordered(L, cols, w) && w <= p < w + |cols|
    ensures Hooked(L, cols, w, p) && Ordered(Detach(L, p), cols, w)
  {
    assert Hooked(L, cols, w, p);
    var a, c := L.above[p], L.below[p];
    var L' := Detach(L, p);
    forall q | 0 <= q < w + |cols|
      ensures Hooked(L', cols, w, q)
    {
      assert Hooked(L, cols, w, q);
    }
  }

  /** Reattaching a constraint node keeps every node hooked. */
  lemma ReattachOrdered(L: Links, cols: seq<int>, w: int, p: int)
    requires Ordered(L, cols, w) && w <= p < w + |cols|
    ensures Hooked(L, cols, w, p) && Ordered(Reattach(L, p), cols, w)
  {
    assert Hooked(L, cols, w, p);
    var L' := Reattach(L, p);
    forall q | 0 <= q < w + |cols|
      ensures Hooked(L', cols, w, q)
    {
      assert Hooked(L, cols, w, q);
    }
  }

  /** The nodes p points to point back at it. */
  predicate LinkedAt(L: Links, p: int)
    requires |L.above| == |L.below| && 0 <= p < |L.below| && 0 <= L.above[p] < |L.below| && 0 <= L.below[p] < |L.below|
  {
    L.below[L.above[p]] == p && L.above[L.below[p]] == p
  }

  /** A reattach right after a detach of a linked node restores every pointer. */
  lemma ReattachDetach(L: Links, p: int)
    requires |L.above| == |L.below| && 0 <= p < |L.below| && 0 <= L.above[p] < |L.below| && 0 <= L.below[p] < |L.below|
    requires LinkedAt(L, p) && L.above[p] != p && L.below[p] != p
    ensures Reattach(Detach(L, p), p) == L
  {
    var D := Detach(L, p);
    assert D.above[p] == L.above[p] && D.below[p] == L.below[p];
    assert D.above[D.below[p] := p] == L.above;
    assert D.below[D.above[p] := p] == L.below;
  }

  /**
   * Column h holds exactly nodes: going down from the header visits them in
   * order and comes back to h, and going up visits them in reverse.
   */
  predicate Ring(L: Links, cols: seq<int>, w: int, h: int, nodes: seq<int>)
    requires Arena(L, cols, w)
  {
    0 <= h < w && InColumn(cols, w, h, nodes) && DownChain(L.below, h, nodes) && UpChain(L.above, h, nodes)
  }

  /** Every one of nodes is a constraint node of column h. */
  predicate InColumn(cols: seq<int>, w: int, h: int, nodes: seq<int>)
  {
    forall i :: 0 <= i < |nodes| ==> w <= nodes[i] < w + |cols| && cols[nodes[i] - w] == h
  }

  /** Going down from header h visits nodes in order and comes back to h. */
  predicate DownChain(below: seq<int>, h: int, nodes: seq<int>)
  {
    0 <= h < |below| && below[h] == Down(nodes, h, -1) &&
    (forall i :: 0 <= i < |nodes| ==> 0 <= nodes[i] < |below|) &&
    forall i {:trigger below[nodes[i]]} :: 0 <= i < |nodes| ==> below[nodes[i]] == Down(nodes, h, i)
  }

  /** Going up from header h visits nodes in reverse order and comes back to h. */
  predicate UpChain(above: seq<int>, h: int, nodes: seq<int>)
  {
    0 <= h < |above| && above[h] == Up(nodes, h, |nodes|) &&
    (forall i :: 0 <= i < |nodes| ==> 0 <= nodes[i] < |above|) &&
    forall i {:trigger above[nodes[i]]} :: 0 <= i < |nodes| ==> above[nodes[i]] == Up(nodes, h, i)
  }

  /** The node after position i of a ring, the header h after the last one. */
  function Down(nodes: seq<int>, h: int, i: int): int
    requires -1 <= i < |nodes|
  {
    if i + 1 < |nodes| then nodes[i + 1] else h
  }

  /** The node before position i of a ring, the header h before the first one. */
  function Up(nodes: seq<int>, h: int, i: int): int
    requires 0 <= i <= |nodes|
  {
    if i == 0 then h else nodes[i - 1]
  }

  /** The nodes of a ring are linked, and in decreasing order. */
  lemma RingLinked(L: Links, cols: seq<int>, w: int, h: int, nodes: seq<int>, i: int)
    requires Ordered(L, cols, w) && Ring(L, cols, w, h, nodes) && 0 <= i < |nodes|
    ensures 0 <= L.above[nodes[i]] < |L.below| && 0 <= L.below[nodes[i]] < |L.below|
    ensures LinkedAt(L, nodes[i]) && L.above[nodes[i]] != nodes[i] && L.below[nodes[i]] != nodes[i]
  {
    var p := nodes[i];
    assert Hooked(L, cols, w, p);
    if i == 0 {
      assert L.below[L.above[p]] == p;
    } else {
      assert L.below[nodes[i - 1]] == p;
    }
    if i + 1 < |nodes| {
      assert L.above[nodes[i + 1]] == p;
    } else {
      assert L.above[L.below[p]] == p;
    }
  }

  /** The nodes of a ring strictly decrease. */
  lemma {:induction false} RingDecreasing(L: Links, cols: seq<int>, w: int, h: int, nodes: seq<int>, i: int, j: int)
    requires Ordered(L, cols, w) && Ring(L, cols, w, h, nodes) && 0 <= i < j < |nodes|
    ensures nodes[i] > nodes[j]
    decreases j - i
  {
    assert Hooked(L, cols, w, nodes[j - 1]);
    if i < j - 1 {
      RingDecreasing(L, cols, w, h, nodes, i, j - 1);
    }
  }

  /** Detaching node i of column h's ring takes it out of the ring and leaves every other column's ring as it was. */
  lemma RingDetach(L: Links, cols: seq<int>, w: int, h: int, nodes: seq<int>, i: int, h': int, nodes': seq<int>)
    requires Ordered(L, cols, w) && Ring(L, cols, w, h, nodes) && 0 <= i < |nodes|
    requires Ring(L, cols, w, h', nodes')
    ensures Hooked(L, cols, w, nodes[i]) && Ordered(Detach(L, nodes[i]), cols, w)
    ensures Ring(Detach(L, nodes[i]), cols, w, h, nodes[..i] + nodes[i + 1..])
    ensures h' != h ==> Ring(Detach(L, nodes[i]), cols, w, h', nodes')
  {
    var p := nodes[i];
    DetachOrdered(L, cols, w, p);
    var L' := Detach(L, p);
    var a, c := L.above[p], L.below[p];
    RingDistinct(L, cols, w, h, nodes);
    RingDetachSame(L, cols, w, h, nodes, i);
    if h' != h {
      assert Hooked(L, cols, w, p);
      RingOther(L, L', cols, w, h', nodes', a, a, c, c);
    }
  }

  /** A ring is kept by pointer changes made only at nodes of other columns. */
  lemma RingOther(L: Links, L': Links, cols: seq<int>, w: int, h: int, nodes: seq<int>, u1: int, u2: int, v1: int, v2: int)
    requires Arena(L, cols, w) && Arena(L', cols, w) && Ring(L, cols, w, h, nodes)
    requires 0 <= u1 < w + |cols| && 0 <= u2 < w + |cols| && 0 <= v1 < w + |cols| && 0 <= v2 < w + |cols|
    requires ColOf(cols, w, u1) != h && ColOf(cols, w, u2) != h && ColOf(cols, w, v1) != h && ColOf(cols, w, v2) != h
    requires L'.below == L.below[u1 := L'.below[u1]][u2 := L'.below[u2]]
    requires L'.above == L.above[v1 := L'.above[v1]][v2 := L'.above[v2]]
    ensures Ring(L', cols, w, h, nodes)
  {
    forall k | 0 <= k < |nodes|
      ensures nodes[k] != u1 && nodes[k] != u2 && nodes[k] != v1 && nodes[k] != v2
    {
      assert ColOf(cols, w, nodes[k]) == h;
    }
  }

  /** The nodes of a ring are distinct. */
  lemma RingDistinct(L: Links, cols: seq<int>, w: int, h: int, nodes: seq<int>)
    requires Ordered(L, cols, w) && Ring(L, cols, w, h, nodes)
    ensures forall k, k' :: 0 <= k < k' < |nodes| ==> nodes[k] > nodes[k']
  {
    forall k, k' | 0 <= k < k' < |nodes|
      ensures nodes[k] > nodes[k']
    {
      RingDecreasing(L, cols, w, h, nodes, k, k');
    }
  }

  /** Detaching node i of a ring of distinct nodes leaves the ring without it. */
  lemma RingDetachSame(L: Links, cols: seq<int>, w: int, h: int, nodes: seq<int>, i: int)
    requires Arena(L, cols, w) && Ring(L, cols, w, h, nodes) && 0 <= i < |nodes|
    requires forall k, k' :: 0 <= k < k' < |nodes| ==> nodes[k] > nodes[k']
    ensures 0 <= L.above[nodes[i]] < |L.below| && 0 <= L.below[nodes[i]] < |L.below|
    ensures Ring(Detach(L, nodes[i]), cols, w, h, nodes[..i] + nodes[i + 1..])
  {
    var p := nodes[i];
    assert L.below[p] == Down(nodes, h, i) && L.above[p] == Up(nodes, h, i);
    var rest := nodes[..i] + nodes[i + 1..];
    assert |rest| == |nodes| - 1;
    assert forall k {:trigger rest[k]} :: 0 <= k < i ==> rest[k] == nodes[k];
    assert forall k {:trigger rest[k]} :: i <= k < |rest| ==> rest[k] == nodes[k + 1];
    DownRemove(L.below, h, nodes, i, rest);
    UpRemove(L.above, h, nodes, i, rest);
  }

  /** Joining the neighbours of position i takes it out of a downward chain. */
  lemma DownRemove(below: seq<int>, h: int, nodes: seq<int>, i: int, rest: seq<int>)
    requires DownChain(below, h, nodes) && 0 <= i < |nodes| && (forall k :: 0 <= k < |nodes| ==> nodes[k] != h)
    requires forall k, k' :: 0 <= k < k' < |nodes| ==> nodes[k] > nodes[k']
    requires |rest| == |nodes| - 1
    requires forall k {:trigger rest[k]} :: 0 <= k < i ==> rest[k] == nodes[k]
    requires forall k {:trigger rest[k]} :: i <= k < |rest| ==> rest[k] == nodes[k + 1]
    ensures 0 <= Up(nodes, h, i) < |below|
    ensures DownChain(below[Up(nodes, h, i) := Down(nodes, h, i)], h, rest)
  {
    var a, c := Up(nodes, h, i), Down(nodes, h, i);
    if i > 0 {
      assert below[nodes[i - 1]] == Down(nodes, h, i - 1);
    }
    var below' := below[a := c];
    forall k | 0 <= k < |rest|
      ensures below'[rest[k]] == Down(rest, h, k)
    {
      if k < i - 1 {
        assert rest[k] == nodes[k] != a && rest[k + 1] == nodes[k + 1];
        assert below[nodes[k]] == Down(nodes, h, k);
      } else if k == i - 1 {
        assert rest[k] == a;
      } else {
        assert rest[k] == nodes[k + 1] != a;
        assert below[nodes[k + 1]] == Down(nodes, h, k + 1);
      }
    }
  }

  /** Joining the neighbours of position i takes it out of an upward chain. */
  lemma UpRemove(above: seq<int>, h: int, nodes: seq<int>, i: int, rest: seq<int>)
    requires UpChain(above, h, nodes) && 0 <= i < |nodes| && (forall k :: 0 <= k < |nodes| ==> nodes[k] != h)
    requires forall k, k' :: 0 <= k < k' < |nodes| ==> nodes[k] > nodes[k']
    requires |rest| == |nodes| - 1
    requires forall k {:trigger rest[k]} :: 0 <= k < i ==> rest[k] == nodes[k]
    requires forall k {:trigger rest[k]} :: i <= k < |rest| ==> rest[k] == nodes[k + 1]
    ensures 0 <= Down(nodes, h, i) < |above|
    ensures UpChain(above[Down(nodes, h, i) := Up(nodes, h, i)], h, rest)
  {
    var a, c := Up(nodes, h, i), Down(nodes, h, i);
    if i + 1 < |nodes| {
      assert above[nodes[i + 1]] == Up(nodes, h, i + 1);
    }
    var above' := above[c := a];
    if i + 1 < |nodes| {
      assert c != h && above'[h] == above[h] == nodes[|nodes| - 1] == rest[|rest| - 1];
    } else {
      assert c == h && above'[h] == a;
      assert i == 0 || a == rest[i - 1];
    }
    assert above'[h] == Up(rest, h, |rest|);
    forall k | 0 <= k < |rest|
      ensures above'[rest[k]] == Up(rest, h, k)
    {
      if k < i {
        assert rest[k] == nodes[k] != c;
        assert above[nodes[k]] == Up(nodes, h, k);
      } else if k == i {
        assert rest[k] == c;
      } else {
        assert rest[k] == nodes[k + 1] != c && rest[k - 1] == nodes[k];
        assert above[nodes[k + 1]] == Up(nodes, h, k + 1);
      }
    }
  }

  /** addVertical: node p goes directly below header h. */
  function AddVertical(L: Links, h: int, p: int): (L': Links)
    requires |L.above| == |L.below| && 0 <= h < |L.below| && 0 <= p < |L.below| && 0 <= L.below[h] < |L.below|
    ensures |L'.above| == |L.above| && |L'.below| == |L.below| && L'.sums == L.sums
  {
    var above1 := L.above[p := h];
    var below1 := L.below[p := L.below[h]];
    Links(above1[below1[h] := p], below1[h := p], L.sums)
  }

  /**
   * Adding a node of column h above every node already there keeps every
   * node hooked, puts the node at the head of h's ring, and leaves every
   * other column's ring as it was.
   */
  lemma RingAdd(L: Links, cols: seq<int>, w: int, h: int, nodes: seq<int>, p: int, h': int, nodes': seq<int>)
    requires Ordered(L, cols, w) && Ring(L, cols, w, h, nodes) && w <= p < w + |cols| && cols[p - w] == h
    requires forall i :: 0 <= i < |nodes| ==> nodes[i] < p
    requires Ring(L, cols, w, h', nodes') && forall i :: 0 <= i < |nodes'| ==> nodes'[i] != p
    ensures Ordered(AddVertical(L, h, p), cols, w)
    ensures Ring(AddVertical(L, h, p), cols, w, h, [p] + nodes)
    ensures h' != h ==> Ring(AddVertical(L, h, p), cols, w, h', nodes')
  {
    var L' := AddVertical(L, h, p);
    var f := Down(nodes, h, -1);
    assert L.below[h] == f;
    if |nodes| > 0 {
      assert L.above[nodes[0]] == Up(nodes, h, 0);
    }
    AddOrdered(L, cols, w, h, p);
    var nodes2 := [p] + nodes;
    DownAdd(L.below, h, nodes, p);
    UpAdd(L.above, h, nodes, p);
    assert L'.above == L.above[p := h][f := p];
    assert InColumn(cols, w, h, nodes2) by {
      assert forall k :: 0 < k < |nodes2| ==> nodes2[k] == nodes[k - 1];
    }
    if h' != h {
      assert ColOf(cols, w, f) == h;
      RingOther(L, L', cols, w, h', nodes', p, h, p, f);
    }
  }

  /** Adding node p below header h, when p lies above the header's first node, keeps every node hooked. */
  lemma AddOrdered(L: Links, cols: seq<int>, w: int, h: int, p: int)
    requires Ordered(L, cols, w) && 0 <= h < w && w <= p < w + |cols| && cols[p - w] == h && 0 <= L.below[h] < p
    requires L.below[h] >= w ==> L.above[L.below[h]] == h
    ensures Ordered(AddVertical(L, h, p), cols, w)
  {
    var L' := AddVertical(L, h, p);
    assert Hooked(L, cols, w, h);
    forall q | 0 <= q < w + |cols|
      ensures Hooked(L', cols, w, q)
    {
      assert Hooked(L, cols, w, q);
    }
  }

  /** Adding p directly below header h puts it at the head of the downward chain. */
  lemma DownAdd(below: seq<int>, h: int, nodes: seq<int>, p: int)
    requires DownChain(below, h, nodes) && 0 <= p < |below| && p != h
    requires forall k :: 0 <= k < |nodes| ==> nodes[k] != p && nodes[k] != h
    ensures DownChain(below[p := below[h]][h := p], h, [p] + nodes)
  {
    var nodes2 := [p] + nodes;
    var below' := below[p := below[h]][h := p];
    assert forall k {:trigger nodes2[k]} :: 0 < k < |nodes2| ==> nodes2[k] == nodes[k - 1];
    forall k | 0 <= k < |nodes2|
      ensures below'[nodes2[k]] == Down(nodes2, h, k)
    {
      if k > 0 {
        assert below[nodes[k - 1]] == Down(nodes, h, k - 1);
      }
    }
  }

  /** Adding p directly below header h puts it at the head of the upward chain's reverse. */
  lemma UpAdd(above: seq<int>, h: int, nodes: seq<int>, p: int)
    requires UpChain(above, h, nodes) && 0 <= p < |above| && p != h
    requires forall k :: 0 <= k < |nodes| ==> nodes[k] != p && nodes[k] != h
    ensures 0 <= Down(nodes, h, -1) < |above|
    ensures UpChain(above[p := h][Down(nodes, h, -1) := p], h, [p] + nodes)
  {
    var f := Down(nodes, h, -1);
    var nodes2 := [p] + nodes;
    var above' := above[p := h][f := p];
    assert forall k {:trigger nodes2[k]} :: 0 < k < |nodes2| ==> nodes2[k] == nodes[k - 1];
    if |nodes| == 0 {
      assert f == h && above'[h] == p;
    } else {
      assert f == nodes[0] && above'[h] == above[h] == nodes[|nodes| - 1];
    }
    forall k | 0 <= k < |nodes2|
      ensures above'[nodes2[k]] == Up(nodes2, h, k)
    {
      if k > 1 {
        assert nodes2[k] == nodes[k - 1] && f == nodes[0];
        assert above[nodes[k - 1]] == Up(nodes, h, k - 1) == nodes[k - 2];
        assert above[nodes[0]] == Up(nodes, h, 0) == h;
        assert nodes[k - 1] != nodes[0];
      }
    }
  }

  /** A constraint node in the arena: its own column is cols[p - w]. */
  predicate IsNode(cols: seq<int>, w: int, p: int)
  {
    0 < w <= p < w + |cols|
  }

  /** The right pointer of a constraint node is a constraint node of the same row, the next family round. */
  lemma RightNode(cols: seq<int>, w: int, p: int)
    requires |cols| % 4 == 0 && IsNode(cols, w, p)
    ensures IsNode(cols, w, Right(w, p)) && RowOf(w, Right(w, p)) == RowOf(w, p)
    ensures FamilyOf(w, Right(w, p)) == if FamilyOf(w, p) == 3 then 0 else FamilyOf(w, p) + 1
  {
    var x, f := RowOf(w, p), FamilyOf(w, p);
    var m := |cols| / 4;
    assert p - w == 4 * x + f && 0 <= f < 4 && |cols| == 4 * m;
    assert x < m;
    var g := if f == 3 then 0 else f + 1;
    assert Right(w, p) - w == 4 * x + g;
  }

  /** Ordered does not depend on the counts. */
  lemma OrderedSums(L: Links, cols: seq<int>, w: int, sums: seq<int>)
    requires Ordered(L, cols, w) && |sums| == |L.sums|
    ensures Ordered(Links(L.above, L.below, sums), cols, w)
  {
    var L' := Links(L.above, L.below, sums);
    forall q | 0 <= q < w + |cols|
      ensures Hooked(L', cols, w, q)
    {
      assert Hooked(L, cols, w, q);
    }
  }

  /** detachNode of the Killer solver, or the Dancing Links solver's detachNode with decrementColumnOfConstraint: detach p and take one off its column's count. */
  function Drop(L: Links, cols: seq<int>, w: int, p: int): (L': Links)
    requires Ordered(L, cols, w) && IsNode(cols, w, p)
    ensures Hooked(L, cols, w, p) && Ordered(L', cols, w)
    ensures L'.above == Detach(L, p).above && L'.below == Detach(L, p).below
    ensures L'.sums == L.sums[cols[p - w] := L.sums[cols[p - w]] - 1]
  {
    DetachOrdered(L, cols, w, p);
    var D := Detach(L, p);
    OrderedSums(D, cols, w, D.sums[cols[p - w] := D.sums[cols[p - w]] - 1]);
    Links(D.above, D.below, D.sums[cols[p - w] := D.sums[cols[p - w]] - 1])
  }

  /** reattachNode, with the matching increment of its column's count. */
  function Lift(L: Links, cols: seq<int>, w: int, p: int): (L': Links)
    requires Ordered(L, cols, w) && IsNode(cols, w, p)
    ensures Hooked(L, cols, w, p) && Ordered(L', cols, w)
    ensures L'.above == Reattach(L, p).above && L'.below == Reattach(L, p).below
    ensures L'.sums == L.sums[cols[p - w] := L.sums[cols[p - w]] + 1]
  {
    ReattachOrdered(L, cols, w, p);
    var R := Reattach(L, p);
    OrderedSums(R, cols, w, R.sums[cols[p - w] := R.sums[cols[p - w]] + 1]);
    Links(R.above, R.below, R.sums[cols[p - w] := R.sums[cols[p - w]] + 1])
  }

  /** A lift right after a drop of a linked node restores pointers and counts. */
  lemma DropLift(L: Links, cols: seq<int>, w: int, p: int)
    requires Ordered(L, cols, w) && IsNode(cols, w, p)
    requires Hooked(L, cols, w, p) && LinkedAt(L, p)
    ensures Lift(Drop(L, cols, w, p), cols, w, p) == L
  {
    ReattachDetach(L, p);
    var j := cols[p - w];
    assert L.sums[j := L.sums[j] - 1][j := L.sums[j] - 1 + 1] == L.sums;
  }

  /** Dropping the i nodes p, right of p, ... of one row, in that order. */
  function DropSpan(L: Links, cols: seq<int>, w: int, p: int, i: int): (L': Links)
    requires Ordered(L, cols, w) && IsNode(cols, w, p) && 0 <= i <= 4
    ensures Ordered(L', cols, w)
    decreases i, p
  {
    if i == 0 then L
    else
      RightNode(cols, w, p);
      DropSpan(Drop(L, cols, w, p), cols, w, Right(w, p), i - 1)
  }

  /** Lifting the i nodes p, right of p, ... of one row, in that order. */
  function LiftSpan(L: Links, cols: seq<int>, w: int, p: int, i: int): (L': Links)
    requires Ordered(L, cols, w) && IsNode(cols, w, p) && 0 <= i <= 4
    ensures Ordered(L', cols, w)
    decreases i, p
  {
    if i == 0 then L
    else
      RightNode(cols, w, p);
      LiftSpan(Lift(L, cols, w, p), cols, w, Right(w, p), i - 1)
  }

  /** How many of the i nodes p, right of p, ... lie in column j. */
  function Hits(cols: seq<int>, w: int, p: int, i: int, j: int): (h: nat)
    requires |cols| % 4 == 0 && IsNode(cols, w, p) && 0 <= i <= 4
    ensures h <= i
    decreases i, p
  {
    if i == 0 then 0
    else
      RightNode(cols, w, p);
      (if cols[p - w] == j then 1 else 0) + Hits(cols, w, Right(w, p), i - 1, j)
  }

  /** A span of drops takes one off a column's count per node of the span in it, and changes no other count. */
  lemma {:induction false} DropSpanSum(L: Links, cols: seq<int>, w: int, p: int, i: int, j: int)
    requires Ordered(L, cols, w) && IsNode(cols, w, p) && 0 <= i <= 4 && 0 <= j < w
    ensures DropSpan(L, cols, w, p, i).sums[j] == L.sums[j] - Hits(cols, w, p, i, j)
    decreases i
  {
    if i > 0 {
      RightNode(cols, w, p);
      DropSpanSum(Drop(L, cols, w, p), cols, w, Right(w, p), i - 1, j);
    }
  }

  /** A span of lifts adds one to a column's count per node of the span in it, and changes no other count. */
  lemma {:induction false} LiftSpanSum(L: Links, cols: seq<int>, w: int, p: int, i: int, j: int)
    requires Ordered(L, cols, w) && IsNode(cols, w, p) && 0 <= i <= 4 && 0 <= j < w
    ensures LiftSpan(L, cols, w, p, i).sums[j] == L.sums[j] + Hits(cols, w, p, i, j)
    decreases i
  {
    if i > 0 {
      RightNode(cols, w, p);
      LiftSpanSum(Lift(L, cols, w, p), cols, w, Right(w, p), i - 1, j);
    }
  }

  /** How many nodes of column j the rows of the nodes qs hold besides those nodes. */
  function Others(cols: seq<int>, w: int, qs: seq<int>, j: int): nat
    requires |cols| % 4 == 0 && forall i :: 0 <= i < |qs| ==> IsNode(cols, w, qs[i])
  {
    if |qs| == 0 then 0
    else
      RightNode(cols, w, qs[0]);
      Hits(cols, w, Right(w, qs[0]), 3, j) + Others(cols, w, qs[1..], j)
  }

  /** Dropping the three nodes right of p takes one off each column's count per node in it. */
  lemma DropSpanSums(L: Links, cols: seq<int>, w: int, p: int)
    requires Ordered(L, cols, w) && IsNode(cols, w, p)
    ensures forall j :: 0 <= j < w ==> DropSpan(L, cols, w, p, 3).sums[j] == L.sums[j] - Hits(cols, w, p, 3, j)
  {
    forall j | 0 <= j < w
      ensures DropSpan(L, cols, w, p, 3).sums[j] == L.sums[j] - Hits(cols, w, p, 3, j)
    {
      DropSpanSum(L, cols, w, p, 3, j);
    }
  }

  /** Lifting the three nodes right of p adds one to each column's count per node in it. */
  lemma LiftSpanSums(L: Links, cols: seq<int>, w: int, p: int)
    requires Ordered(L, cols, w) && IsNode(cols, w, p)
    ensures forall j :: 0 <= j < w ==> LiftSpan(L, cols, w, p, 3).sums[j] == L.sums[j] + Hits(cols, w, p, 3, j)
  {
    forall j | 0 <= j < w
      ensures LiftSpan(L, cols, w, p, 3).sums[j] == L.sums[j] + Hits(cols, w, p, 3, j)
    {
      LiftSpanSum(L, cols, w, p, 3, j);
    }
  }

  /** L and L' agree on the pointers of every node of column h, its header included. */
  predicate SameColumn(L: Links, L': Links, cols: seq<int>, w: int, h: int)
    requires Arena(L, cols, w) && Arena(L', cols, w)
  {
    forall u :: 0 <= u < w + |cols| && ColOf(cols, w, u) == h ==> L'.below[u] == L.below[u] && L'.above[u] == L.above[u]
  }

  /** Dropping or lifting a node of another column leaves column h's pointers as they were. */
  lemma DropElsewhere(L: Links, cols: seq<int>, w: int, p: int, h: int)
    requires Ordered(L, cols, w) && IsNode(cols, w, p) && cols[p - w] != h
    ensures SameColumn(L, Drop(L, cols, w, p), cols, w, h) && SameColumn(L, Lift(L, cols, w, p), cols, w, h)
  {
    assert Hooked(L, cols, w, p);
  }

  /** A span with no node in column h leaves column h's pointers as they were. */
  lemma {:induction false} SpanElsewhere(L: Links, cols: seq<int>, w: int, p: int, i: int, h: int)
    requires Ordered(L, cols, w) && IsNode(cols, w, p) && 0 <= i <= 4 && Hits(cols, w, p, i, h) == 0
    ensures SameColumn(L, DropSpan(L, cols, w, p, i), cols, w, h) && SameColumn(L, LiftSpan(L, cols, w, p, i), cols, w, h)
    decreases i
  {
    if i > 0 {
      RightNode(cols, w, p);
      DropElsewhere(L, cols, w, p, h);
      SpanElsewhere(Drop(L, cols, w, p), cols, w, Right(w, p), i - 1, h);
      SpanElsewhere(Lift(L, cols, w, p), cols, w, Right(w, p), i - 1, h);
    }
  }

  /** A span of drops with no node in u's column leaves u's lower pointer as it was. */
  lemma {:induction false} DropSpanKeeps(L: Links, cols: seq<int>, w: int, p: int, i: int, u: int)
    requires Ordered(L, cols, w) && IsNode(cols, w, p) && 0 <= i <= 4 && 0 <= u < w + |cols|
    requires Hits(cols, w, p, i, ColOf(cols, w, u)) == 0
    ensures DropSpan(L, cols, w, p, i).below[u] == L.below[u]
    decreases i
  {
    if i > 0 {
      RightNode(cols, w, p);
      var L1 := Drop(L, cols, w, p);
      assert L1.below[u] == L.below[u];
      DropSpanKeeps(L1, cols, w, Right(w, p), i - 1, u);
    }
  }

  /** A span of lifts with no node in u's column leaves u's lower pointer as it was. */
  lemma {:induction false} LiftSpanKeeps(L: Links, cols: seq<int>, w: int, p: int, i: int, u: int)
    requires Ordered(L, cols, w) && IsNode(cols, w, p) && 0 <= i <= 4 && 0 <= u < w + |cols|
    requires Hits(cols, w, p, i, ColOf(cols, w, u)) == 0
    ensures LiftSpan(L, cols, w, p, i).below[u] == L.below[u]
    decreases i
  {
    if i > 0 {
      RightNode(cols, w, p);
      var L1 := Lift(L, cols, w, p);
      assert L1.below[u] == L.below[u];
      LiftSpanKeeps(L1, cols, w, Right(w, p), i - 1, u);
    }
  }

  /** The constraint nodes met walking down from q until a header is reached. */
  function WalkFrom(L: Links, cols: seq<int>, w: int, q: int): (qs: seq<int>)
    requires Ordered(L, cols, w) && 0 <= q < w + |cols|
    ensures forall i :: 0 <= i < |qs| ==> IsNode(cols, w, qs[i]) && ColOf(cols, w, qs[i]) == ColOf(cols, w, q)
    ensures forall i :: 0 <= i < |qs| ==> qs[i] <= q
    decreases q
  {
    if q < w then []
    else
      assert Hooked(L, cols, w, q);
      [q] + WalkFrom(L, cols, w, L.below[q])
  }

  /** A walk only reads its own column's pointers. */
  lemma {:induction false} WalkSame(L: Links, L': Links, cols: seq<int>, w: int, q: int)
    requires Ordered(L, cols, w) && Ordered(L', cols, w) && 0 <= q < w + |cols|
    requires SameColumn(L, L', cols, w, ColOf(cols, w, q))
    ensures WalkFrom(L', cols, w, q) == WalkFrom(L, cols, w, q)
    decreases q
  {
    if q >= w {
      assert Hooked(L, cols, w, q);
      WalkSame(L, L', cols, w, L.below[q]);
    }
  }

  /** Walking down column h's ring from its i-th node lists the ring from there on. */
  lemma {:induction false} RingWalkFrom(L: Links, cols: seq<int>, w: int, h: int, nodes: seq<int>, i: int)
    requires Ordered(L, cols, w) && Ring(L, cols, w, h, nodes) && 0 <= i <= |nodes|
    ensures 0 <= Down(nodes, h, i - 1) < w + |cols|
    ensures WalkFrom(L, cols, w, Down(nodes, h, i - 1)) == nodes[i..]
    decreases |nodes| - i
  {
    if i < |nodes| {
      RingWalkFrom(L, cols, w, h, nodes, i + 1);
      assert L.below[nodes[i]] == Down(nodes, h, i);
      assert nodes[i..] == [nodes[i]] + nodes[i + 1..];
    }
  }

  /** Walking down from header h lists exactly its ring. */
  lemma RingWalk(L: Links, cols: seq<int>, w: int, h: int, nodes: seq<int>)
    requires Ordered(L, cols, w) && Ring(L, cols, w, h, nodes)
    ensures 0 <= L.below[h] < w + |cols| && WalkFrom(L, cols, w, L.below[h]) == nodes
  {
    RingWalkFrom(L, cols, w, h, nodes, 0);
  }
}
