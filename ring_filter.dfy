/**
 * The columns of the arena as lists: R[h] lists the nodes attached in
 * column h, top to bottom.  Dropping nodes of those lists one after
 * another leaves every column holding its list without the dropped nodes,
 * and the headers with the nodes of the lists make up a doubly linked part
 * of the arena, the starting point of Relink.
 */
module RingFilter {
  import opened Rings
  import opened Relink

  /** xs without the elements of D, in the order of xs. */
  function Without(xs: seq<int>, D: seq<int>): (ys: seq<int>)
    ensures |ys| <= |xs|
  {
    if |xs| == 0 then []
    else (if xs[0] in D then [] else [xs[0]]) + Without(xs[1..], D)
  }

  /** What is left is what xs holds outside D. */
  lemma {:induction false} WithoutHas(xs: seq<int>, D: seq<int>, v: int)
    ensures v in Without(xs, D) <==> v in xs && v !in D
  {
    if |xs| > 0 {
      WithoutHas(xs[1..], D, v);
      assert xs == [xs[0]] + xs[1..];
      assert v in xs <==> v == xs[0] || v in xs[1..];
    }
  }

  /** Taking nothing away keeps the list. */
  lemma {:induction false} WithoutNone(xs: seq<int>)
    ensures Without(xs, []) == xs
  {
    if |xs| > 0 {
      WithoutNone(xs[1..]);
      assert [xs[0]] + xs[1..] == xs;
    }
  }

  /** Two lists to take away that agree on the elements of xs leave the same list. */
  lemma {:induction false} WithoutSame(xs: seq<int>, D: seq<int>, D': seq<int>)
    requires forall k :: 0 <= k < |xs| ==> (xs[k] in D <==> xs[k] in D')
    ensures Without(xs, D) == Without(xs, D')
  {
    if |xs| > 0 {
      assert xs[0] in D <==> xs[0] in D';
      forall k | 0 <= k < |xs[1..]|
        ensures xs[1..][k] in D <==> xs[1..][k] in D'
      {
        assert xs[1..][k] == xs[k + 1];
      }
      WithoutSame(xs[1..], D, D');
    }
  }

  /** What is left of a list of column h's nodes lies in column h. */
  lemma WithoutInColumn(cols: seq<int>, w: int, h: int, xs: seq<int>, D: seq<int>)
    requires InColumn(cols, w, h, xs)
    ensures InColumn(cols, w, h, Without(xs, D))
  {
    var ys := Without(xs, D);
    forall i | 0 <= i < |ys|
      ensures w <= ys[i] < w + |cols| && cols[ys[i] - w] == h
    {
      assert ys[i] in ys;
      WithoutHas(xs, D, ys[i]);
      var k :| 0 <= k < |xs| && xs[k] == ys[i];
    }
  }

  /** The elements strictly decrease. */
  predicate Decreasing(xs: seq<int>)
  {
    forall i, j :: 0 <= i < j < |xs| ==> xs[i] > xs[j]
  }

  /** A list with some elements taken away still decreases. */
  lemma {:induction false} WithoutDecreasing(xs: seq<int>, D: seq<int>)
    requires Decreasing(xs)
    ensures Decreasing(Without(xs, D))
  {
    if |xs| > 0 {
      var rest := Without(xs[1..], D);
      WithoutDecreasing(xs[1..], D);
      forall j | 0 <= j < |rest|
        ensures rest[j] < xs[0]
      {
        assert rest[j] in rest;
        WithoutHas(xs[1..], D, rest[j]);
        var k :| 0 <= k < |xs[1..]| && xs[1..][k] == rest[j];
        assert xs[k + 1] == rest[j];
      }
    }
  }

  /** The rest of a decreasing list decreases and misses its head. */
  lemma DecreasingTail(xs: seq<int>)
    requires Decreasing(xs) && |xs| > 0
    ensures Decreasing(xs[1..]) && xs[0] !in xs[1..]
  {
    forall a, b | 0 <= a < b < |xs[1..]|
      ensures xs[1..][a] > xs[1..][b]
    {
      assert xs[1..][a] == xs[a + 1] && xs[1..][b] == xs[b + 1];
    }
    forall k | 0 <= k < |xs[1..]|
      ensures xs[1..][k] != xs[0]
    {
      assert xs[1..][k] == xs[k + 1];
    }
  }

  /** Taking away an element the list does not hold changes nothing. */
  lemma WithoutMissing(xs: seq<int>, D: seq<int>, p: int)
    requires p !in xs
    ensures Without(xs, D + [p]) == Without(xs, D)
  {
    forall k | 0 <= k < |xs|
      ensures xs[k] in D + [p] <==> xs[k] in D
    {
      assert xs[k] in xs;
    }
    WithoutSame(xs, D + [p], D);
  }

  /**
   * Taking one more element p away takes it out of the place it holds in
   * what was left.
   */
  lemma {:induction false} WithoutMore(xs: seq<int>, D: seq<int>, p: int) returns (i: int)
    requires Decreasing(xs) && p in xs && p !in D
    ensures 0 <= i < |Without(xs, D)| && Without(xs, D)[i] == p
    ensures Without(xs, D + [p]) == Without(xs, D)[..i] + Without(xs, D)[i + 1..]
  {
    DecreasingTail(xs);
    var ys, zs := Without(xs, D), Without(xs[1..], D);
    if xs[0] == p {
      WithoutMissing(xs[1..], D, p);
      assert ys == [p] + zs;
      i := 0;
      assert ys[i + 1..] == zs;
    } else {
      assert xs == [xs[0]] + xs[1..];
      assert p in xs[1..];
      var k := WithoutMore(xs[1..], D, p);
      i := WithoutMoreStep(xs, D, p, k);
    }
  }

  /** One step of WithoutMore: p lies past the head of xs, at place k of what is left of the rest. */
  lemma WithoutMoreStep(xs: seq<int>, D: seq<int>, p: int, k: int) returns (i: int)
    requires |xs| > 0 && xs[0] != p
    requires 0 <= k < |Without(xs[1..], D)| && Without(xs[1..], D)[k] == p
    requires Without(xs[1..], D + [p]) == Without(xs[1..], D)[..k] + Without(xs[1..], D)[k + 1..]
    ensures 0 <= i < |Without(xs, D)| && Without(xs, D)[i] == p
    ensures Without(xs, D + [p]) == Without(xs, D)[..i] + Without(xs, D)[i + 1..]
  {
    var ys, zs, zs' := Without(xs, D), Without(xs[1..], D), Without(xs[1..], D + [p]);
    assert xs[0] in D + [p] <==> xs[0] in D;
    if xs[0] in D {
      assert ys == zs && Without(xs, D + [p]) == zs';
      i := k;
    } else {
      assert ys == [xs[0]] + zs;
      assert Without(xs, D + [p]) == [xs[0]] + zs';
      i := k + 1;
      assert ys[..i] == [xs[0]] + zs[..k];
      assert ys[i + 1..] == zs[k + 1..];
    }
  }

  /** Every column's list holds constraint nodes of that column, top to bottom. */
  ghost predicate Columned(cols: seq<int>, w: int, R: seq<seq<int>>)
  {
    |R| == w && forall h :: 0 <= h < w ==> InColumn(cols, w, h, R[h]) && Decreasing(R[h])
  }

  /** Node v is on its column's list. */
  ghost predicate OnRing(cols: seq<int>, w: int, R: seq<seq<int>>, v: int)
  {
    IsNode(cols, w, v) && 0 <= cols[v - w] < |R| && v in R[cols[v - w]]
  }

  /**
   * h is a column of R.  The quantifier of RingsWithout is triggered on this
   * name only, so that a ring is unfolded only for the columns a proof names.
   */
  ghost predicate Listed(R: seq<seq<int>>, h: int)
  {
    0 <= h < |R|
  }

  /** Every column h holds the nodes of R[h] not in D. */
  ghost predicate RingsWithout(S: Links, cols: seq<int>, w: int, R: seq<seq<int>>, D: seq<int>)
    requires Arena(S, cols, w)
  {
    |R| == w && forall h {:trigger Listed(R, h)} :: Listed(R, h) ==> Ring(S, cols, w, h, Without(R[h], D))
  }

  /** A node of another column is not on column h's list: taking it away changes nothing. */
  lemma OtherColumn(cols: seq<int>, w: int, h: int, xs: seq<int>, D: seq<int>, p: int)
    requires InColumn(cols, w, h, xs) && IsNode(cols, w, p) && cols[p - w] != h
    ensures Without(xs, D + [p]) == Without(xs, D)
  {
    forall k | 0 <= k < |xs|
      ensures xs[k] != p
    {
      assert cols[xs[k] - w] == h;
    }
    WithoutMissing(xs, D, p);
  }

  /** Dropping a node of the lists that is still attached takes it out of its column and of nothing else. */
  lemma DropRings(S: Links, cols: seq<int>, w: int, R: seq<seq<int>>, D: seq<int>, p: int)
    requires Ordered(S, cols, w) && Columned(cols, w, R) && RingsWithout(S, cols, w, R, D)
    requires OnRing(cols, w, R, p) && p !in D
    ensures RingsWithout(Drop(S, cols, w, p), cols, w, R, D + [p])
  {
    var h := cols[p - w];
    assert Decreasing(R[h]);
    var nodes := Without(R[h], D);
    var i := WithoutMore(R[h], D, p);
    var S' := Drop(S, cols, w, p);
    assert Listed(R, h);
    forall h' | Listed(R, h')
      ensures Ring(S', cols, w, h', Without(R[h'], D + [p]))
    {
      var nodes' := Without(R[h'], D);
      assert Ring(S, cols, w, h', nodes');
      RingDetach(S, cols, w, h, nodes, i, h', nodes');
      if h' != h {
        assert InColumn(cols, w, h', R[h']);
        OtherColumn(cols, w, h', R[h'], D, p);
      }
    }
  }

  /** Nodes ps, distinct, on the lists and not in D. */
  ghost predicate FreshOn(cols: seq<int>, w: int, R: seq<seq<int>>, D: seq<int>, ps: seq<int>)
  {
    (forall i :: 0 <= i < |ps| ==> OnRing(cols, w, R, ps[i]) && ps[i] !in D) &&
    forall i, j :: 0 <= i < j < |ps| ==> ps[i] != ps[j]
  }

  /** Moving the first of ps over to D keeps the rest fresh. */
  lemma FreshOnTail(cols: seq<int>, w: int, R: seq<seq<int>>, D: seq<int>, ps: seq<int>)
    requires FreshOn(cols, w, R, D, ps) && |ps| > 0
    ensures FreshOn(cols, w, R, D + [ps[0]], ps[1..]) && OnRing(cols, w, R, ps[0]) && ps[0] !in D
  {
    var ps' := ps[1..];
    forall i | 0 <= i < |ps'|
      ensures OnRing(cols, w, R, ps'[i]) && ps'[i] !in D + [ps[0]]
    {
      assert ps'[i] == ps[i + 1];
    }
    forall i, j | 0 <= i < j < |ps'|
      ensures ps'[i] != ps'[j]
    {
      assert ps'[i] == ps[i + 1] && ps'[j] == ps[j + 1];
    }
  }

  /** Dropping distinct attached nodes of the lists one after another leaves each column its list without them. */
  lemma {:induction false} DropAllRings(S: Links, cols: seq<int>, w: int, R: seq<seq<int>>, D: seq<int>, ps: seq<int>)
    requires Ordered(S, cols, w) && Columned(cols, w, R) && RingsWithout(S, cols, w, R, D) && FreshOn(cols, w, R, D, ps)
    ensures forall i :: 0 <= i < |ps| ==> IsNode(cols, w, ps[i])
    ensures RingsWithout(DropAll(S, cols, w, ps), cols, w, R, D + ps)
    decreases |ps|
  {
    if |ps| == 0 {
      assert D + ps == D;
    } else {
      FreshOnTail(cols, w, R, D, ps);
      DropRings(S, cols, w, R, D, ps[0]);
      DropAllRings(Drop(S, cols, w, ps[0]), cols, w, R, D + [ps[0]], ps[1..]);
      assert D + [ps[0]] + ps[1..] == D + ps;
    }
  }

  /** The headers and the nodes on the lists. */
  ghost function Attached(cols: seq<int>, w: int, R: seq<seq<int>>): (A: set<int>)
    ensures forall q :: q in A <==> 0 <= q < w + |cols| && (q < w || OnRing(cols, w, R, q))
  {
    set q | 0 <= q < w + |cols| && (q < w || OnRing(cols, w, R, q))
  }

  /** In a ring, the header and the nodes point to the header or nodes of the ring, which point back. */
  lemma RingNeighbours(L: Links, cols: seq<int>, w: int, h: int, nodes: seq<int>, q: int)
    requires Ordered(L, cols, w) && Ring(L, cols, w, h, nodes) && (q == h || q in nodes)
    ensures 0 <= q < w + |cols| && Hooked(L, cols, w, q)
    ensures L.below[q] == h || L.below[q] in nodes
    ensures L.above[q] == h || L.above[q] in nodes
    ensures L.above[L.below[q]] == q && L.below[L.above[q]] == q
  {
    if q == h {
      assert Hooked(L, cols, w, h);
      if |nodes| > 0 {
        assert L.above[nodes[0]] == Up(nodes, h, 0);
        var n := |nodes| - 1;
        assert L.below[nodes[n]] == Down(nodes, h, n);
      }
      assert L.above[h] == Up(nodes, h, |nodes|);
    } else {
      var i :| 0 <= i < |nodes| && nodes[i] == q;
      RingLinked(L, cols, w, h, nodes, i);
      assert L.below[q] == Down(nodes, h, i) && L.above[q] == Up(nodes, h, i);
    }
  }

  /** A node on column h's list is on its column's list. */
  lemma ListedOnRing(cols: seq<int>, w: int, R: seq<seq<int>>, h: int, v: int)
    requires Columned(cols, w, R) && 0 <= h < w && v in R[h]
    ensures OnRing(cols, w, R, v) && cols[v - w] == h
  {
    assert InColumn(cols, w, h, R[h]);
    var k :| 0 <= k < |R[h]| && R[h][k] == v;
  }

  /** When every column holds its list, the headers and the listed nodes are doubly linked among themselves. */
  lemma RingsLinked(L: Links, cols: seq<int>, w: int, R: seq<seq<int>>)
    requires Ordered(L, cols, w) && Columned(cols, w, R) && RingsWithout(L, cols, w, R, [])
    ensures Linked(L, cols, w, Attached(cols, w, R))
  {
    var A := Attached(cols, w, R);
    forall q | Member(A, q)
      ensures 0 <= q < w + |cols| && Hooked(L, cols, w, q) && L.below[q] in A && L.above[q] in A &&
        L.above[L.below[q]] == q && L.below[L.above[q]] == q
    {
      var h := ColOf(cols, w, q);
      WithoutNone(R[h]);
      assert Listed(R, h);
      RingNeighbours(L, cols, w, h, R[h], q);
      if L.below[q] != h {
        ListedOnRing(cols, w, R, h, L.below[q]);
      }
      if L.above[q] != h {
        ListedOnRing(cols, w, R, h, L.above[q]);
      }
    }
  }
}
