/**
 * Detaching constraint nodes of the arena one after another, and then
 * reattaching the same nodes in the same order, gives back every pointer
 * and every count.  resetConstraintsByRow undoes removeConstraintsByRow
 * this way in the Killer solver: it walks the row's four columns again in
 * family order, so the detached nodes come back in the order they left,
 * not in the reverse order of Knuth's Dancing Links.
 *
 * The set A names the part of the arena that is doubly linked at the start
 * (Linked).  While nodes are dropped (Dropped), the nodes of A still
 * attached stay doubly linked among themselves, each of them keeps every
 * pointer whose old target is still attached, and each dropped node keeps
 * every pointer whose old target had not been dropped before it.  While
 * they are lifted again (Lifting), the same two kinds of pointer hold with
 * "still detached" in place of "dropped before".  So the next node to lift
 * still points at its old neighbours, and lifting it writes their old
 * pointers back.
 */
module Relink {
  import opened Rings

  /** How many of the nodes ps lie in column j. */
  function Tally(cols: seq<int>, w: int, ps: seq<int>, j: int): (t: nat)
    requires forall i :: 0 <= i < |ps| ==> IsNode(cols, w, ps[i])
    ensures t <= |ps|
  {
    if |ps| == 0 then 0
    else
      assert IsNode(cols, w, ps[0]);
      (if cols[ps[0] - w] == j then 1 else 0) + Tally(cols, w, ps[1..], j)
  }

  /** Adding a node at the end of ps adds one to its column's tally. */
  lemma {:induction false} TallyLast(cols: seq<int>, w: int, ps: seq<int>, p: int, j: int)
    requires forall i :: 0 <= i < |ps| ==> IsNode(cols, w, ps[i])
    requires IsNode(cols, w, p)
    ensures forall i :: 0 <= i < |ps + [p]| ==> IsNode(cols, w, (ps + [p])[i])
    ensures Tally(cols, w, ps + [p], j) == Tally(cols, w, ps, j) + (if cols[p - w] == j then 1 else 0)
    decreases |ps|
  {
    if |ps| > 0 {
      assert (ps + [p])[1..] == ps[1..] + [p];
      TallyLast(cols, w, ps[1..], p, j);
    } else {
      assert (ps + [p])[1..] == [];
    }
  }

  /**
   * q is a node of A.  Quantifiers over A are triggered on this name only,
   * so that a neighbour's membership in A does not set off a new instance.
   */
  ghost predicate Member(A: set<int>, q: int)
  {
    q in A
  }

  /**
   * i indexes ps.  The quantifiers about earlier parts ps[..i] are triggered
   * on this name only, since each membership test in ps[..i] names a new
   * index of ps.
   */
  ghost predicate At(ps: seq<int>, i: int)
  {
    0 <= i < |ps|
  }

  /** The nodes of A lie in the arena, their neighbours are in A, and those neighbours point back at them. */
  ghost predicate Linked(L: Links, cols: seq<int>, w: int, A: set<int>)
    requires Ordered(L, cols, w)
  {
    forall q {:trigger Member(A, q)} :: Member(A, q) ==>
      0 <= q < w + |cols| && Hooked(L, cols, w, q) && L.below[q] in A && L.above[q] in A &&
      L.above[L.below[q]] == q && L.below[L.above[q]] == q
  }

  /** ps lists distinct constraint nodes of A. */
  ghost predicate Fresh(cols: seq<int>, w: int, A: set<int>, ps: seq<int>)
  {
    (forall i :: 0 <= i < |ps| ==> IsNode(cols, w, ps[i]) && ps[i] in A) &&
    (forall i, j :: 0 <= i < j < |ps| ==> ps[i] != ps[j])
  }

  /** Outside A, S has L0's pointers. */
  ghost predicate Untouched(L0: Links, S: Links, cols: seq<int>, w: int, A: set<int>)
    requires Arena(L0, cols, w) && Arena(S, cols, w)
  {
    forall q :: 0 <= q < w + |cols| && q !in A ==> S.below[q] == L0.below[q] && S.above[q] == L0.above[q]
  }

  /**
   * S is what dropping the nodes done, in that order, makes of L0: the
   * nodes of A still attached are doubly linked among themselves and keep
   * each pointer whose old target is still attached, every dropped node
   * keeps each pointer whose old target was dropped after it or not at all,
   * nothing outside A has changed, and each count lost one per dropped node
   * of its column.
   */
  ghost predicate Dropped(L0: Links, S: Links, cols: seq<int>, w: int, A: set<int>, done: seq<int>)
    requires Ordered(L0, cols, w) && Ordered(S, cols, w)
  {
    Linked(L0, cols, w, A) && Fresh(cols, w, A, done) &&
    (forall q {:trigger Member(A, q)} :: Member(A, q) && q !in done ==>
      Hooked(S, cols, w, q) && S.below[q] in A && S.below[q] !in done && S.above[q] in A && S.above[q] !in done &&
      S.above[S.below[q]] == q && S.below[S.above[q]] == q) &&
    (forall q {:trigger Member(A, q)} :: Member(A, q) && q !in done ==>
      (L0.below[q] !in done ==> S.below[q] == L0.below[q]) && (L0.above[q] !in done ==> S.above[q] == L0.above[q])) &&
    (forall i {:trigger At(done, i)} :: At(done, i) ==>
      (L0.below[done[i]] !in done[..i] ==> S.below[done[i]] == L0.below[done[i]]) &&
      (L0.above[done[i]] !in done[..i] ==> S.above[done[i]] == L0.above[done[i]])) &&
    Untouched(L0, S, cols, w, A) &&
    forall j :: 0 <= j < w ==> S.sums[j] == L0.sums[j] - Tally(cols, w, done, j)
  }

  /** Nothing dropped yet: a linked L0 is its own starting point. */
  lemma DroppedNone(L0: Links, cols: seq<int>, w: int, A: set<int>)
    requires Ordered(L0, cols, w) && Linked(L0, cols, w, A)
    ensures Dropped(L0, L0, cols, w, A, [])
  {
  }

  /** Dropping one more attached node of A keeps Dropped, with the node added at the end. */
  lemma DropStep(L0: Links, S: Links, cols: seq<int>, w: int, A: set<int>, done: seq<int>, p: int)
    requires Ordered(L0, cols, w) && Ordered(S, cols, w) && Dropped(L0, S, cols, w, A, done)
    requires IsNode(cols, w, p) && p in A && p !in done
    ensures Dropped(L0, Drop(S, cols, w, p), cols, w, A, done + [p])
  {
    var S' := Drop(S, cols, w, p);
    var done' := done + [p];
    forall i | 0 <= i < |done'|
      ensures IsNode(cols, w, done'[i]) && done'[i] in A
    {
    }
    forall i, j | 0 <= i < j < |done'|
      ensures done'[i] != done'[j]
    {
      if j == |done| {
        assert done'[i] == done[i] && done'[j] == p;
      }
    }
    DropAttached(L0, S, cols, w, A, done, p);
    DropKept(L0, S, cols, w, A, done, p);
    forall j | 0 <= j < w
      ensures S'.sums[j] == L0.sums[j] - Tally(cols, w, done', j)
    {
      TallyLast(cols, w, done, p, j);
    }
  }

  /** After p is dropped, the attached nodes of A are doubly linked among themselves. */
  lemma DropAttached(L0: Links, S: Links, cols: seq<int>, w: int, A: set<int>, done: seq<int>, p: int)
    requires Ordered(L0, cols, w) && Ordered(S, cols, w) && Dropped(L0, S, cols, w, A, done)
    requires IsNode(cols, w, p) && p in A && p !in done
    ensures var S', done' := Drop(S, cols, w, p), done + [p];
      forall q {:trigger Member(A, q)} :: Member(A, q) && q !in done' ==>
        Hooked(S', cols, w, q) && S'.below[q] in A && S'.below[q] !in done' && S'.above[q] in A && S'.above[q] !in done' &&
        S'.above[S'.below[q]] == q && S'.below[S'.above[q]] == q
  {
    var S', done' := Drop(S, cols, w, p), done + [p];
    forall q | Member(A, q) && q !in done'
      ensures Hooked(S', cols, w, q) && S'.below[q] in A && S'.below[q] !in done' && S'.above[q] in A && S'.above[q] !in done'
      ensures S'.above[S'.below[q]] == q && S'.below[S'.above[q]] == q
    {
      assert q !in done && q != p;
      DropLinked(S, cols, w, A, done, p, q);
    }
  }

  /**
   * After p is dropped, an attached node keeps each old pointer whose
   * target is attached, and a dropped node each old pointer whose target
   * was not dropped before it.
   */
  lemma DropKept(L0: Links, S: Links, cols: seq<int>, w: int, A: set<int>, done: seq<int>, p: int)
    requires Ordered(L0, cols, w) && Ordered(S, cols, w) && Dropped(L0, S, cols, w, A, done)
    requires IsNode(cols, w, p) && p in A && p !in done
    ensures var S', done' := Drop(S, cols, w, p), done + [p];
      (forall q {:trigger Member(A, q)} :: Member(A, q) && q !in done' ==>
        (L0.below[q] !in done' ==> S'.below[q] == L0.below[q]) && (L0.above[q] !in done' ==> S'.above[q] == L0.above[q])) &&
      (forall i {:trigger At(done', i)} :: At(done', i) ==>
        (L0.below[done'[i]] !in done'[..i] ==> S'.below[done'[i]] == L0.below[done'[i]]) &&
        (L0.above[done'[i]] !in done'[..i] ==> S'.above[done'[i]] == L0.above[done'[i]]))
    ensures Untouched(L0, Drop(S, cols, w, p), cols, w, A)
  {
    var S', done' := Drop(S, cols, w, p), done + [p];
    assert Hooked(S, cols, w, p) && Member(A, p);
    var a, b := S.above[p], S.below[p];
    assert S'.below == S.below[a := b] && S'.above == S.above[b := a];
    assert a in A && a !in done && b in A && b !in done;
    forall q | Member(A, q) && q !in done'
      ensures L0.below[q] !in done' ==> S'.below[q] == L0.below[q]
      ensures L0.above[q] !in done' ==> S'.above[q] == L0.above[q]
    {
      assert q !in done && q != p;
    }
    forall i {:trigger At(done', i)} | At(done', i)
      ensures L0.below[done'[i]] !in done'[..i] ==> S'.below[done'[i]] == L0.below[done'[i]]
      ensures L0.above[done'[i]] !in done'[..i] ==> S'.above[done'[i]] == L0.above[done'[i]]
    {
      if i < |done| {
        assert At(done, i) && done'[i] == done[i] && done'[..i] == done[..i];
        assert done[i] != a && done[i] != b;
      } else {
        assert done'[i] == p && done'[..i] == done;
      }
    }
  }

  /** After p is dropped, an attached node q other than p still has attached neighbours that point back at it. */
  lemma DropLinked(S: Links, cols: seq<int>, w: int, A: set<int>, done: seq<int>, p: int, q: int)
    requires Ordered(S, cols, w) && IsNode(cols, w, p) && p in A && p !in done && q in A && q !in done && q != p && 0 <= q < w + |cols|
    requires forall u {:trigger Member(A, u)} :: Member(A, u) ==> 0 <= u < w + |cols|
    requires forall u {:trigger Member(A, u)} :: Member(A, u) && u !in done ==>
      Hooked(S, cols, w, u) && S.below[u] in A && S.below[u] !in done && S.above[u] in A && S.above[u] !in done &&
      S.above[S.below[u]] == u && S.below[S.above[u]] == u
    ensures var S' := Drop(S, cols, w, p);
      Hooked(S', cols, w, q) && S'.below[q] in A && S'.below[q] != p && S'.below[q] !in done && S'.above[q] in A && S'.above[q] != p && S'.above[q] !in done &&
      S'.above[S'.below[q]] == q && S'.below[S'.above[q]] == q
  {
    var S' := Drop(S, cols, w, p);
    assert Hooked(S, cols, w, p) && Member(A, p) && Member(A, q);
    var a, b := S.above[p], S.below[p];
    assert a != p && b != p;
    assert S.below[a] == p && S.above[b] == p;
    assert Member(A, a) && Member(A, b);
    assert S'.below == S.below[a := b] && S'.above == S.above[b := a];
    if q == a {
      if a == b {
        assert S'.below[q] == q && S'.above[q] == q;
      } else {
        var z := S.above[a];
        assert S.below[z] == a;
        assert z != p && z != a;
        assert S'.below[q] == b && S'.above[b] == a && S'.above[q] == z && S'.below[z] == a;
      }
    } else {
      var v := S.below[q];
      assert S.above[v] == q;
      assert v != p && v != b;
      assert S'.below[q] == v && S'.above[v] == q;
      if q == b {
        assert S'.above[q] == a && S'.below[a] == b;
      } else {
        var z := S.above[q];
        assert S.below[z] == q;
        assert z != p && z != a;
        assert S'.above[q] == z && S'.below[z] == q;
      }
    }
  }

  /**
   * T is what lifting part of the dropped nodes makes of L0's dropped
   * state, with rest still to lift in that order: every node of A that is
   * not waiting keeps each pointer of L0 whose target is not waiting, every
   * waiting node keeps each pointer of L0 whose target does not wait ahead
   * of it, nothing outside A has changed, and each count is short by one
   * per waiting node of its column.
   */
  ghost predicate Lifting(L0: Links, T: Links, cols: seq<int>, w: int, A: set<int>, rest: seq<int>)
    requires Ordered(L0, cols, w) && Ordered(T, cols, w)
  {
    Linked(L0, cols, w, A) && Fresh(cols, w, A, rest) &&
    (forall q {:trigger Member(A, q)} :: Member(A, q) && q !in rest ==>
      (L0.below[q] !in rest ==> T.below[q] == L0.below[q]) && (L0.above[q] !in rest ==> T.above[q] == L0.above[q])) &&
    (forall i {:trigger At(rest, i)} :: At(rest, i) ==>
      (L0.below[rest[i]] !in rest[..i] ==> T.below[rest[i]] == L0.below[rest[i]]) &&
      (L0.above[rest[i]] !in rest[..i] ==> T.above[rest[i]] == L0.above[rest[i]])) &&
    Untouched(L0, T, cols, w, A) &&
    forall j :: 0 <= j < w ==> T.sums[j] == L0.sums[j] - Tally(cols, w, rest, j)
  }

  /** Once every node is dropped, lifting them all in the same order starts. */
  lemma DroppedLifting(L0: Links, S: Links, cols: seq<int>, w: int, A: set<int>, done: seq<int>)
    requires Ordered(L0, cols, w) && Ordered(S, cols, w) && Dropped(L0, S, cols, w, A, done)
    ensures Lifting(L0, S, cols, w, A, done)
  {
  }

  /** Detaching the distinct attached nodes ps from a linked arena leaves them waiting, in order, to be reattached. */
  lemma DropAllLifting(L0: Links, cols: seq<int>, w: int, A: set<int>, ps: seq<int>)
    requires Ordered(L0, cols, w) && Linked(L0, cols, w, A) && Fresh(cols, w, A, ps)
    ensures Lifting(L0, DropAll(L0, cols, w, ps), cols, w, A, ps)
  {
    DroppedNone(L0, cols, w, A);
    DropAllKeeps(L0, L0, cols, w, A, [], ps);
    assert [] + ps == ps;
    DroppedLifting(L0, DropAll(L0, cols, w, ps), cols, w, A, ps);
  }

  /** Lifting the first waiting node keeps Lifting, with the node taken off the front. */
  lemma LiftStep(L0: Links, T: Links, cols: seq<int>, w: int, A: set<int>, rest: seq<int>)
    requires Ordered(L0, cols, w) && Ordered(T, cols, w) && Lifting(L0, T, cols, w, A, rest) && |rest| > 0
    ensures IsNode(cols, w, rest[0]) && Lifting(L0, Lift(T, cols, w, rest[0]), cols, w, A, rest[1..])
  {
    LiftKept(L0, T, cols, w, A, rest);
  }

  /**
   * The first waiting node p is an attached node whose old neighbours a
   * and b are attached and still point at p's place; lifting p sets a's
   * below and b's above back to p.
   */
  lemma LiftFront(L0: Links, T: Links, cols: seq<int>, w: int, A: set<int>, rest: seq<int>) returns (a: int, b: int)
    requires Ordered(L0, cols, w) && Ordered(T, cols, w) && Lifting(L0, T, cols, w, A, rest) && |rest| > 0
    ensures IsNode(cols, w, rest[0]) && Member(A, rest[0]) && rest[0] !in rest[1..] && Member(A, a) && Member(A, b)
    ensures a == L0.above[rest[0]] && b == L0.below[rest[0]] && a != rest[0] && b != rest[0]
    ensures L0.below[a] == rest[0] && L0.above[b] == rest[0] && T.above[rest[0]] == a && T.below[rest[0]] == b
    ensures Lift(T, cols, w, rest[0]).below == T.below[a := rest[0]] && Lift(T, cols, w, rest[0]).above == T.above[b := rest[0]]
  {
    var p := rest[0];
    assert At(rest, 0) && rest[..0] == [];
    assert Member(A, p) && Hooked(L0, cols, w, p);
    a, b := L0.above[p], L0.below[p];
    assert T.above[p] == a && T.below[p] == b;
    assert a in A && b in A;
    assert Member(A, a) && Member(A, b);
    assert p !in rest[1..] by {
      forall i | 0 <= i < |rest[1..]|
        ensures rest[1..][i] != p
      {
        assert rest[1..][i] == rest[i + 1];
      }
    }
  }

  /** After the first waiting node is lifted, a node that no longer waits keeps each old pointer whose target does not wait. */
  lemma LiftKeptAttached(L0: Links, T: Links, cols: seq<int>, w: int, A: set<int>, rest: seq<int>)
    requires Ordered(L0, cols, w) && Ordered(T, cols, w) && Lifting(L0, T, cols, w, A, rest) && |rest| > 0
    ensures IsNode(cols, w, rest[0])
    ensures var T', rest' := Lift(T, cols, w, rest[0]), rest[1..];
      forall q {:trigger Member(A, q)} :: Member(A, q) && q !in rest' ==>
        (L0.below[q] !in rest' ==> T'.below[q] == L0.below[q]) && (L0.above[q] !in rest' ==> T'.above[q] == L0.above[q])
  {
    var a, b := LiftFront(L0, T, cols, w, A, rest);
    var p, rest' := rest[0], rest[1..];
    var T' := Lift(T, cols, w, p);
    forall q | Member(A, q) && q !in rest'
      ensures L0.below[q] !in rest' ==> T'.below[q] == L0.below[q]
      ensures L0.above[q] !in rest' ==> T'.above[q] == L0.above[q]
    {
      if q != p {
        assert q !in rest;
        assert L0.above[L0.below[q]] == q && L0.below[L0.above[q]] == q;
        assert q != a ==> L0.below[q] != p;
        assert q != b ==> L0.above[q] != p;
      }
    }
  }

  /** After the first waiting node is lifted, a waiting node keeps each old pointer whose target does not wait ahead of it. */
  lemma LiftKeptWaiting(L0: Links, T: Links, cols: seq<int>, w: int, A: set<int>, rest: seq<int>)
    requires Ordered(L0, cols, w) && Ordered(T, cols, w) && Lifting(L0, T, cols, w, A, rest) && |rest| > 0
    ensures IsNode(cols, w, rest[0])
    ensures var T', rest' := Lift(T, cols, w, rest[0]), rest[1..];
      forall i {:trigger At(rest', i)} :: At(rest', i) ==>
        (L0.below[rest'[i]] !in rest'[..i] ==> T'.below[rest'[i]] == L0.below[rest'[i]]) &&
        (L0.above[rest'[i]] !in rest'[..i] ==> T'.above[rest'[i]] == L0.above[rest'[i]])
  {
    var a, b := LiftFront(L0, T, cols, w, A, rest);
    var p, rest' := rest[0], rest[1..];
    var T' := Lift(T, cols, w, p);
    forall i {:trigger At(rest', i)} | At(rest', i)
      ensures L0.below[rest'[i]] !in rest'[..i] ==> T'.below[rest'[i]] == L0.below[rest'[i]]
      ensures L0.above[rest'[i]] !in rest'[..i] ==> T'.above[rest'[i]] == L0.above[rest'[i]]
    {
      var u := rest'[i];
      assert At(rest, i + 1) && u == rest[i + 1] && rest[..i + 1] == [p] + rest'[..i];
      assert Member(A, u) && L0.above[L0.below[u]] == u && L0.below[L0.above[u]] == u;
      assert u != a ==> L0.below[u] != p;
      assert u != b ==> L0.above[u] != p;
    }
  }

  /**
   * After the first waiting node is lifted, a node that no longer waits
   * keeps each old pointer whose target does not wait, and a waiting node
   * each old pointer whose target does not wait ahead of it.
   */
  lemma LiftKept(L0: Links, T: Links, cols: seq<int>, w: int, A: set<int>, rest: seq<int>)
    requires Ordered(L0, cols, w) && Ordered(T, cols, w) && Lifting(L0, T, cols, w, A, rest) && |rest| > 0
    ensures IsNode(cols, w, rest[0])
    ensures var T', rest' := Lift(T, cols, w, rest[0]), rest[1..];
      (forall q {:trigger Member(A, q)} :: Member(A, q) && q !in rest' ==>
        (L0.below[q] !in rest' ==> T'.below[q] == L0.below[q]) && (L0.above[q] !in rest' ==> T'.above[q] == L0.above[q])) &&
      (forall i {:trigger At(rest', i)} :: At(rest', i) ==>
        (L0.below[rest'[i]] !in rest'[..i] ==> T'.below[rest'[i]] == L0.below[rest'[i]]) &&
        (L0.above[rest'[i]] !in rest'[..i] ==> T'.above[rest'[i]] == L0.above[rest'[i]]))
    ensures Untouched(L0, Lift(T, cols, w, rest[0]), cols, w, A)
  {
    var a, b := LiftFront(L0, T, cols, w, A, rest);
    LiftKeptAttached(L0, T, cols, w, A, rest);
    LiftKeptWaiting(L0, T, cols, w, A, rest);
  }

  /** When nothing waits any more, the pointers and counts are those of L0. */
  lemma LiftingDone(L0: Links, T: Links, cols: seq<int>, w: int, A: set<int>)
    requires Ordered(L0, cols, w) && Ordered(T, cols, w) && Lifting(L0, T, cols, w, A, [])
    ensures T == L0
  {
    forall q | 0 <= q < w + |cols|
      ensures T.below[q] == L0.below[q] && T.above[q] == L0.above[q]
    {
      if q in A {
        assert Member(A, q);
      }
    }
    assert T.below == L0.below && T.above == L0.above;
    assert T.sums == L0.sums;
  }

  /** detachNode on each of ps in turn, with its column's count. */
  function DropAll(L: Links, cols: seq<int>, w: int, ps: seq<int>): (L': Links)
    requires Ordered(L, cols, w) && forall i :: 0 <= i < |ps| ==> IsNode(cols, w, ps[i])
    ensures Ordered(L', cols, w)
    decreases |ps|
  {
    if |ps| == 0 then L else DropAll(Drop(L, cols, w, ps[0]), cols, w, ps[1..])
  }

  /** reattachNode on each of ps in turn, with its column's count. */
  function LiftAll(L: Links, cols: seq<int>, w: int, ps: seq<int>): (L': Links)
    requires Ordered(L, cols, w) && forall i :: 0 <= i < |ps| ==> IsNode(cols, w, ps[i])
    ensures Ordered(L', cols, w)
    decreases |ps|
  {
    if |ps| == 0 then L else LiftAll(Lift(L, cols, w, ps[0]), cols, w, ps[1..])
  }

  /** Dropping the attached nodes ps one by one keeps Dropped, with ps added to the dropped nodes. */
  lemma {:induction false} DropAllKeeps(L0: Links, S: Links, cols: seq<int>, w: int, A: set<int>, done: seq<int>, ps: seq<int>)
    requires Ordered(L0, cols, w) && Ordered(S, cols, w) && Dropped(L0, S, cols, w, A, done)
    requires Fresh(cols, w, A, ps) && forall i :: 0 <= i < |ps| ==> ps[i] !in done
    ensures Dropped(L0, DropAll(S, cols, w, ps), cols, w, A, done + ps)
    decreases |ps|
  {
    if |ps| == 0 {
      assert done + ps == done;
    } else {
      DropStep(L0, S, cols, w, A, done, ps[0]);
      var ps' := ps[1..];
      forall i | 0 <= i < |ps'|
        ensures ps'[i] !in done + [ps[0]]
      {
        assert ps'[i] == ps[i + 1];
      }
      DropAllKeeps(L0, Drop(S, cols, w, ps[0]), cols, w, A, done + [ps[0]], ps');
      assert done + [ps[0]] + ps' == done + ps;
    }
  }

  /** Lifting every waiting node in order ends in L0. */
  lemma {:induction false} LiftAllKeeps(L0: Links, T: Links, cols: seq<int>, w: int, A: set<int>, rest: seq<int>)
    requires Ordered(L0, cols, w) && Ordered(T, cols, w) && Lifting(L0, T, cols, w, A, rest)
    ensures LiftAll(T, cols, w, rest) == L0
    decreases |rest|
  {
    if |rest| == 0 {
      LiftingDone(L0, T, cols, w, A);
    } else {
      LiftStep(L0, T, cols, w, A, rest);
      LiftAllKeeps(L0, Lift(T, cols, w, rest[0]), cols, w, A, rest[1..]);
    }
  }

  /** Lifting the first n waiting nodes keeps Lifting, with them taken off the front. */
  lemma {:induction false} LiftAllPrefix(L0: Links, T: Links, cols: seq<int>, w: int, A: set<int>, rest: seq<int>, n: int)
    requires Ordered(L0, cols, w) && Ordered(T, cols, w) && Lifting(L0, T, cols, w, A, rest) && 0 <= n <= |rest|
    ensures forall i :: 0 <= i < n ==> IsNode(cols, w, rest[..n][i])
    ensures Lifting(L0, LiftAll(T, cols, w, rest[..n]), cols, w, A, rest[n..])
    decreases n
  {
    if n == 0 {
      assert rest[..n] == [] && rest[n..] == rest;
    } else {
      LiftStep(L0, T, cols, w, A, rest);
      LiftAllPrefix(L0, Lift(T, cols, w, rest[0]), cols, w, A, rest[1..], n - 1);
      assert rest[..n][0] == rest[0] && rest[..n][1..] == rest[1..][..n - 1];
      assert rest[1..][n - 1..] == rest[n..];
    }
  }

  /** While no waiting node lies in column h, column h has all its old pointers. */
  lemma LiftingColumn(L0: Links, T: Links, cols: seq<int>, w: int, A: set<int>, rest: seq<int>, h: int)
    requires Ordered(L0, cols, w) && Ordered(T, cols, w) && Lifting(L0, T, cols, w, A, rest) && 0 <= h < w
    requires forall i :: 0 <= i < |rest| ==> 0 <= rest[i] < w + |cols| && ColOf(cols, w, rest[i]) != h
    ensures SameColumn(L0, T, cols, w, h)
  {
    forall u | 0 <= u < w + |cols| && ColOf(cols, w, u) == h
      ensures T.below[u] == L0.below[u] && T.above[u] == L0.above[u]
    {
      if u in A {
        assert Member(A, u);
        assert Hooked(L0, cols, w, u);
        assert u !in rest && L0.below[u] !in rest && L0.above[u] !in rest;
      }
    }
  }

  /**
   * Detaching distinct nodes of the doubly linked part A of the arena and
   * then reattaching them in the same order gives back every pointer and
   * every count.
   */
  lemma LiftDropAll(L: Links, cols: seq<int>, w: int, A: set<int>, ps: seq<int>)
    requires Ordered(L, cols, w) && Linked(L, cols, w, A) && Fresh(cols, w, A, ps)
    ensures LiftAll(DropAll(L, cols, w, ps), cols, w, ps) == L
  {
    DroppedNone(L, cols, w, A);
    DropAllKeeps(L, L, cols, w, A, [], ps);
    assert [] + ps == ps;
    var S := DropAll(L, cols, w, ps);
    DroppedLifting(L, S, cols, w, A, ps);
    LiftAllKeeps(L, S, cols, w, A, ps);
  }
}
