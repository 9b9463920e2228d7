/** Overlapping operand windows of a record. Position `p` of a record carries the number `ns[p]` of
    consecutive slots that statements need from there; a position with a number above 1 is a header, and its
    window is `[p, p + ns[p])`. */
module Windows {

  ghost predicate Header(ns: seq<nat>, p: nat) {
    p < |ns| && ns[p] > 1
  }

  function Max(a: nat, b: nat): nat { if a < b then b else a }

  /** Every window ends inside the record. */
  ghost predicate Fitting(ns: seq<nat>) {
    forall p: nat :: Header(ns, p) ==> p + ns[p] <= |ns|
  }

  /** The window of an earlier header at or above `from` contains `x` beyond its first position. */
  ghost predicate Bridged(ns: seq<nat>, from: nat, x: nat) {
    exists q: nat :: from <= q < x && Header(ns, q) && x < q + ns[q]
  }

  // ---------------------------------------------------------------- clusters

  /** `e` is the end of the cluster that starts with the header `p`: no window that starts before `e` passes
      it, and every position in between is inside an earlier window. */
  ghost predicate IsReach(ns: seq<nat>, p: nat, e: nat) {
    && Header(ns, p)
    && p < e <= |ns|
    && (forall q: nat :: p <= q < e && Header(ns, q) ==> q + ns[q] <= e)
    && (forall x: nat :: p < x < e ==> Bridged(ns, p, x))
  }

  lemma ReachUnique(ns: seq<nat>, p: nat, e: nat, f: nat)
    requires IsReach(ns, p, e) && IsReach(ns, p, f)
    ensures e == f
  {
    assert e < f ==> Bridged(ns, p, e);
    assert f < e ==> Bridged(ns, p, f);
  }

  ghost function ReachFrom(ns: seq<nat>, q: nat, e: nat): (r: nat)
    requires Fitting(ns) && q <= e <= |ns|
    ensures e <= r <= |ns|
    decreases |ns| - q
  {
    if q == e then e
    else ReachFrom(ns, q + 1, if Header(ns, q) then Max(e, q + ns[q]) else e)
  }

  ghost function Reach(ns: seq<nat>, p: nat): (e: nat)
    requires Fitting(ns) && Header(ns, p)
  {
    ReachFrom(ns, p + 1, p + ns[p])
  }

  lemma {:induction false} ReachFromIs(ns: seq<nat>, p: nat, q: nat, e: nat)
    requires Fitting(ns) && Header(ns, p) && p < q <= e <= |ns|
    requires forall k: nat :: p <= k < q && Header(ns, k) ==> k + ns[k] <= e
    requires forall x: nat :: p < x < e ==> Bridged(ns, p, x)
    ensures IsReach(ns, p, ReachFrom(ns, q, e))
    decreases |ns| - q
  {
    if q < e {
      var e' := if Header(ns, q) then Max(e, q + ns[q]) else e;
      forall x: nat | p < x < e'
        ensures Bridged(ns, p, x)
      {
        if x >= e {
          assert Header(ns, q);
        }
      }
      ReachFromIs(ns, p, q + 1, e');
    }
  }

  lemma ReachIs(ns: seq<nat>, p: nat)
    requires Fitting(ns) && Header(ns, p)
    ensures IsReach(ns, p, Reach(ns, p))
    ensures p + ns[p] <= Reach(ns, p)
  {
    forall x: nat | p < x < p + ns[p]
      ensures Bridged(ns, p, x)
    {
    }
    ReachFromIs(ns, p, p + 1, p + ns[p]);
  }

  /** The cluster of a header inside a cluster ends inside it. */
  lemma InnerReach(ns: seq<nat>, p: nat, q: nat)
    requires Fitting(ns) && Header(ns, p) && Header(ns, q) && p <= q < Reach(ns, p)
    ensures Reach(ns, q) <= Reach(ns, p)
  {
    ReachIs(ns, p);
    ReachIs(ns, q);
    assert Reach(ns, p) < Reach(ns, q) ==> Bridged(ns, q, Reach(ns, p));
  }

  // ---------------------------------------------------------------- the resolved numbers

  /** What overlap resolution leaves: a header inside an earlier window is switched off, any other header gets
      its whole cluster, and the remaining positions keep their number. */
  ghost function Resolved(ns: seq<nat>): (r: seq<nat>)
    requires Fitting(ns)
    ensures |r| == |ns|
  {
    seq(|ns|, p requires 0 <= p < |ns| => ResolvedAt(ns, p))
  }

  ghost function ResolvedAt(ns: seq<nat>, p: nat): nat
    requires Fitting(ns) && p < |ns|
  {
    if !Header(ns, p) then ns[p]
    else if Bridged(ns, 0, p) then 0
    else (ReachIs(ns, p); Reach(ns, p) - p)
  }

  ghost predicate Inside(ns: seq<nat>, p: nat, x: nat) {
    Header(ns, p) && p <= x < p + ns[p]
  }

  ghost predicate InSomeWindow(ns: seq<nat>, x: nat) {
    exists p: nat :: Inside(ns, p, x)
  }

  /** Every window lies inside a surviving one. */
  lemma {:induction false} WindowSurvives(ns: seq<nat>, p: nat) returns (a: nat)
    requires Fitting(ns) && Header(ns, p)
    ensures a <= p && Header(ns, a) && !Bridged(ns, 0, a) && p + ns[p] <= Reach(ns, a)
  {
    if !Bridged(ns, 0, p) {
      a := p;
      ReachIs(ns, p);
    } else {
      var q: nat :| 0 <= q < p && Header(ns, q) && p < q + ns[q];
      a := WindowSurvives(ns, q);
      ReachIs(ns, a);
    }
  }

  /** Resolved windows are pairwise disjoint, cover exactly the union of the original ones, start at the
      headers that no earlier window contains, and end at the largest end of a window in their cluster. */
  lemma ResolvedWindows(ns: seq<nat>)
    requires Fitting(ns)
    ensures Fitting(Resolved(ns))
    ensures forall p: nat, q: nat :: p < q && Header(Resolved(ns), p) && Header(Resolved(ns), q) ==>
              p + Resolved(ns)[p] <= q
    ensures forall x: nat :: InSomeWindow(Resolved(ns), x) <==> InSomeWindow(ns, x)
    ensures forall p: nat :: Header(Resolved(ns), p) <==> Header(ns, p) && !Bridged(ns, 0, p)
    ensures forall p: nat :: Header(Resolved(ns), p) ==> IsReach(ns, p, p + Resolved(ns)[p])
  {
    var r := Resolved(ns);
    forall p: nat
      ensures Header(r, p) <==> Header(ns, p) && !Bridged(ns, 0, p)
      ensures Header(r, p) ==> IsReach(ns, p, p + r[p])
    {
      if Header(ns, p) {
        ReachIs(ns, p);
      }
    }
    forall p: nat, q: nat | p < q && Header(r, p) && Header(r, q)
      ensures p + r[p] <= q
    {
      if q < p + r[p] {
        assert Bridged(ns, p, q);
        assert Bridged(ns, 0, q);
      }
    }
    forall x: nat
      ensures InSomeWindow(r, x) <==> InSomeWindow(ns, x)
    {
      if p: nat :| Inside(ns, p, x) {
        var a := WindowSurvives(ns, p);
        ReachIs(ns, a);
        assert Inside(r, a, x);
      }
      if p: nat :| Inside(r, p, x) {
        if x == p {
          assert Inside(ns, p, x);
        } else {
          assert Bridged(ns, p, x);
          var q: nat :| p <= q < x && Header(ns, q) && x < q + ns[q];
          assert Inside(ns, q, x);
        }
      }
    }
  }

  // ---------------------------------------------------------------- one merge

  /** The numbers after the cluster of the header `a` has been merged into it. */
  ghost function Merged(ns: seq<nat>, a: nat): (r: seq<nat>)
    requires Fitting(ns) && Header(ns, a)
    ensures |r| == |ns|
  {
    ReachIs(ns, a);
    seq(|ns|, p requires 0 <= p < |ns| =>
      if p == a then Reach(ns, a) - a
      else if a < p < Reach(ns, a) && Header(ns, p) then 0
      else ns[p])
  }

  lemma MergedHeaders(ns: seq<nat>, a: nat)
    requires Fitting(ns) && Header(ns, a)
    ensures Fitting(Merged(ns, a)) && Header(Merged(ns, a), a) && Merged(ns, a)[a] == Reach(ns, a) - a
    ensures forall p: nat :: Header(Merged(ns, a), p) <==> Header(ns, p) && !(a < p < Reach(ns, a))
    ensures forall p: nat :: Header(Merged(ns, a), p) && p != a ==> Merged(ns, a)[p] == ns[p]
  {
    ReachIs(ns, a);
  }

  lemma MergedBridges(ns: seq<nat>, a: nat, p: nat)
    requires Fitting(ns) && Header(ns, a) && Header(Merged(ns, a), p)
    ensures Bridged(Merged(ns, a), 0, p) <==> Bridged(ns, 0, p)
  {
    var m := Merged(ns, a);
    MergedHeaders(ns, a);
    ReachIs(ns, a);
    if q: nat :| 0 <= q < p && Header(ns, q) && p < q + ns[q] {
      assert Header(m, q) && p < q + m[q];
    }
    if q: nat :| 0 <= q < p && Header(m, q) && p < q + m[q] {
      assert Header(ns, q) && p < q + ns[q];
    }
  }

  lemma MergedReach(ns: seq<nat>, a: nat, p: nat)
    requires Fitting(ns) && Header(ns, a) && Header(Merged(ns, a), p)
    ensures IsReach(Merged(ns, a), p, Reach(ns, p))
  {
    var m := Merged(ns, a);
    MergedHeaders(ns, a);
    ReachIs(ns, a);
    ReachIs(ns, p);
    var e := Reach(ns, p);
    if p <= a < e {
      InnerReach(ns, p, a);
    }
    forall x: nat | p < x < e
      ensures Bridged(m, p, x)
    {
      assert Bridged(ns, p, x);
      var q: nat :| p <= q < x && Header(ns, q) && x < q + ns[q];
      if a <= q < Reach(ns, a) {
        assert q + ns[q] <= Reach(ns, a);
        assert p <= a && Header(m, a) && x < a + m[a];
      } else {
        assert Header(m, q) && x < q + m[q];
      }
    }
  }

  /** Merging a cluster does not change what resolution leaves in the end. */
  lemma MergeKeepsResolved(ns: seq<nat>, a: nat)
    requires Fitting(ns) && Header(ns, a)
    ensures Fitting(Merged(ns, a)) && Resolved(Merged(ns, a)) == Resolved(ns)
  {
    var m := Merged(ns, a);
    MergedHeaders(ns, a);
    ReachIs(ns, a);
    forall p: nat | p < |ns|
      ensures ResolvedAt(m, p) == ResolvedAt(ns, p)
    {
      if Header(m, p) {
        MergedBridges(ns, a, p);
        MergedReach(ns, a, p);
        ReachIs(m, p);
        ReachUnique(m, p, Reach(m, p), Reach(ns, p));
      } else if Header(ns, p) {
        assert Bridged(ns, a, p);
        assert Bridged(ns, 0, p);
      }
    }
  }

  // ---------------------------------------------------------------- visiting the headers in any order

  ghost predicate Settled(ns: seq<nat>, h: nat)
  {
    h < |ns| && (ns[h] == 0 || (Header(ns, h) && forall q: nat :: h < q < h + ns[h] ==> !Header(ns, q)))
  }

  ghost function Visited(ns: seq<nat>, h: nat): seq<nat>
    requires Fitting(ns) && h < |ns|
  {
    if Header(ns, h) then Merged(ns, h) else ns
  }

  lemma VisitSettles(ns: seq<nat>, h: nat)
    requires Fitting(ns) && h < |ns| && (Header(ns, h) || ns[h] == 0)
    ensures Fitting(Visited(ns, h)) && Resolved(Visited(ns, h)) == Resolved(ns)
    ensures Settled(Visited(ns, h), h)
    ensures forall k: nat :: Settled(ns, k) ==> Settled(Visited(ns, h), k)
    ensures forall k: nat :: Header(Visited(ns, h), k) ==> Header(ns, k)
    ensures forall k: nat :: k < |ns| && (Header(ns, k) || ns[k] == 0) ==>
              Header(Visited(ns, h), k) || Visited(ns, h)[k] == 0
  {
    if Header(ns, h) {
      MergeKeepsResolved(ns, h);
      MergedHeaders(ns, h);
      ReachIs(ns, h);
    }
  }

  /** Once every header is settled, resolution has nothing left to do. */
  lemma SettledIsResolved(ns: seq<nat>)
    requires Fitting(ns) && forall h: nat :: Header(ns, h) ==> Settled(ns, h)
    ensures Resolved(ns) == ns
  {
    forall p: nat | p < |ns|
      ensures ResolvedAt(ns, p) == ns[p]
    {
      if Header(ns, p) {
        assert forall q: nat :: Header(ns, q) && q < p ==> Settled(ns, q) && q + ns[q] <= p;
        assert Settled(ns, p);
        assert IsReach(ns, p, p + ns[p]);
        ReachIs(ns, p);
        ReachUnique(ns, p, Reach(ns, p), p + ns[p]);
      }
    }
  }
}
