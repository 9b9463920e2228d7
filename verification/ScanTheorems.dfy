/** What linear scan guarantees: no two intervals that are live together share a slot, slots set on entry
    are left alone, and for single slots the scan succeeds exactly when enough slots are free. */
module ScanTheorems {
  import opened SlotPools
  import opened LinearScan

  ghost predicate Intersect(a: Interval, b: Interval) {
    a.from <= b.upto && b.from <= a.upto
  }

  // ---------------------------------------------------------------- soundness

  lemma RunIsFree(p: Pool, s: seq<Interval>, slots: seq<nat>, len: nat, i: nat)
    requires Scanned(p, s, slots, len) && i < |slots|
    ensures Start(p, false) <= slots[i] && slots[i] + len <= MAX_SLOTS && slots[i] < MAX_SLOTS && slots[i] !in p.used
    ensures AllFree(PoolAt(p, s, slots, i, len).used, slots[i], slots[i] + len)
  {
    assert Answered(p, s, slots, i, len);
    FoundRunIsFree(PoolAt(p, s, slots, i, len), len, false);
  }

  lemma EarlierRunIsApart(p: Pool, s: seq<Interval>, slots: seq<nat>, len: nat, i: nat, j: nat)
    requires Scanned(p, s, slots, len) && len > 0
    requires i < j < |slots| && s[i].upto >= s[j].from
    ensures Separate(slots[i], slots[j], len)
  {
    RunIsFree(p, s, slots, len, j);
    InLiveCells(s, slots, j, s[j].from, len, if slots[i] < slots[j] then slots[j] else slots[i]);
  }

  /** Soundness: every run lies in the pool and off the slots set on entry, and any two intervals whose closed
      ranges intersect get disjoint runs. */
  lemma Sound(p: Pool, vars: seq<Interval>, s: seq<Interval>, slots: seq<nat>, len: nat)
    requires Outcome(p, vars, s, slots, len) && len > 0
    ensures forall i :: 0 <= i < |slots| ==> slots[i] + len <= MAX_SLOTS && AllFree(p.used, slots[i], slots[i] + len)
    ensures forall i, j :: 0 <= i < |slots| && 0 <= j < |slots| && i != j && Intersect(s[i], s[j]) ==>
              Separate(slots[i], slots[j], len)
  {
    forall i | 0 <= i < |slots|
      ensures slots[i] + len <= MAX_SLOTS && AllFree(p.used, slots[i], slots[i] + len)
    {
      RunIsFree(p, s, slots, len, i);
    }
    forall i, j | 0 <= i < |slots| && 0 <= j < |slots| && i != j && Intersect(s[i], s[j])
      ensures Separate(slots[i], slots[j], len)
    {
      if i < j {
        EarlierRunIsApart(p, s, slots, len, i, j);
      } else {
        EarlierRunIsApart(p, s, slots, len, j, i);
      }
    }
  }

  // ---------------------------------------------------------------- counting live intervals

  predicate Covers(v: Interval, x: nat) {
    v.from <= x <= v.upto
  }

  /** The number of intervals live at position `x`. */
  ghost function LiveAt(s: seq<Interval>, x: nat): nat {
    if s == [] then 0
    else LiveAt(s[..|s| - 1], x) + (if Covers(s[|s| - 1], x) then 1 else 0)
  }

  /** The number of the first `n` intervals that reach `point`. */
  ghost function Reaching(s: seq<Interval>, n: nat, point: nat): nat
    requires n <= |s|
  {
    if n == 0 then 0 else Reaching(s, n - 1, point) + (if s[n - 1].upto >= point then 1 else 0)
  }

  lemma {:induction false} LiveAtRemove(s: seq<Interval>, k: nat, x: nat)
    requires k < |s|
    ensures LiveAt(s, x) == LiveAt(s[..k] + s[k + 1..], x) + (if Covers(s[k], x) then 1 else 0)
  {
    var n := |s| - 1;
    var rest := s[..k] + s[k + 1..];
    if k == n {
      assert rest == s[..n];
    } else {
      var init := s[..n];
      LiveAtRemove(init, k, x);
      assert rest[..n - 1] == init[..k] + init[k + 1..];
      assert rest[n - 1] == s[n];
    }
  }

  lemma WithoutOne(s: seq<Interval>, k: nat)
    requires k < |s|
    ensures multiset(s[..k] + s[k + 1..]) == multiset(s) - multiset{s[k]}
  {
    assert s == s[..k] + [s[k]] + s[k + 1..];
  }

  /** The count does not depend on the order of the intervals. */
  lemma {:induction false} LiveAtOrder(a: seq<Interval>, b: seq<Interval>, x: nat)
    requires multiset(a) == multiset(b)
    ensures LiveAt(a, x) == LiveAt(b, x)
    decreases |a|
  {
    if a == [] {
      assert |multiset(b)| == 0;
    } else {
      var n := |a| - 1;
      WithoutOne(a, n);
      assert a[n] in multiset(b);
      var k :| 0 <= k < |b| && b[k] == a[n];
      WithoutOne(b, k);
      LiveAtRemove(b, k, x);
      assert a[..n] + a[n + 1..] == a[..n];
      LiveAtOrder(a[..n], b[..k] + b[k + 1..], x);
    }
  }

  lemma {:induction false} LiveAtMostReaching(s: seq<Interval>, n: nat, x: nat, point: nat)
    requires n <= |s| && x >= point
    ensures LiveAt(s[..n], x) <= Reaching(s, n, point)
  {
    if n > 0 {
      LiveAtMostReaching(s, n - 1, x, point);
      assert s[..n][..n - 1] == s[..n - 1];
    }
  }

  lemma {:induction false} ReachingIsLive(s: seq<Interval>, n: nat, point: nat)
    requires n <= |s| && forall j :: 0 <= j < n ==> s[j].from <= point
    ensures LiveAt(s[..n], point) == Reaching(s, n, point)
  {
    if n > 0 {
      ReachingIsLive(s, n - 1, point);
      assert s[..n][..n - 1] == s[..n - 1];
    }
  }

  lemma {:induction false} LiveAtGrows(s: seq<Interval>, n: nat, x: nat)
    requires n <= |s|
    ensures LiveAt(s[..n], x) <= LiveAt(s, x)
    decreases |s|
  {
    if n < |s| {
      assert s[..|s| - 1][..n] == s[..n];
      LiveAtGrows(s[..|s| - 1], n, x);
    } else {
      assert s[..n] == s;
    }
  }

  /** Every position is covered by at most one interval more than reach the start of some interval. */
  lemma {:induction false} PeakIsAtAStart(s: seq<Interval>, x: nat)
    requires SortedByStart(s) && LiveAt(s, x) > 0
    ensures exists i :: 0 <= i < |s| && LiveAt(s, x) <= Reaching(s, i, s[i].from) + 1
    decreases |s|
  {
    var n := |s| - 1;
    if s[n].from > x {
      PeakIsAtAStart(s[..n], x);
      var i :| 0 <= i < n && LiveAt(s[..n], x) <= Reaching(s[..n], i, s[..n][i].from) + 1;
      ReachingPrefix(s, n, i, s[i].from);
    } else {
      LiveAtMostReaching(s, n, x, s[n].from);
    }
  }

  lemma {:induction false} ReachingPrefix(s: seq<Interval>, m: nat, n: nat, point: nat)
    requires n <= m <= |s|
    ensures Reaching(s[..m], n, point) == Reaching(s, n, point)
  {
    if n > 0 {
      ReachingPrefix(s, m, n - 1, point);
    }
  }

  // ---------------------------------------------------------------- completeness for single slots

  ghost predicate WellFormed(s: seq<Interval>) {
    forall i :: 0 <= i < |s| ==> s[i].from <= s[i].upto
  }

  /** The slots a scan may hand out: those free on entry at or above the search start. */
  ghost function FreeSlots(p: Pool): set<nat> {
    FreeIn(p.used, Start(p, false), MAX_SLOTS)
  }

  ghost function FreeIn(used: set<nat>, a: nat, b: nat): set<nat> {
    set c: nat | a <= c < b && c !in used
  }

  ghost function UsedIn(used: set<nat>, a: nat, b: nat): set<nat> {
    set c: nat | a <= c < b && c in used
  }

  lemma {:induction false} FreeAndUsed(used: set<nat>, a: nat, b: nat)
    requires a <= b
    ensures |FreeIn(used, a, b)| + |UsedIn(used, a, b)| == b - a
  {
    if a < b {
      FreeAndUsed(used, a, b - 1);
      if b - 1 in used {
        assert FreeIn(used, a, b) == FreeIn(used, a, b - 1);
        assert UsedIn(used, a, b) == UsedIn(used, a, b - 1) + {b - 1};
      } else {
        assert FreeIn(used, a, b) == FreeIn(used, a, b - 1) + {b - 1};
        assert UsedIn(used, a, b) == UsedIn(used, a, b - 1);
      }
    } else {
      assert FreeIn(used, a, b) == {} && UsedIn(used, a, b) == {};
    }
  }

  lemma LastIsNew(p: Pool, s: seq<Interval>, slots: seq<nat>, n: nat, point: nat)
    requires Scanned(p, s, slots, 1) && n < |slots| && s[n].from <= point
    ensures slots[n] !in LiveCells(s, slots, n, point, 1)
    ensures slots[n] in FreeSlots(p)
  {
    var last := slots[n];
    RunIsFree(p, s, slots, 1, n);
    InLiveCells(s, slots, n, point, 1, last);
    if last in LiveCells(s, slots, n, point, 1) {
      var j :| 0 <= j < n && s[j].upto >= point && slots[j] <= last < slots[j] + 1;
      EarlierRunIsApart(p, s, slots, 1, j, n);
    }
  }

  lemma SpanOne(x: nat)
    ensures Span(x, x + 1) == {x}
  {
  }

  lemma LiveStep(p: Pool, s: seq<Interval>, slots: seq<nat>, n: nat, point: nat)
    requires Scanned(p, s, slots, 1) && n < |slots| && s[n].from <= point
    requires LiveCells(s, slots, n, point, 1) <= FreeSlots(p)
    ensures LiveCells(s, slots, n + 1, point, 1) <= FreeSlots(p)
    ensures |LiveCells(s, slots, n + 1, point, 1)|
         == |LiveCells(s, slots, n, point, 1)| + if s[n].upto >= point then 1 else 0
  {
    LastIsNew(p, s, slots, n, point);
    SpanOne(slots[n]);
  }

  lemma {:induction false} LiveSize(p: Pool, s: seq<Interval>, slots: seq<nat>, n: nat, point: nat)
    requires Scanned(p, s, slots, 1) && n <= |slots|
    requires forall j :: 0 <= j < n ==> s[j].from <= point
    ensures |LiveCells(s, slots, n, point, 1)| == Reaching(s, n, point)
    ensures LiveCells(s, slots, n, point, 1) <= FreeSlots(p)
  {
    if n > 0 {
      LiveSize(p, s, slots, n - 1, point);
      LiveStep(p, s, slots, n - 1, point);
    }
  }

  /** A single-slot request is granted exactly when a slot is free at or above the search start. */
  lemma GrantedIffFree(q: Pool)
    ensures Request(q, 1, false).Found? <==> FreeSlots(q) != {}
  {
    if Request(q, 1, false).Found? {
      FoundRunIsFree(q, 1, false);
      assert Request(q, 1, false).slot in FreeSlots(q);
    }
    if c :| c in FreeSlots(q) {
      StartIsLowest(q, false, c);
      RequestIsFirstFit(q, 1, false, c);
    }
  }

  /** A single-slot request is granted exactly while fewer intervals are active than slots were free on entry. */
  lemma StepIsExact(p: Pool, s: seq<Interval>, slots: seq<nat>, i: nat)
    requires Scanned(p, s, slots, 1) && SortedByStart(s) && i <= |slots| && i < |s|
    ensures Request(PoolAt(p, s, slots, i, 1), 1, false).Found? <==> Reaching(s, i, s[i].from) < |FreeSlots(p)|
  {
    var live := LiveCells(s, slots, i, s[i].from, 1);
    LiveSize(p, s, slots, i, s[i].from);
    GrantedIffFree(PoolAt(p, s, slots, i, 1));
    assert FreeSlots(PoolAt(p, s, slots, i, 1)) == FreeSlots(p) - live;
    if FreeSlots(p) - live == {} {
      SubsetSize(FreeSlots(p), live);
    } else {
      ProperSubsetSize(live, FreeSlots(p));
    }
  }

  lemma ProperSubsetSize(a: set<nat>, b: set<nat>)
    requires a <= b && b - a != {}
    ensures |a| < |b|
  {
    var x :| x in b - a;
    SubsetSize(a + {x}, b);
  }

  /** Exactness for single slots: every interval gets a slot if and only if at no position more intervals are
      live than slots were free on entry at or above the search start. */
  lemma Exact(p: Pool, vars: seq<Interval>, s: seq<Interval>, slots: seq<nat>)
    requires Outcome(p, vars, s, slots, 1) && WellFormed(vars)
    ensures |slots| == |s| <==> forall x: nat :: LiveAt(vars, x) <= |FreeSlots(p)|
  {
    forall x: nat
      ensures LiveAt(vars, x) == LiveAt(s, x)
    {
      LiveAtOrder(s, vars, x);
    }
    if |slots| == |s| {
      forall x: nat
        ensures LiveAt(vars, x) <= |FreeSlots(p)|
      {
        if LiveAt(s, x) > 0 {
          PeakIsAtAStart(s, x);
          var i :| 0 <= i < |s| && LiveAt(s, x) <= Reaching(s, i, s[i].from) + 1;
          assert Answered(p, s, slots, i, 1);
          StepIsExact(p, s, slots, i);
        }
      }
    } else {
      var i := |slots|;
      StepIsExact(p, s, slots, i);
      assert s[i] in multiset(vars);
      DemandAtStart(s, i);
      var x := s[i].from;
      assert LiveAt(vars, x) == LiveAt(s, x) > |FreeSlots(p)|;
    }
  }

  lemma DemandAtStart(s: seq<Interval>, i: nat)
    requires i < |s| && SortedByStart(s) && s[i].from <= s[i].upto
    ensures Reaching(s, i, s[i].from) + 1 <= LiveAt(s, s[i].from)
  {
    ReachingIsLive(s, i + 1, s[i].from);
    assert Reaching(s, i + 1, s[i].from) == Reaching(s, i, s[i].from) + 1;
    LiveAtGrows(s, i + 1, s[i].from);
  }

  /** The usual case, without a pending call: success if and only if the slots set on entry and the intervals
      live at any one position never exceed the 250 slots of the pool. */
  lemma ExactWithoutCalls(p: Pool, vars: seq<Interval>, s: seq<Interval>, slots: seq<nat>)
    requires Outcome(p, vars, s, slots, 1) && WellFormed(vars)
    requires p.callArgs == [] && forall c :: c in p.used ==> c < MAX_SLOTS
    ensures |slots| == |s| <==> forall x: nat :: |p.used| + LiveAt(vars, x) <= MAX_SLOTS
  {
    Exact(p, vars, s, slots);
    FreeAndUsed(p.used, 0, MAX_SLOTS);
    assert UsedIn(p.used, 0, MAX_SLOTS) == p.used;
  }

  lemma {:induction false} SpanSize(a: nat, b: nat)
    requires a <= b
    ensures |Span(a, b)| == b - a
  {
    if a < b {
      SpanSize(a, b - 1);
    }
  }

  // ---------------------------------------------------------------- the frame size

  ghost function UsedAbove(p: Pool): set<nat> {
    UsedIn(p.used, Start(p, false), MAX_SLOTS)
  }

  lemma UnionSize(a: set<nat>, b: set<nat>)
    ensures |a + b| <= |a| + |b|
  {
    assert a + b == a + (b - a);
    SubsetSize(b - a, b);
  }

  /** Below the slot given to interval `i` every slot is taken, on entry or by an active interval. */
  lemma SlotIsLow(p: Pool, s: seq<Interval>, slots: seq<nat>, i: nat)
    requires Scanned(p, s, slots, 1) && SortedByStart(s) && i < |slots|
    ensures slots[i] <= Start(p, false) + |UsedAbove(p)| + Reaching(s, i, s[i].from)
  {
    var live := LiveCells(s, slots, i, s[i].from, 1);
    var q := PoolAt(p, s, slots, i, 1);
    var below := Span(Start(p, false), slots[i]);
    RunIsFree(p, s, slots, 1, i);
    LiveSize(p, s, slots, i, s[i].from);
    assert Answered(p, s, slots, i, 1);
    forall c: nat | c in below
      ensures c in UsedAbove(p) + live
    {
      assert !Fits(q.used, c, 1);
      assert c in q.used;
    }
    SpanSize(Start(p, false), slots[i]);
    SubsetSize(below, UsedAbove(p) + live);
    UnionSize(UsedAbove(p), live);
  }

  // ---------------------------------------------------------------- the pool a scan leaves

  /** The last position the scan has looked at: where it stopped, or the start of the last interval. */
  function LastPoint(s: seq<Interval>, n: nat): nat
    requires n <= |s| && s != []
  {
    if n < |s| then s[n].from else s[n - 1].from
  }

  /** When the scan ends, the used slots are those set on entry and the runs of the intervals that reach the last
      position it has looked at, or start there; pending calls are as they were. */
  lemma FinalSlots(p: Pool, vars: seq<Interval>, s: seq<Interval>, slots: seq<nat>, len: nat, c: nat)
    requires Outcome(p, vars, s, slots, len) && s != []
    ensures PoolAfter(p, s, slots, len).callArgs == p.callArgs
    ensures c in PoolAfter(p, s, slots, len).used <==>
            || c in p.used
            || exists j :: 0 <= j < |slots| && (s[j].upto >= LastPoint(s, |slots|) || j == |s| - 1)
                           && slots[j] <= c < slots[j] + len
  {
    var n := |slots|;
    if n < |s| {
      InLiveCells(s, slots, n, s[n].from, len, c);
    } else {
      InLiveCells(s, slots, n - 1, s[n - 1].from, len, c);
    }
  }

  /** The frame size ends as the highest end of all runs handed out, or as it was if that is larger. */
  lemma {:induction false} FrameIsHighWater(frame: nat, slots: seq<nat>, len: nat)
    ensures frame <= FrameAfter(frame, slots, len)
    ensures forall i :: 0 <= i < |slots| ==> slots[i] + len <= FrameAfter(frame, slots, len)
    ensures FrameAfter(frame, slots, len) == frame
            || exists i :: 0 <= i < |slots| && FrameAfter(frame, slots, len) == slots[i] + len
    decreases |slots|
  {
    if slots != [] {
      FrameIsHighWater(frame, slots[..|slots| - 1], len);
    }
  }

  /** A scan never returns if and only if it comes to an interval for which nothing fits not below the innermost
      pending call, while a free block there is too short for it before the end of the pool. */
  lemma NeverReturnsExactly(p: Pool, vars: seq<Interval>, s: seq<Interval>, slots: seq<nat>, len: nat)
    requires Outcome(p, vars, s, slots, len)
    ensures Verdict(p, s, slots, len) == AllAllocated <==> |slots| == |s|
    ensures Verdict(p, s, slots, len) == NeverReturns <==>
            |slots| < |s|
            && var q := PoolAt(p, s, slots, |slots|, len);
               (forall c: nat :: Admissible(q, false, c) ==> !Fits(q.used, c, len))
               && AnyStuck(q.used, Start(q, false), len)
  {
    hide Fits, AnyStuck, Admissible, SearchFrom, Start;
    if |slots| < |s| {
      var q := PoolAt(p, s, slots, |slots|, len);
      DivergesMeansStuck(q.used, Start(q, false), len);
      forall c: nat
        ensures Start(q, false) <= c <==> Admissible(q, false, c)
      {
        StartIsLowest(q, false, c);
      }
    }
  }

  lemma {:induction false} FrameIsHighest(frame: nat, slots: seq<nat>, len: nat, bound: nat)
    requires forall i :: 0 <= i < |slots| ==> slots[i] + len <= bound
    ensures FrameAfter(frame, slots, len) <= Max(frame, bound)
  {
    if slots != [] {
      FrameIsHighest(frame, slots[..|slots| - 1], len, bound);
    }
  }

  /** The frame grows at most to the search start plus the slots set on entry above it plus the largest number
      of intervals live at one position. */
  lemma FrameBound(p: Pool, vars: seq<Interval>, s: seq<Interval>, slots: seq<nat>, peak: nat)
    requires Outcome(p, vars, s, slots, 1) && WellFormed(vars)
    requires forall x: nat :: LiveAt(vars, x) <= peak
    ensures PoolAfter(p, s, slots, 1).frameSize <= Max(p.frameSize, Start(p, false) + |UsedAbove(p)| + peak)
  {
    forall i | 0 <= i < |slots|
      ensures slots[i] + 1 <= Start(p, false) + |UsedAbove(p)| + peak
    {
      assert s[i] in multiset(vars);
      DemandAtStart(s, i);
      LiveAtOrder(s, vars, s[i].from);
      SlotIsLow(p, s, slots, i);
    }
    FrameIsHighest(p.frameSize, slots, 1, Start(p, false) + |UsedAbove(p)| + peak);
  }
}
