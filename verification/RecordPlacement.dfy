/** The whole way of a record through the assembler: its windows are registered by the statements, merged, given
    runs of slots, and looked at by the slot-order check, which accepts them if and only if no merged window is as
    wide as the pool. */
module RecordPlacement {
  import opened Windows
  import opened Records
  import opened RecordSlots
  import SlotPools

  /** The positions of the headers of a record, in some order. */
  ghost predicate AllHeaders(ns: seq<nat>, ps: seq<nat>) {
    && (forall i :: 0 <= i < |ps| ==> Header(ns, ps[i]))
    && (forall p: nat :: Header(ns, p) ==> p in ps)
    && (forall i, j :: 0 <= i < j < |ps| ==> ps[i] != ps[j])
  }

  function Positions(n: nat): (s: set<nat>)
    ensures forall p: nat :: p in s <==> p < n
  {
    if n == 0 then {} else Positions(n - 1) + {n - 1}
  }

  /** Collects the headers; names are visited in any order. */
  method CollectHeaders(r: seq<Var>) returns (ps: seq<nat>)
    ensures AllHeaders(Ns(r), ps) && forall i :: 0 <= i < |ps| ==> ps[i] < |r|
  {
    hide Ns;
    ps := [];
    var rest := Positions(|r|);
    while rest != {}
      invariant rest <= Positions(|r|)
      invariant forall i :: 0 <= i < |ps| ==> Header(Ns(r), ps[i]) && ps[i] !in rest
      invariant forall p: nat :: p < |r| && p !in rest && Header(Ns(r), p) ==> p in ps
      invariant forall i, j :: 0 <= i < j < |ps| ==> ps[i] != ps[j]
      decreases rest
    {
      var p :| p in rest;
      rest := rest - {p};
      if r[p].n > 1 {
        ps := ps + [p];
      }
    }
  }

  /** The headers that have not been merged into another one, in the order of `ps`. */
  function Surviving(ns: seq<nat>, ps: seq<nat>): (qs: seq<nat>)
    requires forall i :: 0 <= i < |ps| ==> ps[i] < |ns|
    ensures forall q :: q in qs <==> q in ps && ns[q] != 0
  {
    if ps == [] then []
    else Surviving(ns, ps[..|ps| - 1]) + if ns[ps[|ps| - 1]] != 0 then [ps[|ps| - 1]] else []
  }

  method Survivors(r: seq<Var>, ps: seq<nat>) returns (qs: seq<nat>)
    requires forall i :: 0 <= i < |ps| ==> ps[i] < |r|
    ensures qs == Surviving(Ns(r), ps)
  {
    hide Ns;
    qs := [];
    for k := 0 to |ps|
      invariant qs == Surviving(Ns(r), ps[..k])
    {
      assert ps[..k + 1][..k] == ps[..k];
      if r[ps[k]].n != 0 {
        qs := qs + [ps[k]];
      }
    }
    assert ps[..|ps|] == ps;
  }

  method Resolve(r: seq<Var>, ps: seq<nat>, ghost ns: seq<nat>)
    requires Record(r) && ns == Ns(r) && Fitting(ns) && forall i :: 0 <= i < |ps| ==> ps[i] < |r|
    modifies (set x | x in r)`n
    ensures Record(r) && Ns(r) == VisitedAll(ns, ps) && Slots(r) == old(Slots(r))
  {
    hide VisitedAll, Ns, Slots;
    var headers := seq(|ps|, i requires 0 <= i < |ps| => r[ps[i]]);
    ghost var at := seq(|ps|, i requires 0 <= i < |ps| => (0, ps[i]));
    assert [r][0] == r && [ns][0] == ns;
    assert forall v :: v in AllVars([r]) ==> v in r;
    ResolveAll(headers, [r], at, [ns]);
    OneRecord(at, ps);
  }

  lemma {:induction false} OneRecord(at: seq<(nat, nat)>, ps: seq<nat>)
    requires |at| == |ps| && forall i :: 0 <= i < |ps| ==> at[i] == (0, ps[i])
    ensures PositionsIn(at, 0) == ps
    decreases |ps|
  {
    if ps != [] {
      OneRecord(at[..|at| - 1], ps[..|ps| - 1]);
    }
  }

  /** The slot-order check of all statements. */
  method CheckAll(r: seq<Var>, uses: seq<Use>) returns (ok: bool)
    requires Record(r) && forall i :: 0 <= i < |uses| ==> uses[i].p < |r|
    ensures ok <==> AllInOrder(Slots(r), uses)
  {
    hide Slots;
    for i := 0 to |uses|
      invariant forall j :: 0 <= j < i ==> InOrder(Slots(r), uses[j].p, uses[j].count)
    {
      ok := CheckSlotOrder(r[uses[i].p], uses[i].count, r, uses[i].p);
      if !ok {
        return;
      }
    }
    ok := true;
  }

  ghost predicate AllInOrder(slots: seq<nat>, uses: seq<Use>) {
    forall i :: 0 <= i < |uses| ==> uses[i].p < |slots| && InOrder(slots, uses[i].p, uses[i].count)
  }

  // ---------------------------------------------------------------- runs of slots

  /** The scan finds runs inside the pool; `run(p, n)` is the start of the one for `n` slots from position `p`. */
  ghost predicate InPool(run: (nat, nat) -> nat) {
    forall p: nat, n: nat :: n < SlotPools.MAX_SLOTS ==> run(p, n) + n <= SlotPools.MAX_SLOTS
  }

  /** No run has all slots of the pool. */
  ghost predicate RunsExist(ns: seq<nat>, qs: seq<nat>) {
    forall i :: 0 <= i < |qs| ==> qs[i] < |ns| && ns[qs[i]] < SlotPools.MAX_SLOTS
  }

  function Runs(run: (nat, nat) -> nat, ns: seq<nat>, qs: seq<nat>): (bases: seq<nat>)
    requires forall i :: 0 <= i < |qs| ==> qs[i] < |ns|
    ensures |bases| == |qs| && forall i :: 0 <= i < |qs| ==> bases[i] == run(qs[i], ns[qs[i]])
  {
    seq(|qs|, i requires 0 <= i < |qs| => run(qs[i], ns[qs[i]]))
  }

  lemma SurvivorsInside(ns: seq<nat>, ps: seq<nat>)
    requires Fitting(ns) && forall i :: 0 <= i < |ps| ==> ps[i] < |ns|
    ensures WindowsInside(ns, Surviving(ns, ps))
  {
    var qs := Surviving(ns, ps);
    forall i | 0 <= i < |qs|
      ensures qs[i] < |ns| && ns[qs[i]] > 0 && qs[i] + ns[qs[i]] <= |ns|
    {
      assert qs[i] in qs;
      assert ns[qs[i]] > 1 ==> Header(ns, qs[i]);
    }
  }

  /** The variables at `qs` and the starts of their runs. */
  method StartRuns(r: seq<Var>, qs: seq<nat>, run: (nat, nat) -> nat)
      returns (ok: bool, headers: seq<Var>, bases: seq<nat>)
    requires forall i :: 0 <= i < |qs| ==> qs[i] < |r|
    ensures ok <==> RunsExist(Ns(r), qs)
    ensures ok ==> |headers| == |qs| && forall j :: 0 <= j < |qs| ==> headers[j] == r[qs[j]]
    ensures ok ==> bases == Runs(run, Ns(r), qs)
  {
    hide Ns;
    ghost var ns := Ns(r);
    headers, bases := [], [];
    for i := 0 to |qs|
      invariant |headers| == |bases| == i
      invariant forall j :: 0 <= j < i ==> headers[j] == r[qs[j]] && ns[qs[j]] < SlotPools.MAX_SLOTS
      invariant forall j :: 0 <= j < i ==> bases[j] == run(qs[j], ns[qs[j]])
    {
      var h := r[qs[i]];
      assert h.n == ns[qs[i]];
      if h.n >= SlotPools.MAX_SLOTS {
        return false, headers, bases;
      }
      headers, bases := headers + [h], bases + [run(qs[i], h.n)];
    }
    ok := true;
  }

  /** Numbers the surviving windows from the starts of their runs. */
  method GiveRuns(r: seq<Var>, ps: seq<nat>, run: (nat, nat) -> nat, ghost ns: seq<nat>) returns (ok: bool)
    requires Record(r) && ns == Ns(r) && Fitting(ns) && forall i :: 0 <= i < |ps| ==> ps[i] < |r|
    modifies (set x | x in r)`slot
    ensures Record(r)
    ensures var qs := Surviving(ns, ps);
            && WindowsInside(ns, qs)
            && (ok <==> RunsExist(ns, qs))
            && (ok ==> Slots(r) == NumberedAll(old(Slots(r)), ns, qs, Runs(run, ns, qs)))
  {
    hide NumberedAll, Surviving, RunsExist, Fitting, Runs, Ns, Slots;
    SurvivorsInside(ns, ps);
    var qs := Survivors(r, ps);
    var headers, bases;
    ok, headers, bases := StartRuns(r, qs, run);
    if ok {
      NumberAll(headers, bases, r, ns, qs);
    }
  }

  // ---------------------------------------------------------------- what the statements ask for

  /** The widest window asked for at every position of a record, 1 where there is none. */
  ghost function Asked(size: nat, uses: seq<Use>): (ns: seq<nat>)
    requires forall i :: 0 <= i < |uses| ==> uses[i].p < size
    ensures |ns| == size
  {
    if uses == [] then seq(size, _ => 1)
    else
      var ns := Asked(size, uses[..|uses| - 1]);
      var u := uses[|uses| - 1];
      ns[u.p := Max(ns[u.p], u.count)]
  }

  ghost predicate OnRecord(size: nat, uses: seq<Use>) {
    forall i :: 0 <= i < |uses| ==> uses[i].p < size && uses[i].count > 0
  }

  ghost predicate EndInside(size: nat, uses: seq<Use>) {
    forall i :: 0 <= i < |uses| ==> uses[i].p + uses[i].count <= size
  }

  /** Every window ends inside the record, and no cluster of windows is as wide as the pool. */
  ghost predicate Placeable(size: nat, uses: seq<Use>)
    requires OnRecord(size, uses)
  {
    EndInside(size, uses) && Clustered(Asked(size, uses), SlotPools.MAX_SLOTS)
  }

  /** All clusters of windows are narrower than `width`. */
  ghost predicate Clustered(ns: seq<nat>, width: nat) {
    forall p: nat, e: nat :: IsReach(ns, p, e) ==> e - p < width
  }

  lemma {:induction false} AskedCovers(size: nat, uses: seq<Use>, i: nat)
    requires OnRecord(size, uses) && i < |uses|
    ensures uses[i].count <= Asked(size, uses)[uses[i].p]
    decreases |uses|
  {
    if i < |uses| - 1 {
      AskedCovers(size, uses[..|uses| - 1], i);
    }
  }

  /** Every header has the width of one of the statements. */
  lemma {:induction false} AskedAttained(size: nat, uses: seq<Use>, p: nat) returns (i: nat)
    requires OnRecord(size, uses) && Header(Asked(size, uses), p)
    ensures i < |uses| && uses[i].p == p && uses[i].count == Asked(size, uses)[p]
    decreases |uses|
  {
    var k := |uses| - 1;
    if uses[k].p == p && uses[k].count == Asked(size, uses)[p] {
      i := k;
    } else {
      i := AskedAttained(size, uses[..k], p);
    }
  }

  lemma AskedFits(size: nat, uses: seq<Use>)
    requires OnRecord(size, uses) && EndInside(size, uses)
    ensures Fitting(Asked(size, uses))
  {
    hide Asked;
    forall p: nat | Header(Asked(size, uses), p)
      ensures p + Asked(size, uses)[p] <= size
    {
      var i := AskedAttained(size, uses, p);
    }
  }

  /** The 8-bit numbers fit the record, too. */
  lemma {:induction false} DemandFits(size: nat, uses: seq<Use>)
    requires OnRecord(size, uses) && EndInside(size, uses)
    ensures Fitting(Demand(size, uses))
    decreases |uses|
  {
    if uses != [] {
      var u := uses[|uses| - 1];
      var ns := Demand(size, uses[..|uses| - 1]);
      var ns' := Demand(size, uses);
      DemandFits(size, uses[..|uses| - 1]);
      forall p: nat | Header(ns', p)
        ensures p + ns'[p] <= size
      {
        assert p != u.p || ns'[p] == ns[p] ==> Header(ns, p);
      }
    }
  }

  /** Windows that fit the 8-bit field are kept as they are asked for. */
  lemma {:induction false} DemandIsAsked(size: nat, uses: seq<Use>)
    requires OnRecord(size, uses) && forall i :: 0 <= i < |uses| ==> uses[i].count < 256
    ensures Demand(size, uses) == Asked(size, uses)
    decreases |uses|
  {
    if uses != [] {
      DemandIsAsked(size, uses[..|uses| - 1]);
    }
  }

  /** Narrow clusters have narrow windows, which are kept as they are. */
  lemma ClusteredIsKept(size: nat, uses: seq<Use>)
    requires OnRecord(size, uses) && EndInside(size, uses) && Clustered(Asked(size, uses), 256)
    ensures Demand(size, uses) == Asked(size, uses)
    ensures Fitting(Asked(size, uses)) && Narrow(Asked(size, uses))
  {
    hide Asked, Demand;
    var ns := Asked(size, uses);
    AskedFits(size, uses);
    forall i | 0 <= i < |uses|
      ensures uses[i].count < 256
    {
      AskedCovers(size, uses, i);
      if uses[i].count > 1 {
        ReachIs(ns, uses[i].p);
      }
    }
    forall p: nat | p < |ns|
      ensures Resolved(ns)[p] < 256
    {
      if Header(ns, p) {
        ReachIs(ns, p);
      }
    }
    DemandIsAsked(size, uses);
  }

  // ---------------------------------------------------------------- what the check accepts

  /** In a cluster whose windows are in order the slots are consecutive from its first variable to its last. */
  lemma {:induction false} ClusterInOrder(ns: seq<nat>, slots: seq<nat>, p: nat, e: nat, x: nat)
    requires |slots| == |ns| && IsReach(ns, p, e) && p <= x < e
    requires forall q: nat :: Header(ns, q) ==> InOrder(slots, q, ns[q])
    ensures slots[x] == slots[p] + (x - p)
    decreases x
  {
    if p < x {
      assert Bridged(ns, p, x);
      var q: nat :| p <= q < x && Header(ns, q) && x < q + ns[q];
      ClusterInOrder(ns, slots, p, e, q);
      assert InOrder(slots, q, ns[q]);
    }
  }

  /** However the slots of a record have come about: when the check accepts all statements, no cluster of windows is
      wider than the pool. */
  lemma AcceptedIsClustered(size: nat, uses: seq<Use>, slots: seq<nat>)
    requires OnRecord(size, uses) && EndInside(size, uses) && |slots| == size && AllInOrder(slots, uses)
    requires forall k :: 0 <= k < size ==> slots[k] < SlotPools.MAX_SLOTS
    ensures Clustered(Asked(size, uses), SlotPools.MAX_SLOTS + 1)
  {
    hide Asked;
    var ns := Asked(size, uses);
    forall q: nat | Header(ns, q)
      ensures InOrder(slots, q, ns[q])
    {
      var i := AskedAttained(size, uses, q);
    }
    forall p: nat, e: nat | IsReach(ns, p, e)
      ensures e - p < SlotPools.MAX_SLOTS + 1
    {
      ClusterInOrder(ns, slots, p, e, e - 1);
    }
  }

  lemma {:induction false} SurvivorsDistinct(ns: seq<nat>, ps: seq<nat>)
    requires forall i :: 0 <= i < |ps| ==> ps[i] < |ns|
    requires forall i, j :: 0 <= i < j < |ps| ==> ps[i] != ps[j]
    ensures forall i, j :: 0 <= i < j < |Surviving(ns, ps)| ==> Surviving(ns, ps)[i] != Surviving(ns, ps)[j]
    decreases |ps|
  {
    if ps != [] {
      SurvivorsDistinct(ns, ps[..|ps| - 1]);
    }
  }

  lemma SurvivorsAreDisjoint(ns: seq<nat>, ps: seq<nat>)
    requires Fitting(ns) && AllHeaders(ns, ps)
    ensures var qs := Surviving(Resolved(ns), ps);
            WindowsInside(Resolved(ns), qs) && DisjointWindows(Resolved(ns), qs)
  {
    hide Surviving;
    ResolvedWindows(ns);
    SurvivorsInside(Resolved(ns), ps);
    SurvivorsDistinct(Resolved(ns), ps);
    var qs := Surviving(Resolved(ns), ps);
    forall i | 0 <= i < |qs|
      ensures Header(Resolved(ns), qs[i])
    {
      assert qs[i] in qs;
      ReachIs(ns, qs[i]);
    }
  }

  /** With all windows merged and numbered from runs inside the pool, every statement is in order. */
  lemma NumberedIsInOrder(size: nat, uses: seq<Use>, ps: seq<nat>, s: seq<nat>, run: (nat, nat) -> nat)
    requires OnRecord(size, uses) && EndInside(size, uses) && |s| == size && AllHeaders(Asked(size, uses), ps)
    requires Fitting(Asked(size, uses))
    requires WindowsInside(Resolved(Asked(size, uses)), Surviving(Resolved(Asked(size, uses)), ps))
    ensures var ns := Resolved(Asked(size, uses));
            var qs := Surviving(ns, ps);
            AllInOrder(NumberedAll(s, ns, qs, Runs(run, ns, qs)), uses)
  {
    hide Asked, NumberedAll, Surviving, Resolved, InOrder;
    var ns0 := Asked(size, uses);
    var ns := Resolved(ns0);
    var qs := Surviving(ns, ps);
    var bases := Runs(run, ns, qs);
    var slots := NumberedAll(s, ns, qs, bases);
    SurvivorsAreDisjoint(ns0, ps);
    ResolvedWindows(ns0);
    var base := (a: nat) => if a < |ns| then run(a, ns[a]) else 0;
    forall a: nat | Header(ns, a)
      ensures Numbered(slots, a, ns[a], base(a))
    {
      assert a in qs;
      var i :| 0 <= i < |qs| && qs[i] == a;
      NumbersStay(s, ns, qs, bases, i);
    }
    forall i | 0 <= i < |uses|
      ensures InOrder(slots, uses[i].p, uses[i].count)
    {
      AskedCovers(size, uses, i);
      RegisteredWindowsAreInOrder(ns0, slots, base, uses[i].p, uses[i].count);
    }
  }

  /** Resolved windows are the clusters, so a survivor is as wide as the pool exactly if a cluster is. */
  lemma RunsExistExactly(ns: seq<nat>, ps: seq<nat>)
    requires Fitting(ns) && AllHeaders(ns, ps)
    ensures RunsExist(Resolved(ns), Surviving(Resolved(ns), ps)) <==> Clustered(ns, SlotPools.MAX_SLOTS)
  {
    hide Surviving;
    var qs := Surviving(Resolved(ns), ps);
    ResolvedWindows(ns);
    if Clustered(ns, SlotPools.MAX_SLOTS) {
      forall i | 0 <= i < |qs|
        ensures qs[i] < |ns| && Resolved(ns)[qs[i]] < SlotPools.MAX_SLOTS
      {
        assert qs[i] in qs;
        ReachIs(ns, qs[i]);
      }
    }
    if RunsExist(Resolved(ns), qs) {
      forall p: nat, e: nat | IsReach(ns, p, e)
        ensures e - p < SlotPools.MAX_SLOTS
      {
        ReachIs(ns, p);
        ReachUnique(ns, p, e, Reach(ns, p));
        var a := WindowSurvives(ns, p);
        ReachIs(ns, a);
        InnerReach(ns, a, p);
        assert a in qs;
        var i :| 0 <= i < |qs| && qs[i] == a;
      }
    }
  }

  /** Two overlapping windows, of `a` variables from the start and of `b` from `q` to the end, are one cluster. */
  lemma TwoWindows(ns: seq<nat>, a: nat, q: nat, b: nat)
    requires 0 < q < a < q + b == |ns| && 1 < b
    requires ns[0] == a && ns[q] == b && forall k :: 0 <= k < |ns| && k != 0 && k != q ==> ns[k] == 1
    ensures Fitting(ns) && AllHeaders(ns, [0, q]) && IsReach(ns, 0, |ns|) && Reach(ns, 0) == |ns|
    ensures Clustered(ns, SlotPools.MAX_SLOTS) <==> |ns| < SlotPools.MAX_SLOTS
  {
    hide Reach, Clustered;
    assert AllHeaders(ns, [0, q]) by {
      assert [0, q][0] == 0 && [0, q][1] == q;
    }
    forall x: nat | 0 < x < |ns|
      ensures Bridged(ns, 0, x)
    {
      assert if x < a then x < 0 + ns[0] else x < q + ns[q];
    }
    ReachIs(ns, 0);
    ReachUnique(ns, 0, Reach(ns, 0), |ns|);
    OneCluster(ns, SlotPools.MAX_SLOTS);
  }

  lemma OneCluster(ns: seq<nat>, width: nat)
    requires IsReach(ns, 0, |ns|)
    ensures Clustered(ns, width) <==> |ns| < width
  {
  }

  /** The cluster of two overlapping windows is kept in 8 bits. With 200, 150 and 150, 300 variables are kept as 44;
      a run for 44 is found and numbered, and the check rejects the record. */
  lemma TwoWindowsWrap(a: nat, q: nat, b: nat, first: nat, second: nat)
    requires 0 < q < a < q + b && a < 256 && 1 < b < 256
    ensures var size := q + b;
            var uses := [Use(0, a, first), Use(q, b, second)];
            var ns := Demand(size, uses);
            && OnRecord(size, uses) && EndInside(size, uses) && Fitting(ns) && AllHeaders(ns, [0, q])
            && VisitedAll(ns, [0, q])[0] == size % 256
            && (Placeable(size, uses) <==> size < SlotPools.MAX_SLOTS)
  {
    hide Demand, Asked, Width8, Visited8, VisitedAll, Clustered, IsReach, Reach, Fitting, AllHeaders;
    var size := q + b;
    var uses := [Use(0, a, first), Use(q, b, second)];
    var ns := Demand(size, uses);
    DemandOfTwo(size, uses[0], uses[1]);
    DemandIsAsked(size, uses);
    TwoWindows(ns, a, q, b);
    VisitedTwice(ns, 0, q);
    JoinWidth(ns, q, 0, size);
    NoHeaderNoWidth(ns, q, q + 1, size, size);
    WidthAtEnd(ns, q, size);
    MergedThenSkipped(ns, 0, q);
  }

  lemma WidthAtEnd(ns: seq<nat>, p: nat, e: nat)
    requires p < e <= |ns|
    ensures Width8(ns, p, e, e) == ns[p]
  {
  }

  /** The second header of a cluster has been switched off when it is visited. */
  lemma MergedThenSkipped(ns: seq<nat>, p: nat, q: nat)
    requires Fitting(ns) && Header(ns, p) && Header(ns, q) && p < q < Reach(ns, p) <= |ns|
    ensures Visited8(Visited8(ns, p), q)[p] == Width8(ns, p, p + 1, Reach(ns, p))
  {
    hide Width8;
    ReachIs(ns, p);
    assert Merged8(ns, p)[q] == 0;
  }

  lemma VisitedTwice(ns: seq<nat>, p: nat, q: nat)
    requires Fitting(ns) && p < |ns| && q < |ns|
    ensures VisitedAll(ns, [p, q]) == Visited8(Visited8(ns, p), q)
  {
    hide Visited8;
    VisitOneMore(ns, [p], q);
    VisitOneMore(ns, [], p);
    assert [p] + [q] == [p, q] && [] + [p] == [p];
  }

  lemma DemandOfTwo(size: nat, u: Use, v: Use)
    requires u.p < v.p < size
    ensures var ns := Demand(size, [u, v]);
            && ns[u.p] == Raised(1, u.count) && ns[v.p] == Raised(1, v.count)
            && forall k: nat :: k < size && k != u.p && k != v.p ==> ns[k] == 1
  {
    hide Raised;
    var uses := [u, v];
    OneMoreUse(size, uses, 0);
    OneMoreUse(size, uses, 1);
    assert uses[..0] == [] && uses[..1 + 1] == uses && uses[..0 + 1] == uses[..1];
  }

  // ---------------------------------------------------------------- the whole way

  datatype Placement = Placed | TooFewVariables | NoRun | WrongOrder

  /** The answer of the two last passes, from the numbers the headers have and the slots they are given. */
  lemma PlacedExactly(size: nat, uses: seq<Use>, ps: seq<nat>, s: seq<nat>, run: (nat, nat) -> nat)
    requires OnRecord(size, uses) && EndInside(size, uses) && InPool(run) && |s| == size
    requires forall k :: 0 <= k < size ==> s[k] == 0
    requires Fitting(Demand(size, uses)) && AllHeaders(Demand(size, uses), ps)
    requires forall i :: 0 <= i < |ps| ==> ps[i] < size
    requires WindowsInside(VisitedAll(Demand(size, uses), ps), Surviving(VisitedAll(Demand(size, uses), ps), ps))
    ensures var ns := VisitedAll(Demand(size, uses), ps);
            var qs := Surviving(ns, ps);
            (RunsExist(ns, qs) && AllInOrder(NumberedAll(s, ns, qs, Runs(run, ns, qs)), uses))
            <==> Placeable(size, uses)
  {
    hide Asked, Demand, VisitedAll, Surviving, NumberedAll, AllInOrder, AllHeaders, Fitting, Resolved, Narrow;
    var ns := VisitedAll(Demand(size, uses), ps);
    var qs := Surviving(ns, ps);
    var slots := NumberedAll(s, ns, qs, Runs(run, ns, qs));
    AskedFits(size, uses);
    if RunsExist(ns, qs) && AllInOrder(slots, uses) {
      NumbersInPool(s, ns, qs, Runs(run, ns, qs), SlotPools.MAX_SLOTS);
      AcceptedIsClustered(size, uses, slots);
    }
    if Clustered(Asked(size, uses), SlotPools.MAX_SLOTS + 1) {
      ClusteredIsKept(size, uses);
      HeadersVisited(Asked(size, uses), ps);
      RunsExistExactly(Asked(size, uses), ps);
      NumberedIsInOrder(size, uses, ps, s, run);
    }
  }

  lemma HeadersVisited(ns: seq<nat>, ps: seq<nat>)
    requires Fitting(ns) && Narrow(ns) && AllHeaders(ns, ps)
    ensures (forall i :: 0 <= i < |ps| ==> ps[i] < |ns|) && VisitedAll(ns, ps) == Resolved(ns)
  {
    AnyOrderResolves(ns, ps);
  }

  /** Merges and numbers the windows of a record. */
  method Arrange(r: seq<Var>, run: (nat, nat) -> nat, ghost ns: seq<nat>) returns (ok: bool, ghost ps: seq<nat>)
    requires Record(r) && ns == Ns(r) && Fitting(ns)
    modifies (set x | x in r)`n, (set x | x in r)`slot
    ensures Record(r) && AllHeaders(ns, ps) && forall i :: 0 <= i < |ps| ==> ps[i] < |ns|
    ensures var merged := VisitedAll(ns, ps);
            var qs := Surviving(merged, ps);
            && WindowsInside(merged, qs)
            && (ok <==> RunsExist(merged, qs))
            && (ok ==> Slots(r) == NumberedAll(old(Slots(r)), merged, qs, Runs(run, merged, qs)))
  {
    hide VisitedAll, Surviving, NumberedAll, Fitting, WindowsInside, RunsExist, Runs, AllHeaders, Record, Ns, Slots;
    var hs := CollectHeaders(r);
    ps := hs;
    Resolve(r, hs, ns);
    ok := GiveRuns(r, hs, run, VisitedAll(ns, hs));
  }

  /** Whatever the order of the headers and whatever runs the survivors are given: a record gets through exactly if
      every window a statement asks for ends inside it and no cluster of windows is as wide as the pool. */
  method PlaceRecord(r: seq<Var>, uses: seq<Use>, run: (nat, nat) -> nat) returns (res: Placement)
    requires Record(r) && Fresh(r) && OnRecord(|r|, uses) && InPool(run)
    modifies (set x | x in r)`n, (set x | x in r)`from, (set x | x in r)`upto, (set x | x in r)`slot
    ensures res.Placed? <==> Placeable(|r|, uses)
    ensures res.TooFewVariables? <==> !EndInside(|r|, uses)
  {
    hide VisitedAll, Surviving, NumberedAll, AllHeaders, AllInOrder, Demand, Extents, Asked, Ns, Slots, Ranges;
    hide Fitting, WindowsInside, RunsExist, Runs, InPool, Clustered;
    ghost var s := Slots(r);
    var ok;
    ghost var n;
    ok, n := FetchAll(r, uses);
    if !ok {
      return TooFewVariables;
    }
    assert uses[..n] == uses;
    DemandFits(|r|, uses);
    assert Slots(r) == s;
    ghost var ps;
    ok, ps := Arrange(r, run, Ns(r));
    PlacedExactly(|r|, uses, ps, s, run);
    if !ok {
      return NoRun;
    }
    ok := CheckAll(r, uses);
    res := if ok then Placed else WrongOrder;
  }
}
