/** Runs of the slot pool: any sequence of allocations and of releases of runs that are still live. */
module SlotSessions {
  import opened SlotPools

  datatype Run = Run(slot: nat, len: nat, call: bool)

  datatype Op = Allocate(len: nat, call: bool) | Free(index: nat)

  /** The pool, the runs handed out and not yet released, and all runs ever handed out. */
  datatype Session = Session(pool: Pool, live: seq<Run>, history: seq<Run>)

  ghost function Exec(s: Session, op: Op): Session {
    match op
    case Allocate(len, call) =>
      var r := Request(s.pool, len, call);
      if r.Found? then
        var run := Run(r.slot, len, call);
        Session(Allocated(s.pool, len, call), s.live + [run], s.history + [run])
      else s
    case Free(i) =>
      if i < |s.live| then
        Session(AfterRelease(s.pool, s.live[i].slot, s.live[i].len), s.live[..i] + s.live[i + 1..], s.history)
      else s
  }

  ghost function ExecAll(s: Session, ops: seq<Op>): Session
    decreases |ops|
  {
    if ops == [] then s else ExecAll(Exec(s, ops[0]), ops[1..])
  }

  ghost function Cells(r: Run): set<nat> {
    Span(r.slot, r.slot + r.len)
  }

  ghost function AllCells(live: seq<Run>): set<nat> {
    if live == [] then {} else AllCells(live[..|live| - 1]) + Cells(live[|live| - 1])
  }

  /** The bases of the live call runs, oldest first. */
  ghost function Bases(live: seq<Run>): seq<nat> {
    if live == [] then [] else if live[0].call then [live[0].slot] + Bases(live[1..]) else Bases(live[1..])
  }

  ghost function HighWater(entry: nat, history: seq<Run>): nat {
    if history == [] then entry
    else var last := history[|history| - 1]; Max(HighWater(entry, history[..|history| - 1]), last.slot + last.len)
  }

  ghost predicate InPool(s: set<nat>) {
    forall u: nat :: u in s ==> u < MAX_SLOTS
  }

  ghost predicate InBounds(live: seq<Run>) {
    forall i :: 0 <= i < |live| ==> live[i].len > 0 && live[i].slot + live[i].len <= MAX_SLOTS
  }

  ghost predicate Disjoint(live: seq<Run>) {
    forall i, j :: 0 <= i < j < |live| ==> Cells(live[i]) !! Cells(live[j])
  }

  /** Every run handed out after a call run that is still live lies above it. */
  ghost predicate AboveCalls(live: seq<Run>) {
    forall i, j :: 0 <= i < j < |live| && live[i].call ==> live[i].slot + live[i].len <= live[j].slot
  }

  /** What every reachable session satisfies, for the slots reserved at the start and the entry frame size. */
  ghost predicate Safe(reserved: set<nat>, entry: nat, s: Session) {
    && InBounds(s.live)
    && Disjoint(s.live)
    && AboveCalls(s.live)
    && AllCells(s.live) !! reserved
    && s.pool.used == reserved + AllCells(s.live)
    && s.pool.callArgs == Bases(s.live)
    && s.pool.frameSize == HighWater(entry, s.history)
  }

  lemma {:induction false} CellsOf(live: seq<Run>, i: nat)
    requires i < |live|
    ensures Cells(live[i]) <= AllCells(live)
  {
    if i < |live| - 1 {
      CellsOf(live[..|live| - 1], i);
    }
  }

  lemma {:induction false} OwnerOf(live: seq<Run>, x: nat) returns (i: nat)
    requires x in AllCells(live)
    ensures i < |live| && x in Cells(live[i])
  {
    i := |live| - 1;
    if x !in Cells(live[i]) {
      i := OwnerOf(live[..i], x);
    }
  }

  // ---------------------------------------------------------------- lists of bases

  lemma {:induction false} BasesAppend(live: seq<Run>, r: Run)
    ensures Bases(live + [r]) == Bases(live) + (if r.call then [r.slot] else [])
  {
    if live == [] {
      assert live + [r] == [r];
    } else {
      assert (live + [r])[1..] == live[1..] + [r];
      BasesAppend(live[1..], r);
    }
  }

  lemma {:induction false} BaseIsLive(live: seq<Run>, c: nat)
    requires c in Bases(live)
    ensures exists i :: 0 <= i < |live| && live[i].call && live[i].slot == c
  {
    if live[0].call && live[0].slot == c {
    } else {
      BaseIsLive(live[1..], c);
      var i :| 0 <= i < |live[1..]| && live[1..][i].call && live[1..][i].slot == c;
      assert live[i + 1] == live[1..][i];
    }
  }

  lemma {:induction false} RemoveAbsent(s: seq<nat>, x: nat)
    requires x !in s
    ensures RemoveOne(s, x) == s
  {
    if s != [] {
      RemoveAbsent(s[1..], x);
    }
  }

  lemma {:induction false} BasesRemove(live: seq<Run>, i: nat)
    requires i < |live|
    requires forall j, k :: 0 <= j < k < |live| ==> live[j].slot != live[k].slot
    ensures Bases(live[..i] + live[i + 1..]) == RemoveOne(Bases(live), live[i].slot)
  {
    var tail := live[1..];
    if i == 0 {
      assert live[..i] + live[i + 1..] == tail;
      if !live[0].call {
        if live[0].slot in Bases(tail) {
          BaseIsLive(tail, live[0].slot);
        }
        RemoveAbsent(Bases(tail), live[0].slot);
      }
    } else {
      var rest := live[..i] + live[i + 1..];
      assert rest[1..] == tail[..i - 1] + tail[i..];
      BasesRemove(tail, i - 1);
      assert tail[i - 1] == live[i] && rest[0] == live[0];
    }
  }

  /** The innermost pending base belongs to the last live call run. */
  lemma {:induction false} InnermostBase(live: seq<Run>) returns (k: nat)
    requires Bases(live) != []
    ensures k < |live| && live[k].call && live[k].slot == Bases(live)[|Bases(live)| - 1]
    ensures forall j :: k < j < |live| ==> !live[j].call
  {
    var n := |live| - 1;
    assert live == live[..n] + [live[n]];
    BasesAppend(live[..n], live[n]);
    if live[n].call {
      k := n;
    } else {
      k := InnermostBase(live[..n]);
    }
  }

  // ---------------------------------------------------------------- one step

  /** The base of a call is above every used slot. */
  lemma CallIsAboveUsed(p: Pool, len: nat)
    requires Request(p, len, true).Found? && InPool(p.used)
    ensures forall u :: u in p.used ==> u < Request(p, len, true).slot
  {
    FoundRunIsFree(p, len, true);
  }

  lemma UsedInRange(reserved: set<nat>, live: seq<Run>)
    requires InBounds(live) && InPool(reserved)
    ensures InPool(reserved + AllCells(live))
  {
    forall u: nat | u in reserved + AllCells(live)
      ensures u < MAX_SLOTS
    {
      if u in AllCells(live) {
        var i := OwnerOf(live, u);
        assert live[i].slot + live[i].len <= MAX_SLOTS;
      }
    }
  }

  /** A free slot that is above every used slot, or at least at the innermost pending base, is above the end
      of every live call run. */
  lemma FreeSlotIsAboveCalls(live: seq<Run>, slot: nat, i: nat)
    requires InBounds(live) && AboveCalls(live) && slot !in AllCells(live)
    requires (forall u :: u in AllCells(live) ==> u < slot)
             || (Bases(live) != [] ==> Bases(live)[|Bases(live)| - 1] <= slot)
    requires i < |live| && live[i].call
    ensures live[i].slot + live[i].len <= slot
  {
    CallIsABase(live, i);
    var k := InnermostBase(live);
    CellsOf(live, k);
    assert live[k].slot in Cells(live[k]);
    assert slot !in Cells(live[k]);
    assert live[k].slot <= slot;
    assert i <= k;
  }

  lemma NewRunIsAboveCalls(reserved: set<nat>, entry: nat, s: Session, len: nat, call: bool, i: nat)
    requires Safe(reserved, entry, s) && InPool(reserved)
    requires Request(s.pool, len, call).Found?
    requires i < |s.live| && s.live[i].call
    ensures s.live[i].slot + s.live[i].len <= Request(s.pool, len, call).slot
  {
    FoundRunIsFree(s.pool, len, call);
    if call {
      UsedInRange(reserved, s.live);
      CallIsAboveUsed(s.pool, len);
    }
    FreeSlotIsAboveCalls(s.live, Request(s.pool, len, call).slot, i);
  }

  lemma {:induction false} CallIsABase(live: seq<Run>, i: nat)
    requires i < |live| && live[i].call
    ensures live[i].slot in Bases(live)
  {
    if i > 0 {
      CallIsABase(live[1..], i - 1);
    }
  }

  lemma CellsAppend(live: seq<Run>, r: Run)
    ensures AllCells(live + [r]) == AllCells(live) + Cells(r)
  {
    assert (live + [r])[..|live|] == live;
  }

  lemma {:induction false} CellsRemove(live: seq<Run>, i: nat)
    requires i < |live| && Disjoint(live)
    ensures AllCells(live[..i] + live[i + 1..]) == AllCells(live) - Cells(live[i])
  {
    hide Cells, AllCells;
    var n := |live| - 1;
    var init, last := live[..n], live[n];
    CellsAppend(init, last);
    assert live == init + [last];
    if i == n {
      assert live[..i] + live[i + 1..] == init;
      CellsApart(init, last);
    } else {
      var rest := init[..i] + init[i + 1..];
      CellsRemove(init, i);
      assert live[..i] + live[i + 1..] == rest + [last];
      CellsAppend(rest, last);
      assert Cells(init[i]) !! Cells(last);
    }
  }

  lemma {:induction false} CellsApart(live: seq<Run>, r: Run)
    requires forall i :: 0 <= i < |live| ==> Cells(live[i]) !! Cells(r)
    ensures AllCells(live) !! Cells(r)
  {
    if live != [] {
      CellsApart(live[..|live| - 1], r);
    }
  }

  lemma AppendKeepsShape(live: seq<Run>, r: Run)
    requires InBounds(live) && Disjoint(live) && AboveCalls(live)
    requires r.len > 0 && r.slot + r.len <= MAX_SLOTS && Cells(r) !! AllCells(live)
    requires forall i :: 0 <= i < |live| && live[i].call ==> live[i].slot + live[i].len <= r.slot
    ensures InBounds(live + [r]) && Disjoint(live + [r]) && AboveCalls(live + [r])
  {
    hide Cells, AllCells;
    var l := live + [r];
    forall i, j | 0 <= i < j < |l|
      ensures Cells(l[i]) !! Cells(l[j])
    {
      CellsOf(live, i);
    }
  }

  lemma RemoveKeepsShape(live: seq<Run>, i: nat)
    requires i < |live|
    requires InBounds(live) && Disjoint(live) && AboveCalls(live)
    ensures var rest := live[..i] + live[i + 1..]; InBounds(rest) && Disjoint(rest) && AboveCalls(rest)
  {
    var rest := live[..i] + live[i + 1..];
    assert forall j :: 0 <= j < |rest| ==> rest[j] == live[if j < i then j else j + 1];
  }

  /** The pool and the run list after a successful allocation. */
  lemma ExecAllocate(s: Session, len: nat, call: bool)
    requires Request(s.pool, len, call).Found?
    ensures var run := Run(Request(s.pool, len, call).slot, len, call);
            && Exec(s, Allocate(len, call)).live == s.live + [run]
            && Exec(s, Allocate(len, call)).history == s.history + [run]
            && Exec(s, Allocate(len, call)).pool == Take(s.pool, run.slot, len, call)
  {
  }

  lemma AllocateKeepsSafe(reserved: set<nat>, entry: nat, s: Session, len: nat, call: bool)
    requires Safe(reserved, entry, s) && len > 0
    requires InPool(reserved)
    ensures Safe(reserved, entry, Exec(s, Allocate(len, call)))
  {
    var r := Request(s.pool, len, call);
    if r.Found? {
      var run := Run(r.slot, len, call);
      ExecAllocate(s, len, call);
      FoundRunIsFree(s.pool, len, call);
      assert forall x: nat :: x in Cells(run) ==> x !in s.pool.used;
      NewRunKeepsSafe(reserved, entry, s, run);
    }
  }

  lemma NewRunKeepsSafe(reserved: set<nat>, entry: nat, s: Session, run: Run)
    requires Safe(reserved, entry, s) && InPool(reserved)
    requires run.len > 0 && run.slot + run.len <= MAX_SLOTS && Cells(run) !! s.pool.used
    requires Request(s.pool, run.len, run.call) == Found(run.slot)
    ensures Safe(reserved, entry, Session(Take(s.pool, run.slot, run.len, run.call), s.live + [run], s.history + [run]))
  {
    hide Request, InPool, Bases, AllCells, Disjoint, InBounds, AboveCalls, HighWater, Span;
    forall i | 0 <= i < |s.live| && s.live[i].call
      ensures s.live[i].slot + s.live[i].len <= run.slot
    {
      NewRunIsAboveCalls(reserved, entry, s, run.len, run.call, i);
    }
    AppendKeepsShape(s.live, run);
    BasesAppend(s.live, run);
    CellsAppend(s.live, run);
    HighWaterAppend(entry, s.history, run);
  }

  lemma HighWaterAppend(entry: nat, history: seq<Run>, r: Run)
    ensures HighWater(entry, history + [r]) == Max(HighWater(entry, history), r.slot + r.len)
  {
    assert (history + [r])[..|history|] == history;
  }

  lemma SlotsDiffer(live: seq<Run>)
    requires InBounds(live) && Disjoint(live)
    ensures forall j, k :: 0 <= j < k < |live| ==> live[j].slot != live[k].slot
  {
    forall j, k | 0 <= j < k < |live|
      ensures live[j].slot != live[k].slot
    {
      assert live[j].slot in Cells(live[j]) && live[k].slot in Cells(live[k]);
      assert Cells(live[j]) !! Cells(live[k]);
    }
  }

  lemma LiveRunReleases(p: Pool, r: Run)
    requires Cells(r) <= p.used && r.slot + r.len <= MAX_SLOTS
    ensures ReleaseResult(p, r.slot, r.len) == Released
    ensures AfterRelease(p, r.slot, r.len) == Pool(p.used - Cells(r), RemoveOne(p.callArgs, r.slot), p.frameSize)
  {
    var b := FirstUnused(p.used, r.slot, r.len);
    assert b < r.slot + r.len ==> b in Cells(r);
  }

  lemma FreeKeepsSafe(reserved: set<nat>, entry: nat, s: Session, i: nat)
    requires Safe(reserved, entry, s) && i < |s.live|
    ensures ReleaseResult(s.pool, s.live[i].slot, s.live[i].len) == Released
    ensures Safe(reserved, entry, Exec(s, Free(i)))
  {
    CellsOf(s.live, i);
    LiveRunReleases(s.pool, s.live[i]);
    RemovedRunKeepsSafe(reserved, entry, s, i);
    assert Exec(s, Free(i)).pool == AfterRelease(s.pool, s.live[i].slot, s.live[i].len);
  }

  lemma RemovedRunKeepsSafe(reserved: set<nat>, entry: nat, s: Session, i: nat)
    requires Safe(reserved, entry, s) && i < |s.live|
    ensures Safe(reserved, entry,
                 Session(Pool(s.pool.used - Cells(s.live[i]), RemoveOne(s.pool.callArgs, s.live[i].slot),
                              s.pool.frameSize),
                         s.live[..i] + s.live[i + 1..], s.history))
  {
    CellsOf(s.live, i);
    SlotsDiffer(s.live);
    BasesRemove(s.live, i);
    CellsRemove(s.live, i);
    RemoveKeepsShape(s.live, i);
    assert Cells(s.live[i]) !! reserved;
  }

  // ---------------------------------------------------------------- every run of the pool

  /** From a pool without pending calls, every sequence of allocations of at least one slot and of releases of
      live runs keeps the pool safe. */
  lemma {:induction false} EveryRunIsSafe(reserved: set<nat>, entry: nat, s: Session, ops: seq<Op>)
    requires Safe(reserved, entry, s)
    requires InPool(reserved)
    requires forall i :: 0 <= i < |ops| && ops[i].Allocate? ==> ops[i].len > 0
    ensures Safe(reserved, entry, ExecAll(s, ops))
    decreases ops
  {
    if ops != [] {
      match ops[0] {
        case Allocate(len, call) => AllocateKeepsSafe(reserved, entry, s, len, call);
        case Free(i) => if i < |s.live| { FreeKeepsSafe(reserved, entry, s, i); }
      }
      EveryRunIsSafe(reserved, entry, Exec(s, ops[0]), ops[1..]);
      assert ExecAll(s, ops) == ExecAll(Exec(s, ops[0]), ops[1..]);
    }
  }

  lemma {:induction false} BasesIncrease(live: seq<Run>)
    requires InBounds(live) && AboveCalls(live)
    ensures forall a, b :: 0 <= a < b < |Bases(live)| ==> Bases(live)[a] < Bases(live)[b]
  {
    if live != [] {
      var tail := live[1..];
      assert forall i :: 0 <= i < |tail| ==> tail[i] == live[i + 1];
      BasesIncrease(tail);
      forall b | 0 <= b < |Bases(tail)| && live[0].call
        ensures live[0].slot < Bases(tail)[b]
      {
        BaseIsLive(tail, Bases(tail)[b]);
      }
      forall a, b | 0 <= a < b < |Bases(live)|
        ensures Bases(live)[a] < Bases(live)[b]
      {
        if live[0].call {
          assert Bases(live)[b] == Bases(tail)[b - 1];
        }
      }
    }
  }

  lemma {:induction false} HighWaterBounds(entry: nat, history: seq<Run>)
    ensures entry <= HighWater(entry, history)
    ensures forall i :: 0 <= i < |history| ==> history[i].slot + history[i].len <= HighWater(entry, history)
    ensures HighWater(entry, history) == entry
            || exists i :: 0 <= i < |history| && HighWater(entry, history) == history[i].slot + history[i].len
  {
    if history != [] {
      HighWaterBounds(entry, history[..|history| - 1]);
    }
  }

  /** What safety means for the pool: live runs are disjoint and used, the pending call bases strictly
      increase and are used, and the frame size is the high-water mark of every run ever handed out. */
  ghost predicate WellKept(reserved: set<nat>, entry: nat, s: Session) {
    var calls := s.pool.callArgs;
    && (forall i, j :: 0 <= i < j < |s.live| ==> Cells(s.live[i]) !! Cells(s.live[j]))
    && (forall i :: 0 <= i < |s.live| ==> Cells(s.live[i]) <= s.pool.used - reserved)
    && (forall a, b :: 0 <= a < b < |calls| ==> calls[a] < calls[b])
    && (forall a :: 0 <= a < |calls| ==> calls[a] in s.pool.used)
    && entry <= s.pool.frameSize
    && (forall i :: 0 <= i < |s.history| ==> s.history[i].slot + s.history[i].len <= s.pool.frameSize)
    && (s.pool.frameSize == entry
        || exists i :: 0 <= i < |s.history| && s.history[i].slot + s.history[i].len == s.pool.frameSize)
  }

  lemma SafeIsWellKept(reserved: set<nat>, entry: nat, s: Session)
    requires Safe(reserved, entry, s)
    ensures WellKept(reserved, entry, s)
  {
    BasesIncrease(s.live);
    HighWaterBounds(entry, s.history);
    forall i | 0 <= i < |s.live|
      ensures Cells(s.live[i]) <= s.pool.used - reserved
    {
      CellsOf(s.live, i);
    }
    forall a | 0 <= a < |s.pool.callArgs|
      ensures s.pool.callArgs[a] in s.pool.used
    {
      BaseIsLive(s.live, s.pool.callArgs[a]);
      var i :| 0 <= i < |s.live| && s.live[i].call && s.live[i].slot == s.pool.callArgs[a];
      assert s.live[i].slot in Cells(s.live[i]);
      CellsOf(s.live, i);
    }
  }

  ghost function Opened(reserved: set<nat>, entry: nat): Session {
    Session(Pool(reserved, [], entry), [], [])
  }

  /** Every sequence of allocations and releases from a pool without pending calls is well kept. */
  lemma EverySession(reserved: set<nat>, entry: nat, ops: seq<Op>)
    requires InPool(reserved)
    requires forall i :: 0 <= i < |ops| && ops[i].Allocate? ==> ops[i].len > 0
    ensures Safe(reserved, entry, ExecAll(Opened(reserved, entry), ops))
    ensures WellKept(reserved, entry, ExecAll(Opened(reserved, entry), ops))
  {
    assert AllCells([]) == {};
    EveryRunIsSafe(reserved, entry, Opened(reserved, entry), ops);
    SafeIsWellKept(reserved, entry, ExecAll(Opened(reserved, entry), ops));
  }

  /** At any point of such a run the next allocation avoids every used slot and lies above every pending call,
      and a call lies above every used slot. */
  lemma EveryAllocation(reserved: set<nat>, entry: nat, ops: seq<Op>, len: nat, call: bool)
    requires InPool(reserved)
    requires len > 0 && forall i :: 0 <= i < |ops| && ops[i].Allocate? ==> ops[i].len > 0
    requires Request(ExecAll(Opened(reserved, entry), ops).pool, len, call).Found?
    ensures var s := ExecAll(Opened(reserved, entry), ops);
            var slot := Request(s.pool, len, call).slot;
            && AllFree(s.pool.used, slot, slot + len)
            && (forall i :: 0 <= i < |s.live| && s.live[i].call ==> s.live[i].slot + s.live[i].len <= slot)
            && (call ==> forall u :: u in s.pool.used ==> u < slot)
  {
    EverySession(reserved, entry, ops);
    var s := ExecAll(Opened(reserved, entry), ops);
    FoundRunIsFree(s.pool, len, call);
    UsedInRange(reserved, s.live);
    if call {
      CallIsAboveUsed(s.pool, len);
    }
    forall i | 0 <= i < |s.live| && s.live[i].call
      ensures s.live[i].slot + s.live[i].len <= Request(s.pool, len, call).slot
    {
      NewRunIsAboveCalls(reserved, entry, s, len, call, i);
    }
  }
}
