/** Linear-scan register allocation after Poletto and Sarkar (1999) on the slot pool. */
module LinearScan {
  import opened SlotPools

  /** A variable that needs slots from bytecode position `from` up to and including `upto`. The slot field
      of the source's record is kept in a list beside the intervals. */
  datatype Interval = Interval(from: nat, upto: nat, payload: nat)

  /** The source's `true`, `false`, and a scan whose slot search never exits. */
  datatype ScanResult = AllAllocated | OutOfSlots | NeverReturns

  ghost predicate SortedByStart(s: seq<Interval>) {
    forall i, j :: 0 <= i < j < |s| ==> s[i].from <= s[j].from
  }

  // ---------------------------------------------------------------- specification

  /** The slots held at position `point` by the first `n` intervals. */
  ghost function LiveCells(s: seq<Interval>, slots: seq<nat>, n: nat, point: nat, len: nat): set<nat>
    requires n <= |slots| <= |s|
  {
    if n == 0 then {}
    else LiveCells(s, slots, n - 1, point, len)
         + (if s[n - 1].upto >= point then Span(slots[n - 1], slots[n - 1] + len) else {})
  }

  /** The pool in which interval `i` asks for its slots: the slots set on entry and those of the earlier
      intervals that reach the start of interval `i`. */
  ghost function PoolAt(p: Pool, s: seq<Interval>, slots: seq<nat>, i: nat, len: nat): Pool
    requires i <= |slots| <= |s| && i < |s|
  {
    p.(used := p.used + LiveCells(s, slots, i, s[i].from, len))
  }

  ghost predicate Answered(p: Pool, s: seq<Interval>, slots: seq<nat>, i: nat, len: nat)
    requires i < |slots| <= |s|
  {
    Request(PoolAt(p, s, slots, i, len), len, false) == Found(slots[i])
  }

  /** `slots` are the answers to the requests of the first intervals, each asked for in its pool. */
  ghost predicate Scanned(p: Pool, s: seq<Interval>, slots: seq<nat>, len: nat) {
    && |slots| <= |s|
    && forall i :: 0 <= i < |slots| ==> Answered(p, s, slots, i, len)
  }

  ghost function FrameAfter(frame: nat, slots: seq<nat>, len: nat): nat {
    if slots == [] then frame else Max(FrameAfter(frame, slots[..|slots| - 1], len), slots[|slots| - 1] + len)
  }

  ghost function Verdict(p: Pool, s: seq<Interval>, slots: seq<nat>, len: nat): ScanResult
    requires |slots| <= |s|
  {
    if |slots| == |s| then AllAllocated
    else if Request(PoolAt(p, s, slots, |slots|, len), len, false) == Diverges then NeverReturns
    else OutOfSlots
  }

  /** What a scan of `vars` leaves: the intervals by start position, and the answers up to the first request
      that is refused. */
  ghost predicate Outcome(p: Pool, vars: seq<Interval>, s: seq<Interval>, slots: seq<nat>, len: nat) {
    && multiset(s) == multiset(vars)
    && SortedByStart(s)
    && Scanned(p, s, slots, len)
    && (|slots| < |s| ==> !Request(PoolAt(p, s, slots, |slots|, len), len, false).Found?)
  }

  // ---------------------------------------------------------------- the active list

  ghost predicate Within(active: seq<nat>, n: nat) {
    forall x :: 0 <= x < |active| ==> active[x] < n
  }

  /** The intervals holding slots, each once, ordered by end point. */
  ghost predicate ActiveList(s: seq<Interval>, active: seq<nat>, n: nat) {
    && n <= |s|
    && Within(active, n)
    && (active == [] ||
        (ActiveList(s, active[1..], n)
         && forall j :: j in active[1..] ==> j != active[0] && s[active[0]].upto <= s[j].upto))
  }

  ghost function ActiveCells(slots: seq<nat>, active: seq<nat>, len: nat): set<nat>
    requires Within(active, |slots|)
  {
    if active == [] then {}
    else Span(slots[active[0]], slots[active[0]] + len) + ActiveCells(slots, active[1..], len)
  }

  /** Active runs lie in the pool, apart from each other and from the slots set on entry. */
  ghost predicate Apart(slots: seq<nat>, active: seq<nat>, reserved: set<nat>, len: nat)
    requires Within(active, |slots|)
  {
    && (forall j :: j in active ==> slots[j] + len <= MAX_SLOTS && AllFree(reserved, slots[j], slots[j] + len))
    && (forall j, k :: j in active && k in active && j != k ==> Separate(slots[j], slots[k], len))
  }

  ghost predicate Separate(a: nat, b: nat, len: nat) {
    a + len <= b || b + len <= a
  }

  lemma {:induction false} InActiveCells(slots: seq<nat>, active: seq<nat>, len: nat, c: nat)
    requires Within(active, |slots|)
    ensures c in ActiveCells(slots, active, len) <==>
            exists j :: j in active && slots[j] <= c < slots[j] + len
  {
    if active != [] {
      InActiveCells(slots, active[1..], len, c);
    }
  }

  lemma {:induction false} InLiveCells(s: seq<Interval>, slots: seq<nat>, n: nat, point: nat, len: nat, c: nat)
    requires n <= |slots| <= |s|
    ensures c in LiveCells(s, slots, n, point, len) <==>
            exists j :: 0 <= j < n && s[j].upto >= point && slots[j] <= c < slots[j] + len
  {
    if n > 0 {
      InLiveCells(s, slots, n - 1, point, len, c);
    }
  }

  /** When exactly the earlier intervals that reach `point` are active, they hold the live slots. */
  lemma ActiveAreLive(s: seq<Interval>, slots: seq<nat>, active: seq<nat>, n: nat, point: nat, len: nat)
    requires n == |slots| <= |s| && ActiveList(s, active, n)
    requires forall j :: 0 <= j < n ==> (j in active <==> s[j].upto >= point)
    ensures ActiveCells(slots, active, len) == LiveCells(s, slots, n, point, len)
  {
    forall c: nat
      ensures c in ActiveCells(slots, active, len) <==> c in LiveCells(s, slots, n, point, len)
    {
      InActiveCells(slots, active, len, c);
      InLiveCells(s, slots, n, point, len, c);
      if c in LiveCells(s, slots, n, point, len) {
        var j :| 0 <= j < n && s[j].upto >= point && slots[j] <= c < slots[j] + len;
        assert j in active;
      }
    }
  }

  /** Giving back the first active run leaves the cells of the others. */
  lemma ExpireFirst(slots: seq<nat>, active: seq<nat>, reserved: set<nat>, len: nat)
    requires Within(active, |slots|)
    requires active != [] && Apart(slots, active, reserved, len)
    requires active[0] !in active[1..]
    ensures Apart(slots, active[1..], reserved, len)
    ensures reserved + ActiveCells(slots, active, len) - Span(slots[active[0]], slots[active[0]] + len)
            == reserved + ActiveCells(slots, active[1..], len)
  {
    var first, rest := slots[active[0]], active[1..];
    assert active[0] in active;
    forall c: nat | first <= c < first + len
      ensures c !in reserved && c !in ActiveCells(slots, rest, len)
    {
      InActiveCells(slots, rest, len, c);
    }
  }

  function Insert(s: seq<Interval>, active: seq<nat>, j: nat): (r: seq<nat>)
    requires j < |s| && forall x :: 0 <= x < |active| ==> active[x] < |s|
    ensures |r| == |active| + 1
    ensures forall k :: k in r <==> k == j || k in active
  {
    if active == [] || s[active[0]].upto >= s[j].upto then [j] + active
    else [active[0]] + Insert(s, active[1..], j)
  }

  lemma {:induction false} InsertKeepsOrder(s: seq<Interval>, active: seq<nat>, j: nat, n: nat)
    requires ActiveList(s, active, n) && j < n && j !in active
    ensures ActiveList(s, Insert(s, active, j), n)
  {
    var r := Insert(s, active, j);
    if active == [] || s[active[0]].upto >= s[j].upto {
      assert r[1..] == active;
    } else {
      InsertKeepsOrder(s, active[1..], j, n);
      assert r[1..] == Insert(s, active[1..], j);
    }
  }

  lemma {:induction false} InsertAddsCells(s: seq<Interval>, slots: seq<nat>, active: seq<nat>, j: nat, len: nat)
    requires |slots| <= |s| && j < |slots| && Within(active, |slots|)
    ensures Within(Insert(s, active, j), |slots|)
    ensures ActiveCells(slots, Insert(s, active, j), len)
            == ActiveCells(slots, active, len) + Span(slots[j], slots[j] + len)
  {
    var r := Insert(s, active, j);
    if active == [] || s[active[0]].upto >= s[j].upto {
      assert r[1..] == active;
    } else {
      InsertAddsCells(s, slots, active[1..], j, len);
      assert r[1..] == Insert(s, active[1..], j);
    }
  }

  lemma InsertKeepsApart(s: seq<Interval>, slots: seq<nat>, active: seq<nat>, j: nat, reserved: set<nat>, len: nat)
    requires |slots| <= |s| && j < |slots| && ActiveList(s, active, |slots|) && j !in active
    requires Apart(slots, active, reserved, len) && len > 0 && Within(Insert(s, active, j), |slots|)
    requires slots[j] + len <= MAX_SLOTS
    requires AllFree(reserved + ActiveCells(slots, active, len), slots[j], slots[j] + len)
    ensures Apart(slots, Insert(s, active, j), reserved, len)
  {
    forall k | k in active
      ensures Separate(slots[k], slots[j], len) && Separate(slots[j], slots[k], len)
    {
      InActiveCells(slots, active, len, if slots[k] < slots[j] then slots[j] else slots[k]);
    }
  }

  // ---------------------------------------------------------------- the scan

  function InsertByStart(s: seq<Interval>, v: Interval): (r: seq<Interval>)
    ensures forall w :: w in r ==> w == v || w in s
  {
    if s == [] || v.from < s[0].from then [v] + s else [s[0]] + InsertByStart(s[1..], v)
  }

  lemma {:induction false} InsertByStartSorts(s: seq<Interval>, v: Interval)
    requires SortedByStart(s)
    ensures SortedByStart(InsertByStart(s, v))
  {
    if s != [] && v.from >= s[0].from {
      var rest := InsertByStart(s[1..], v);
      InsertByStartSorts(s[1..], v);
      forall i | 0 <= i < |rest|
        ensures s[0].from <= rest[i].from
      {
        assert rest[i] in rest;
      }
    }
  }

  lemma {:induction false} InsertByStartAdds(s: seq<Interval>, v: Interval)
    ensures multiset(InsertByStart(s, v)) == multiset(s) + multiset{v}
  {
    if s != [] && v.from >= s[0].from {
      InsertByStartAdds(s[1..], v);
      assert s == [s[0]] + s[1..];
    }
  }

  /** A sort by start position. Only the contract is used: any order of intervals with equal starts will do. */
  method SortIntervals(vars: seq<Interval>) returns (s: seq<Interval>)
    ensures multiset(s) == multiset(vars) && SortedByStart(s)
  {
    s := [];
    for i := 0 to |vars|
      invariant multiset(s) == multiset(vars[..i]) && SortedByStart(s)
    {
      assert vars[..i + 1] == vars[..i] + [vars[i]];
      InsertByStartSorts(s, vars[i]);
      InsertByStartAdds(s, vars[i]);
      s := InsertByStart(s, vars[i]);
    }
    assert vars[..|vars|] == vars;
  }

  /** Gives back the runs of the active intervals that end before position `point`. */
  method ExpireOldIntervals(pool: SlotPool, s: seq<Interval>, slots: seq<nat>, active: seq<nat>, point: nat,
          len: nat, ghost reserved: set<nat>)
      returns (rest: seq<nat>)
    requires pool.Valid() && len > 0 && |slots| <= |s| && ActiveList(s, active, |slots|)
    requires Apart(slots, active, reserved, len)
    requires pool.Value().used == reserved + ActiveCells(slots, active, len)
    modifies pool.slots
    ensures ActiveList(s, rest, |slots|)
    ensures forall j :: j in rest <==> j in active && s[j].upto >= point
    ensures Apart(slots, rest, reserved, len)
    ensures pool.Value() == old(pool.Value()).(used := reserved + ActiveCells(slots, rest, len))
  {
    ghost var p := pool.Value();
    rest := active;
    while rest != [] && s[rest[0]].upto < point
      invariant ActiveList(s, rest, |slots|)
      invariant forall j :: j in rest ==> j in active
      invariant forall j :: j in active && s[j].upto >= point ==> j in rest
      invariant Apart(slots, rest, reserved, len)
      invariant pool.Value() == p.(used := reserved + ActiveCells(slots, rest, len))
      decreases |rest|
    {
      ExpireFirst(slots, rest, reserved, len);
      var slot := slots[rest[0]];
      assert rest[0] in rest && slot in Span(slot, slot + len);
      pool.Mark(slot, false);
      pool.Fill(false, slot, slot + len);
      rest := rest[1..];
    }
  }

  /** The list of active intervals when interval `n` is about to be expired against: those that reached the
      start of the interval before it, and that interval itself. */
  ghost predicate ActiveBefore(s: seq<Interval>, active: seq<nat>, n: nat) {
    && n <= |s|
    && (n > 0 ==> forall j :: 0 <= j < n ==> (j in active <==> j == n - 1 || s[j].upto >= s[n - 1].from))
  }

  /** After expiry the active intervals are exactly the earlier ones that reach the start of interval `n`. */
  lemma ActiveAtStart(s: seq<Interval>, before: seq<nat>, active: seq<nat>, n: nat)
    requires n < |s| && SortedByStart(s) && ActiveBefore(s, before, n)
    requires forall j :: j in before ==> j < n
    requires forall j :: j in active <==> j in before && s[j].upto >= s[n].from
    ensures forall j :: 0 <= j < n ==> (j in active <==> s[j].upto >= s[n].from)
  {
    assert n > 0 ==> s[n - 1].from <= s[n].from;
  }

  lemma {:induction false} LiveCellsAppend(s: seq<Interval>, slots: seq<nat>, x: nat, n: nat, point: nat, len: nat)
    requires n <= |slots| < |s|
    ensures LiveCells(s, slots + [x], n, point, len) == LiveCells(s, slots, n, point, len)
  {
    if n > 0 {
      LiveCellsAppend(s, slots, x, n - 1, point, len);
    }
  }

  lemma {:induction false} ActiveCellsAppend(slots: seq<nat>, x: nat, active: seq<nat>, len: nat)
    requires Within(active, |slots|)
    ensures ActiveCells(slots + [x], active, len) == ActiveCells(slots, active, len)
  {
    if active != [] {
      ActiveCellsAppend(slots, x, active[1..], len);
    }
  }

  lemma ScannedAppend(p: Pool, s: seq<Interval>, slots: seq<nat>, x: nat, len: nat)
    requires |slots| < |s| && Scanned(p, s, slots, len)
    requires Request(PoolAt(p, s, slots, |slots|, len), len, false) == Found(x)
    ensures Scanned(p, s, slots + [x], len)
  {
    forall i | 0 <= i < |slots + [x]|
      ensures Answered(p, s, slots + [x], i, len)
    {
      assert i < |slots| ==> Answered(p, s, slots, i, len);
      LiveCellsAppend(s, slots, x, i, s[i].from, len);
    }
  }

  lemma {:induction false} BoundedSize(c: set<nat>, n: nat)
    requires forall x :: x in c ==> x < n
    ensures |c| <= n
  {
    if n == 0 {
      assert c == {};
    } else {
      BoundedSize(c - {n - 1}, n - 1);
      assert c <= (c - {n - 1}) + {n - 1};
    }
  }

  lemma {:induction false} ActiveSize(s: seq<Interval>, slots: seq<nat>, active: seq<nat>, reserved: set<nat>, len: nat)
    requires |slots| <= |s| && ActiveList(s, active, |slots|) && Apart(slots, active, reserved, len) && len > 0
    ensures |active| <= |ActiveCells(slots, active, len)|
  {
    if active != [] {
      var first, rest := active[0], active[1..];
      assert first in active && first !in rest;
      ActiveSize(s, slots, rest, reserved, len);
      InActiveCells(slots, rest, len, slots[first]);
      assert slots[first] in Span(slots[first], slots[first] + len);
      assert {slots[first]} + ActiveCells(slots, rest, len) <= ActiveCells(slots, active, len);
      SubsetSize({slots[first]} + ActiveCells(slots, rest, len), ActiveCells(slots, active, len));
    }
  }

  lemma {:induction false} SubsetSize(a: set<nat>, b: set<nat>)
    requires a <= b
    ensures |a| <= |b|
  {
    assert b == a + (b - a);
  }

  /** While a slot is free there are fewer active intervals than slots, so the size test never decides. */
  lemma ActiveLeavesRoom(s: seq<Interval>, slots: seq<nat>, active: seq<nat>, reserved: set<nat>, len: nat, slot: nat)
    requires |slots| <= |s| && ActiveList(s, active, |slots|) && Apart(slots, active, reserved, len) && len > 0
    requires slot < MAX_SLOTS && slot !in ActiveCells(slots, active, len)
    ensures |active| < MAX_SLOTS
  {
    var cells := ActiveCells(slots, active, len);
    ActiveSize(s, slots, active, reserved, len);
    forall c: nat | c in cells
      ensures c < MAX_SLOTS
    {
      InActiveCells(slots, active, len, c);
    }
    BoundedSize(cells + {slot}, MAX_SLOTS);
  }

  ghost predicate ScanState(p: Pool, s: seq<Interval>, slots: seq<nat>, active: seq<nat>, len: nat) {
    && Scanned(p, s, slots, len)
    && ActiveList(s, active, |slots|)
    && ActiveBefore(s, active, |slots|)
    && Apart(slots, active, p.used, len)
  }

  ghost function PoolWith(p: Pool, slots: seq<nat>, active: seq<nat>, len: nat): Pool
    requires Within(active, |slots|)
  {
    Pool(p.used + ActiveCells(slots, active, len), p.callArgs, FrameAfter(p.frameSize, slots, len))
  }

  /** `x` is the base of a run that is free in the pool of the active intervals. */
  ghost predicate FreeBase(p: Pool, slots: seq<nat>, active: seq<nat>, x: nat, len: nat)
    requires Within(active, |slots|)
  {
    x + len <= MAX_SLOTS && AllFree(p.used + ActiveCells(slots, active, len), x, x + len)
  }

  /** Giving interval `|slots|` the run at `x`, once the intervals that ended before it have been expired. */
  lemma ActivateCells(p: Pool, s: seq<Interval>, slots: seq<nat>, active: seq<nat>, x: nat, len: nat)
    requires |slots| < |s| && Within(active, |slots|)
    ensures Within(Insert(s, active, |slots|), |slots + [x]|)
    ensures PoolWith(p, slots + [x], Insert(s, active, |slots|), len)
            == Take(PoolWith(p, slots, active, len), x, len, false)
  {
    ActiveCellsAppend(slots, x, active, len);
    InsertAddsCells(s, slots + [x], active, |slots|, len);
    assert (slots + [x])[..|slots|] == slots;
  }

  lemma ApartAppend(slots: seq<nat>, x: nat, active: seq<nat>, reserved: set<nat>, len: nat)
    requires Within(active, |slots|) && Apart(slots, active, reserved, len)
    ensures Apart(slots + [x], active, reserved, len)
  {
    var more := slots + [x];
    assert forall j :: j in active ==> j < |slots| && more[j] == slots[j];
  }

  lemma ActivateKeepsApart(p: Pool, s: seq<Interval>, slots: seq<nat>, active: seq<nat>, x: nat, len: nat)
    requires len > 0 && |slots| < |s| && ActiveList(s, active, |slots|) && Apart(slots, active, p.used, len)
    requires FreeBase(p, slots, active, x, len)
    ensures Within(Insert(s, active, |slots|), |slots + [x]|)
    ensures Apart(slots + [x], Insert(s, active, |slots|), p.used, len)
  {
    hide ActiveCells;
    var i, more := |slots|, slots + [x];
    assert i !in active;
    ActiveCellsAppend(slots, x, active, len);
    InsertAddsCells(s, more, active, i, len);
    ListWidens(s, active, i);
    ApartAppend(slots, x, active, p.used, len);
    InsertKeepsApart(s, more, active, i, p.used, len);
  }

  lemma {:induction false} ListWidens(s: seq<Interval>, active: seq<nat>, n: nat)
    requires n < |s| && ActiveList(s, active, n)
    ensures ActiveList(s, active, n + 1)
  {
    if active != [] {
      ListWidens(s, active[1..], n);
    }
  }

  lemma Activate(p: Pool, s: seq<Interval>, slots: seq<nat>, active: seq<nat>, x: nat, len: nat)
    requires len > 0 && |slots| < |s| && Scanned(p, s, slots, len)
    requires ActiveList(s, active, |slots|) && Apart(slots, active, p.used, len)
    requires forall j :: 0 <= j < |slots| ==> (j in active <==> s[j].upto >= s[|slots|].from)
    requires FreeBase(p, slots, active, x, len) && Request(PoolAt(p, s, slots, |slots|, len), len, false) == Found(x)
    ensures ScanState(p, s, slots + [x], Insert(s, active, |slots|), len)
  {
    var i := |slots|;
    NewlyActive(s, active, i);
    ActivateKeepsApart(p, s, slots, active, x, len);
    ListWidens(s, active, i);
    InsertKeepsOrder(s, active, i, i + 1);
    hide ActiveList, ActiveCells, ActiveBefore, Insert, Scanned, Apart, FreeBase;
    ScannedAppend(p, s, slots, x, len);
  }

  lemma NewlyActive(s: seq<Interval>, active: seq<nat>, n: nat)
    requires n < |s| && ActiveList(s, active, n)
    requires forall j :: 0 <= j < n ==> (j in active <==> s[j].upto >= s[n].from)
    ensures n !in active && ActiveBefore(s, Insert(s, active, n), n + 1)
  {
    hide ActiveList, Insert;
    assert Within(active, n) by { ListIsWithin(s, active, n); }
  }

  lemma ListIsWithin(s: seq<Interval>, active: seq<nat>, n: nat)
    requires ActiveList(s, active, n)
    ensures Within(active, n)
  {
  }

  /** One round of the scan: expire, ask for a run, and activate the interval. */
  method ScanOne(pool: SlotPool, s: seq<Interval>, slots: seq<nat>, active: seq<nat>, len: nat, ghost p: Pool)
      returns (found: Search, slots': seq<nat>, active': seq<nat>)
    requires pool.Valid() && len > 0 && SortedByStart(s) && |slots| < |s|
    requires ScanState(p, s, slots, active, len) && pool.Value() == PoolWith(p, slots, active, len)
    modifies pool`callArgs, pool`frameSize, pool.slots
    ensures found == Request(PoolAt(p, s, slots, |slots|, len), len, false)
    ensures slots' == if found.Found? then slots + [found.slot] else slots
    ensures found.Found? ==> ScanState(p, s, slots', active', len) && pool.Value() == PoolWith(p, slots', active', len)
    ensures !found.Found? ==>
              pool.Value() == PoolAt(p, s, slots, |slots|, len).(frameSize := FrameAfter(p.frameSize, slots, len))
  {
    hide Scanned, ActiveCells, LiveCells, SortedByStart, Apart, ActiveBefore;
    var i := |slots|;
    var rest := ExpireOldIntervals(pool, s, slots, active, s[i].from, len, p.used);
    ActiveAtStart(s, active, rest, i);
    ActiveAreLive(s, slots, rest, i, s[i].from, len);
    ghost var q := PoolWith(p, slots, rest, len);
    assert pool.Value() == q;
    found := pool.NextFreeSlot(len, false);
    if found.Found? {
      FoundRunIsFree(q, len, false);
      ActiveLeavesRoom(s, slots, rest, p.used, len, found.slot);
      ActivateCells(p, s, slots, rest, found.slot, len);
      Activate(p, s, slots, rest, found.slot, len);
    }
    if |rest| >= MAX_SLOTS || !found.Found? {
      return found, slots, rest;
    }
    slots' := slots + [found.slot];
    active' := Insert(s, rest, i);
  }

  method AllocateWithLinearScan(pool: SlotPool, vars: seq<Interval>, len: nat)
      returns (r: ScanResult, s: seq<Interval>, slots: seq<nat>)
    requires pool.Valid() && len > 0
    modifies pool`callArgs, pool`frameSize, pool.slots
    ensures Outcome(old(pool.Value()), vars, s, slots, len)
    ensures r == Verdict(old(pool.Value()), s, slots, len)
    ensures pool.Value() == PoolAfter(old(pool.Value()), s, slots, len)
  {
    ghost var p := pool.Value();
    s := SortIntervals(vars);
    slots := [];
    var active := [];
    for i := 0 to |s|
      invariant |slots| == i && ScanState(p, s, slots, active, len)
      invariant pool.Value() == PoolWith(p, slots, active, len)
    {
      var found;
      found, slots, active := ScanOne(pool, s, slots, active, len, p);
      if !found.Found? {
        r := if found == Diverges then NeverReturns else OutOfSlots;
        return;
      }
    }
    r := AllAllocated;
    FinalPool(p, s, slots, active, len);
  }

  /** The pool when the scan returns: the slots set on entry, those of the intervals that were active when it
      stopped, and the frame size raised to the end of the highest run. */
  ghost function PoolAfter(p: Pool, s: seq<Interval>, slots: seq<nat>, len: nat): Pool
    requires |slots| <= |s|
  {
    var n := |slots|;
    Pool(if n < |s| then PoolAt(p, s, slots, n, len).used
         else if n == 0 then p.used
         else PoolAt(p, s, slots, n - 1, len).used + Span(slots[n - 1], slots[n - 1] + len),
         p.callArgs,
         FrameAfter(p.frameSize, slots, len))
  }

  lemma FinalPool(p: Pool, s: seq<Interval>, slots: seq<nat>, active: seq<nat>, len: nat)
    requires ScanState(p, s, slots, active, len) && |slots| == |s|
    ensures PoolWith(p, slots, active, len) == PoolAfter(p, s, slots, len)
  {
    var n := |s|;
    if n == 0 {
      assert active == [];
    } else {
      forall c: nat
        ensures c in ActiveCells(slots, active, len) <==>
                c in LiveCells(s, slots, n - 1, s[n - 1].from, len) + Span(slots[n - 1], slots[n - 1] + len)
      {
        FinalCell(s, slots, active, len, c);
      }
    }
  }

  lemma FinalCell(s: seq<Interval>, slots: seq<nat>, active: seq<nat>, len: nat, c: nat)
    requires |slots| == |s| > 0 && ActiveList(s, active, |s|) && ActiveBefore(s, active, |s|)
    ensures var n := |s|;
            c in ActiveCells(slots, active, len) <==>
            c in LiveCells(s, slots, n - 1, s[n - 1].from, len) || slots[n - 1] <= c < slots[n - 1] + len
  {
    var n := |s|;
    InActiveCells(slots, active, len, c);
    InLiveCells(s, slots, n - 1, s[n - 1].from, len, c);
    assert n - 1 in active;
    if c in LiveCells(s, slots, n - 1, s[n - 1].from, len) {
      var j :| 0 <= j < n - 1 && s[j].upto >= s[n - 1].from && slots[j] <= c < slots[j] + len;
      assert j in active;
    }
  }
}
