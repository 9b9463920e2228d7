/** The 250-bit slot pool of the composer: first-fit search for runs of consecutive slots, the stack of
    pending call bases, and the frame-size high-water mark.

    The class `SlotPool` is the mutable pool; the datatype `Pool` is its value. Every method of the class
    is proved against a function or predicate on `Pool`, and the properties of the pool are lemmas about
    those functions. */
module SlotPools {
  import opened Basics

  const MAX_SLOTS: nat := 250

  /** Outcome of a slot request. `Diverges` stands for a search loop that never exits;
      `SearchDivergesExactly` says when that happens. */
  datatype Search = Found(slot: nat) | Full | Diverges

  /** Outcome of a release: `NotUsed` is the source's `false`, `OutOfRange` the exception of an
      out-of-bounds bitset access. */
  datatype Release = Released | NotUsed | OutOfRange

  datatype Pool = Pool(used: set<nat>, callArgs: seq<nat>, frameSize: nat)

  // ---------------------------------------------------------------- specification of the search

  ghost function Span(from: nat, to: nat): (r: set<nat>)
    ensures forall k: nat :: k in r <==> from <= k < to
  {
    if from >= to then {} else Span(from, to - 1) + {to - 1}
  }

  /** `p` can be the base of a run of `len` slots. A single slot may be the last one of the pool; a longer
      run has to end strictly below it. */
  ghost predicate Fits(used: set<nat>, p: nat, len: nat) {
    && p < MAX_SLOTS
    && p !in used
    && (len == 1 || (p + len < MAX_SLOTS && AllFree(used, p, p + len)))
  }

  ghost predicate AllFree(used: set<nat>, from: nat, upto: nat) {
    forall k: nat :: from <= k < upto ==> k !in used
  }

  /** The first slot of a free block, as seen by a search that begins at `start`. */
  ghost predicate Head(used: set<nat>, start: nat, q: nat) {
    start <= q && q !in used && (q == start || q - 1 in used)
  }

  /** A free block at or above `start` whose first slot leaves no room for `len` slots before the end of
      the pool. */
  ghost predicate Stuck(used: set<nat>, start: nat, q: nat, len: nat) {
    q < MAX_SLOTS && Head(used, start, q) && len != 1 && q + len >= MAX_SLOTS
  }

  /** The lowest base at or above `start` where a run of `len` slots fits. */
  ghost function FirstFit(used: set<nat>, start: nat, len: nat): (r: Option<nat>)
    ensures r.Some? ==>
              && start <= r.value && Fits(used, r.value, len)
              && forall q: nat :: start <= q < r.value ==> !Fits(used, q, len)
    ensures r.None? ==> forall q: nat :: start <= q ==> !Fits(used, q, len)
    decreases MAX_SLOTS - start
  {
    if start >= MAX_SLOTS then None
    else if Fits(used, start, len) then Some(start)
    else FirstFit(used, start + 1, len)
  }

  ghost function SearchFrom(used: set<nat>, start: nat, len: nat): Search {
    match FirstFit(used, start, len)
    case Some(p) => Found(p)
    case None => if AnyStuck(used, start, len) then Diverges else Full
  }

  ghost predicate AnyStuck(used: set<nat>, start: nat, len: nat) {
    exists q: nat :: Stuck(used, start, q, len)
  }

  /** `t` is one more than the highest used slot of the pool, or 0 when no slot is used. */
  ghost predicate IsTop(used: set<nat>, t: nat) {
    t <= MAX_SLOTS && (t > 0 ==> t - 1 in used) && AllFree(used, t, MAX_SLOTS)
  }

  lemma {:induction false} TopExists(used: set<nat>, n: nat)
    requires n <= MAX_SLOTS && AllFree(used, n, MAX_SLOTS)
    ensures exists t: nat :: IsTop(used, t)
  {
    if n == 0 || n - 1 in used {
      assert IsTop(used, n);
    } else {
      TopExists(used, n - 1);
    }
  }

  ghost function Top(used: set<nat>): (t: nat)
    ensures IsTop(used, t)
  {
    TopExists(used, MAX_SLOTS);
    var t: nat :| IsTop(used, t);
    t
  }

  /** Where a search starts: above every used slot for a call, otherwise at the innermost pending call. */
  ghost function Start(p: Pool, call: bool): nat {
    if call then Top(p.used)
    else if p.callArgs == [] then 0 else p.callArgs[|p.callArgs| - 1]
  }

  function Max(a: nat, b: nat): nat { if a < b then b else a }

  ghost function Take(p: Pool, slot: nat, len: nat, call: bool): Pool {
    Pool(p.used + Span(slot, slot + len),
         if call then p.callArgs + [slot] else p.callArgs,
         Max(p.frameSize, slot + len))
  }

  /** The answer to a request for `len` slots, and the pool after it. */
  ghost function Request(p: Pool, len: nat, call: bool): Search {
    SearchFrom(p.used, Start(p, call), len)
  }

  ghost function Allocated(p: Pool, len: nat, call: bool): Pool {
    var r := Request(p, len, call);
    if r.Found? then Take(p, r.slot, len, call) else p
  }

  // ---------------------------------------------------------------- specification of the release

  /** `s` without its first occurrence of `x`. */
  function RemoveOne(s: seq<nat>, x: nat): (r: seq<nat>) {
    if s == [] then [] else if s[0] == x then s[1..] else [s[0]] + RemoveOne(s[1..], x)
  }

  /** The first position of `[slot, slot + len)` that is not a used slot of the pool. */
  ghost function FirstUnused(used: set<nat>, slot: nat, len: nat): (b: nat)
    ensures slot <= b <= slot + len
    ensures forall k: nat :: slot <= k < b ==> k in used
    ensures slot < b ==> b <= MAX_SLOTS
    ensures b < slot + len ==> b >= MAX_SLOTS || b !in used
    decreases len
  {
    if len == 0 || slot >= MAX_SLOTS || slot !in used then slot else FirstUnused(used, slot + 1, len - 1)
  }

  ghost function ReleaseResult(p: Pool, slot: nat, len: nat): Release {
    var b := FirstUnused(p.used, slot, len);
    if b == slot + len then Released else if b >= MAX_SLOTS then OutOfRange else NotUsed
  }

  ghost function AfterRelease(p: Pool, slot: nat, len: nat): Pool {
    var b := FirstUnused(p.used, slot, len);
    p.(used := p.used - Span(slot, b),
       callArgs := if b == slot + len then RemoveOne(p.callArgs, slot) else p.callArgs)
  }

  // ---------------------------------------------------------------- the mutable pool

  class SlotPool {
    const slots: array<bool>
    var callArgs: seq<nat>
    var frameSize: nat

    ghost predicate Valid()
      reads this, slots
    {
      slots.Length == MAX_SLOTS
    }

    ghost function Value(): Pool
      requires Valid()
      reads this, slots
    {
      Pool((set i: nat | i < MAX_SLOTS && slots[i]), callArgs, frameSize)
    }

    constructor ()
      ensures Valid() && fresh(slots)
      ensures Value() == Pool({}, [], 0)
    {
      slots := new bool[MAX_SLOTS](_ => false);
      callArgs := [];
      frameSize := 0;
    }

    /** The bitset's `set` and `reset` of one slot. */
    method Mark(slot: nat, on: bool)
      requires Valid() && slot < MAX_SLOTS
      modifies slots
      ensures Value() == old(Value()).(used := if on then old(Value().used) + {slot} else old(Value().used) - {slot})
    {
      slots[slot] := on;
    }

    method Fill(on: bool, from: nat, to: nat)
      requires Valid() && from <= to <= MAX_SLOTS
      modifies slots
      ensures Value() == old(Value()).(used := if on then old(Value().used) + Span(from, to)
                                               else old(Value().used) - Span(from, to))
    {
      for i := from to to
        invariant forall k :: 0 <= k < MAX_SLOTS ==> slots[k] == if from <= k < i then on else old(slots[k])
      {
        slots[i] := on;
      }
    }

    /** Marks a run as used and records the frame size and, for a call, its base. */
    method Grab(slot: nat, len: nat, call: bool)
      requires Valid() && slot + len <= MAX_SLOTS
      modifies this`callArgs, this`frameSize, slots
      ensures Value() == Take(old(Value()), slot, len, call)
    {
      Fill(true, slot, slot + len);
      frameSize := Max(frameSize, slot + len);
      if call {
        callArgs := callArgs + [slot];
      }
    }

    method CheckFree(slot: nat, len: nat) returns (free: nat)
      requires Valid() && slot < MAX_SLOTS
      ensures free == FreePrefix(Value().used, slot, len)
    {
      if slot + len >= MAX_SLOTS {
        return 0;
      }
      for i := 0 to len
        invariant forall k: nat :: slot <= k < slot + i ==> k !in Value().used
      {
        if slots[slot + i] {
          FreePrefixAt(Value().used, slot, len, i);
          return i;
        }
      }
      FreePrefixAt(Value().used, slot, len, len);
      return len;
    }

    method HighestUsedSlot() returns (s: int)
      requires Valid()
      ensures s + 1 == Top(Value().used)
    {
      s := MAX_SLOTS - 1;
      while s >= 0 && !slots[s]
        invariant -1 <= s < MAX_SLOTS
        invariant AllFree(Value().used, s + 1, MAX_SLOTS)
      {
        s := s - 1;
      }
      assert IsTop(Value().used, s + 1);
    }

    method LowestUnusedSlot(start: nat) returns (s: nat)
      requires Valid()
      ensures s == LowestUnused(Value().used, start)
    {
      s := start;
      while s < MAX_SLOTS && slots[s]
        invariant LowestUnused(Value().used, s) == LowestUnused(Value().used, start)
        decreases MAX_SLOTS - s
      {
        s := s + 1;
      }
    }

    /** The base the search looks at next: directly above the highest used slot for a call, otherwise the
        lowest unused slot at or above the cursor. */
    method Candidate(cursor: nat, call: bool) returns (slot: nat)
      requires Valid()
      ensures slot == NextCandidate(Value().used, cursor, call)
    {
      if call {
        var h := HighestUsedSlot();
        slot := h + 1;
      } else {
        slot := LowestUnusedSlot(cursor);
      }
    }

    /** The search loop. The branch on `free == 0` is where the source's loop repeats itself for ever. */
    method FindRun(len: nat, call: bool) returns (r: Search)
      requires Valid()
      ensures r == Request(Value(), len, call)
    {
      hide LowestUnused, FirstFit, AnyStuck, SearchFrom, FreeCount, FreePrefix, Top;
      ghost var p := Value();
      var slot := if callArgs == [] then 0 else callArgs[|callArgs| - 1];
      while true
        invariant Value() == p
        invariant call || Request(p, len, call) == SearchFrom(p.used, slot, len)
        decreases MAX_SLOTS - slot
      {
        LoopStep(p, len, call, slot);
        slot := Candidate(slot, call);
        if slot >= MAX_SLOTS {
          return Full;
        }
        if len == 1 {
          return Found(slot);
        }
        var free := CheckFree(slot, len);
        if free == len {
          return Found(slot);
        }
        if free == 0 {
          return Diverges;
        }
        assert !call;
        slot := slot + free;
      }
    }

    /** First-fit allocation of `len` consecutive slots. */
    method NextFreeSlot(len: nat, call: bool) returns (r: Search)
      requires Valid()
      modifies this`callArgs, this`frameSize, slots
      ensures r == Request(old(Value()), len, call)
      ensures Value() == Allocated(old(Value()), len, call)
    {
      r := FindRun(len, call);
      if r.Found? {
        FoundRunIsFree(Value(), len, call);
        Grab(r.slot, len, call);
      }
    }

    method ReleaseSlot(slot: nat, len: nat) returns (r: Release)
      requires Valid()
      modifies this`callArgs, slots
      ensures r == ReleaseResult(old(Value()), slot, len)
      ensures Value() == AfterRelease(old(Value()), slot, len)
    {
      ghost var p := Value();
      ghost var b := FirstUnused(p.used, slot, len);
      for i := slot to slot + len
        invariant b == FirstUnused(p.used, i, slot + len - i)
        invariant Value() == p.(used := p.used - Span(slot, i))
      {
        if i >= MAX_SLOTS {
          return OutOfRange;
        }
        if !slots[i] {
          assert i !in Value().used && i !in Span(slot, i);
          return NotUsed;
        }
        assert i in Value().used;
        Mark(i, false);
        assert Span(slot, i + 1) == Span(slot, i) + {i};
      }
      callArgs := RemoveOne(callArgs, slot);
      return Released;
    }
  }

  // ---------------------------------------------------------------- one iteration of the search loop

  /** What `checkFree` answers: how far the run at `slot` is free, or 0 when it reaches the end of the pool. */
  ghost function FreePrefix(used: set<nat>, slot: nat, len: nat): (i: nat)
    ensures i <= len
    ensures slot + len < MAX_SLOTS ==> AllFree(used, slot, slot + i) && (i < len ==> slot + i in used)
    ensures slot + len >= MAX_SLOTS ==> i == 0
  {
    if slot + len >= MAX_SLOTS then 0 else FreeCount(used, slot, len)
  }

  ghost function FreeCount(used: set<nat>, slot: nat, len: nat): (i: nat)
    ensures i <= len && AllFree(used, slot, slot + i) && (i < len ==> slot + i in used)
    decreases len
  {
    if len == 0 || slot in used then 0
    else
      1 + FreeCount(used, slot + 1, len - 1)
  }

  lemma FreePrefixAt(used: set<nat>, slot: nat, len: nat, i: nat)
    requires slot + len < MAX_SLOTS && i <= len
    requires forall k: nat :: slot <= k < slot + i ==> k !in used
    requires i < len ==> slot + i in used
    ensures FreePrefix(used, slot, len) == i
  {
    var f := FreePrefix(used, slot, len);
    assert f < len ==> slot + f in used;
  }

  /** The slot that a round of the search looks at; for a call the cursor does not matter. */
  ghost function NextCandidate(used: set<nat>, cursor: nat, call: bool): nat {
    if call then Top(used) else LowestUnused(used, cursor)
  }

  /** The answer of a search that looks at the slot `s`, used to decide the next round of the loop. */
  ghost predicate Decides(used: set<nat>, s: nat, len: nat, r: Search) {
    if s >= MAX_SLOTS then r == Full
    else if len == 1 || FreePrefix(used, s, len) == len then r == Found(s)
    else
      var free := FreePrefix(used, s, len);
      if free == 0 then r == Diverges
      else s + free < MAX_SLOTS && s + free in used && r == SearchFrom(used, s + free, len)
  }

  lemma SearchVerdict(used: set<nat>, s: nat, len: nat)
    requires s < MAX_SLOTS ==> s !in used
    ensures Decides(used, s, len, SearchFrom(used, s, len))
  {
    if s < MAX_SLOTS && len != 1 {
      var free := FreePrefix(used, s, len);
      if free == len {
        FreePrefixFits(used, s, len);
      } else if free == 0 {
        StuckFromHere(used, s, len);
      } else {
        SkipBlocked(used, s, len);
      }
    }
  }

  lemma LoopStep(p: Pool, len: nat, call: bool, cursor: nat)
    requires call || Request(p, len, call) == SearchFrom(p.used, cursor, len)
    ensures Decides(p.used, NextCandidate(p.used, cursor, call), len, Request(p, len, call))
  {
    SkipUsed(p.used, cursor, len);
    SearchVerdict(p.used, NextCandidate(p.used, cursor, call), len);
  }

  lemma FreePrefixFits(used: set<nat>, slot: nat, len: nat)
    requires slot < MAX_SLOTS && slot !in used && FreePrefix(used, slot, len) == len
    ensures Fits(used, slot, len) && slot + len <= MAX_SLOTS
  {
  }

  ghost function LowestUnused(used: set<nat>, start: nat): (s: nat)
    ensures start <= s && (s < MAX_SLOTS ==> s !in used)
    ensures forall k: nat :: start <= k < s ==> k in used
    ensures start < s ==> s <= MAX_SLOTS
    decreases MAX_SLOTS - start
  {
    if start < MAX_SLOTS && start in used then LowestUnused(used, start + 1) else start
  }

  lemma {:induction false} SkipTo(used: set<nat>, from: nat, upto: nat, len: nat)
    requires from <= upto
    requires forall k: nat :: from <= k < upto ==> !Fits(used, k, len)
    ensures FirstFit(used, from, len) == FirstFit(used, upto, len)
    decreases upto - from
  {
    if from < upto {
      SkipTo(used, from + 1, upto, len);
    }
  }

  lemma SkipUsed(used: set<nat>, cursor: nat, len: nat)
    ensures SearchFrom(used, cursor, len) == SearchFrom(used, LowestUnused(used, cursor), len)
  {
    var s := LowestUnused(used, cursor);
    SkipTo(used, cursor, s, len);
    forall q: nat
      ensures Stuck(used, cursor, q, len) <==> Stuck(used, s, q, len)
    {
    }
  }

  lemma SkipBlocked(used: set<nat>, slot: nat, len: nat)
    requires slot < MAX_SLOTS && slot !in used && len != 1
    requires 0 < FreePrefix(used, slot, len) < len
    ensures SearchFrom(used, slot, len) == SearchFrom(used, slot + FreePrefix(used, slot, len), len)
  {
    var f := FreePrefix(used, slot, len);
    assert slot + f in used;
    SkipTo(used, slot, slot + f, len);
    forall q: nat
      ensures Stuck(used, slot, q, len) <==> Stuck(used, slot + f, q, len)
    {
      assert slot < q < slot + f ==> q - 1 !in used;
      assert q == slot ==> !Stuck(used, slot, q, len);
    }
    if AnyStuck(used, slot, len) {
      var q: nat :| Stuck(used, slot, q, len);
      assert Stuck(used, slot + f, q, len);
    }
    if AnyStuck(used, slot + f, len) {
      var q: nat :| Stuck(used, slot + f, q, len);
      assert Stuck(used, slot, q, len);
    }
  }

  lemma StuckFromHere(used: set<nat>, slot: nat, len: nat)
    requires slot < MAX_SLOTS && slot !in used && len > 1 && FreePrefix(used, slot, len) == 0
    ensures SearchFrom(used, slot, len) == Diverges
  {
    assert slot + len >= MAX_SLOTS;
    assert Stuck(used, slot, slot, len);
    assert forall q: nat :: slot <= q ==> !Fits(used, q, len);
  }

  // ---------------------------------------------------------------- when the search loop exits

  /** One round of the search loop from the cursor: `None` when the loop exits (with a run or because the pool is
      full), otherwise the next cursor. */
  ghost function Iterate(used: set<nat>, cursor: nat, len: nat, call: bool): Option<nat> {
    var s := NextCandidate(used, cursor, call);
    if s >= MAX_SLOTS || len == 1 then None
    else
      var free := FreePrefix(used, s, len);
      if free == len then None else Some(s + free)
  }

  ghost predicate StillRunning(used: set<nat>, cursor: nat, len: nat, call: bool, n: nat)
    decreases n
  {
    n == 0
    || (var c := Iterate(used, cursor, len, call); c.Some? && StillRunning(used, c.value, len, call, n - 1))
  }

  /** An iteration that does not exit keeps the answer of the search, and moves the cursor up unless the
      search diverges. */
  lemma IterateKeepsAnswer(used: set<nat>, cursor: nat, len: nat)
    requires Iterate(used, cursor, len, false).Some?
    ensures var c := Iterate(used, cursor, len, false).value;
            && SearchFrom(used, cursor, len) == SearchFrom(used, c, len)
            && (SearchFrom(used, cursor, len) == Diverges || cursor < c < MAX_SLOTS)
  {
    SkipUsed(used, cursor, len);
    var s := LowestUnused(used, cursor);
    if FreePrefix(used, s, len) == 0 {
      StuckFromHere(used, s, len);
    } else {
      SkipBlocked(used, s, len);
    }
  }

  lemma DivergingDoesNotExit(used: set<nat>, cursor: nat, len: nat)
    requires SearchFrom(used, cursor, len) == Diverges
    ensures Iterate(used, cursor, len, false).Some?
  {
    SkipUsed(used, cursor, len);
    var s := LowestUnused(used, cursor);
    var q: nat :| Stuck(used, s, q, len);
    if s < MAX_SLOTS && FreePrefix(used, s, len) == len {
      FreePrefixFits(used, s, len);
    }
    assert !Fits(used, s, len);
  }

  lemma {:induction false} DivergingStays(used: set<nat>, cursor: nat, len: nat, n: nat)
    requires SearchFrom(used, cursor, len) == Diverges
    ensures StillRunning(used, cursor, len, false, n)
    decreases n
  {
    if n > 0 {
      DivergingDoesNotExit(used, cursor, len);
      IterateKeepsAnswer(used, cursor, len);
      DivergingStays(used, Iterate(used, cursor, len, false).value, len, n - 1);
    }
  }

  lemma {:induction false} OtherwiseExits(used: set<nat>, cursor: nat, len: nat) returns (n: nat)
    requires SearchFrom(used, cursor, len) != Diverges
    ensures !StillRunning(used, cursor, len, false, n)
    decreases MAX_SLOTS - cursor
  {
    n := 1;
    if Iterate(used, cursor, len, false).Some? {
      IterateKeepsAnswer(used, cursor, len);
      var m := OtherwiseExits(used, Iterate(used, cursor, len, false).value, len);
      n := m + 1;
    }
  }

  /** The search of a call looks at the same slot in every round. */
  lemma {:induction false} CallRepeats(used: set<nat>, cursor: nat, len: nat, n: nat)
    requires Iterate(used, cursor, len, true).Some?
    ensures StillRunning(used, cursor, len, true, n)
    decreases n
  {
    if n > 0 {
      var next := Iterate(used, cursor, len, true).value;
      assert Iterate(used, next, len, true).Some?;
      CallRepeats(used, next, len, n - 1);
    }
  }

  lemma CallStays(used: set<nat>, cursor: nat, len: nat)
    ensures Iterate(used, cursor, len, true).Some? <==> SearchFrom(used, Top(used), len) == Diverges
  {
    SearchVerdict(used, Top(used), len);
    var s := Top(used);
    if s + len < MAX_SLOTS {
      FreePrefixAt(used, s, len, len);
    }
  }

  lemma DivergesMeansStuck(used: set<nat>, start: nat, len: nat)
    ensures SearchFrom(used, start, len) == Diverges <==>
            ((forall q: nat :: start <= q ==> !Fits(used, q, len)) && AnyStuck(used, start, len))
  {
    hide Fits, AnyStuck;
    var r := FirstFit(used, start, len);
    if r.Some? {
      assert Fits(used, r.value, len);
    }
  }

  /** The search loop of a request runs for ever exactly when no run fits at or above its start and some free block
      there leaves no room for the request before the end of the pool. */
  lemma SearchDivergesExactly(p: Pool, len: nat, call: bool)
    ensures (forall n: nat :: StillRunning(p.used, Start(p, call), len, call, n)) <==>
            ((forall q: nat :: Start(p, call) <= q ==> !Fits(p.used, q, len)) && AnyStuck(p.used, Start(p, call), len))
  {
    hide Top, FirstFit, AnyStuck, Fits, SearchFrom, Iterate;
    var start := Start(p, call);
    DivergesMeansStuck(p.used, start, len);
    if call {
      CallStays(p.used, start, len);
    }
    if SearchFrom(p.used, start, len) == Diverges {
      forall n: nat
        ensures StillRunning(p.used, start, len, call, n)
      {
        if call {
          CallRepeats(p.used, start, len, n);
        } else {
          DivergingStays(p.used, start, len, n);
        }
      }
    } else {
      if call {
        assert !StillRunning(p.used, start, len, call, 1);
      } else {
        var n := OtherwiseExits(p.used, start, len);
        assert !StillRunning(p.used, start, len, call, n);
      }
    }
  }

  /** Where a run may begin: a call above every used slot, any other run not below the innermost pending call. */
  ghost predicate Admissible(p: Pool, call: bool, q: nat) {
    if call then forall u: nat :: u in p.used && u < MAX_SLOTS ==> u < q
    else p.callArgs != [] ==> p.callArgs[|p.callArgs| - 1] <= q
  }

  lemma StartIsLowest(p: Pool, call: bool, q: nat)
    ensures Start(p, call) <= q <==> Admissible(p, call, q)
  {
    if call {
      var t := Top(p.used);
      assert t > 0 ==> t - 1 in p.used;
      assert AllFree(p.used, t, MAX_SLOTS);
    }
  }

  /** Whenever a run fits where it may begin, the request is answered with the lowest such run. */
  lemma RequestIsFirstFit(p: Pool, len: nat, call: bool, q: nat)
    requires Admissible(p, call, q) && Fits(p.used, q, len)
    ensures Request(p, len, call).Found?
    ensures var s := Request(p, len, call).slot;
            && Admissible(p, call, s) && s <= q && Fits(p.used, s, len)
            && forall k: nat :: k < s && Admissible(p, call, k) ==> !Fits(p.used, k, len)
  {
    hide Fits, Start, Admissible;
    StartIsLowest(p, call, q);
    StartIsLowest(p, call, Request(p, len, call).slot);
    forall k: nat | k < Request(p, len, call).slot && Admissible(p, call, k)
      ensures !Fits(p.used, k, len)
    {
      StartIsLowest(p, call, k);
    }
  }

  lemma FoundRunIsFree(p: Pool, len: nat, call: bool)
    requires Request(p, len, call).Found?
    ensures var s := Request(p, len, call).slot;
            Start(p, call) <= s && s !in p.used && s < MAX_SLOTS && s + len <= MAX_SLOTS && AllFree(p.used, s, s + len)
  {
  }

  // ---------------------------------------------------------------- what a release does

  /** All slots from `slot` up to and including `x` are used slots of the pool. */
  ghost predicate UsedUpTo(p: Pool, slot: nat, x: nat) {
    forall k: nat :: slot <= k <= x ==> k < MAX_SLOTS && k in p.used
  }

  /** A release succeeds if and only if its whole run is used. It frees every slot of the run that has no unused one
      at or below it in the run, and nothing else. */
  lemma ReleaseExactly(p: Pool, slot: nat, len: nat)
    requires len > 0
    ensures ReleaseResult(p, slot, len) == Released <==> UsedUpTo(p, slot, slot + len - 1)
    ensures forall x: nat :: x in AfterRelease(p, slot, len).used <==>
                             x in p.used && !(slot <= x < slot + len && UsedUpTo(p, slot, x))
    ensures AfterRelease(p, slot, len).frameSize == p.frameSize
    ensures ReleaseResult(p, slot, len) != Released ==> AfterRelease(p, slot, len).callArgs == p.callArgs
    ensures ReleaseResult(p, slot, len) == Released ==>
              WithoutFirst(p.callArgs, AfterRelease(p, slot, len).callArgs, slot)
  {
    hide FirstUnused;
    var b := FirstUnused(p.used, slot, len);
    forall x: nat | slot <= x < slot + len
      ensures UsedUpTo(p, slot, x) <==> x < b
    {
      if b <= x {
        assert b in p.used ==> b >= MAX_SLOTS;
      }
    }
    RemovesFirst(p.callArgs, slot);
  }

  /** `r` is `s` without the first `x` in it, or `s` if there is none. */
  ghost predicate WithoutFirst(s: seq<nat>, r: seq<nat>, x: nat) {
    if x in s then exists i: nat :: i < |s| && FirstAt(s, x, i) && r == s[..i] + s[i + 1..] else r == s
  }

  ghost predicate FirstAt(s: seq<nat>, x: nat, i: nat) {
    i < |s| && s[i] == x && forall j :: 0 <= j < i ==> s[j] != x
  }

  lemma {:induction false} RemovesFirst(s: seq<nat>, x: nat)
    ensures WithoutFirst(s, RemoveOne(s, x), x)
  {
    hide WithoutFirst;
    if s == [] || s[0] == x {
      FirstIsRemoved(s, x);
    } else {
      RemovesFirst(s[1..], x);
      LaterIsRemoved(s, RemoveOne(s[1..], x), x);
    }
  }

  lemma FirstIsRemoved(s: seq<nat>, x: nat)
    requires s == [] || s[0] == x
    ensures WithoutFirst(s, RemoveOne(s, x), x)
  {
    if s != [] {
      assert FirstAt(s, x, 0);
      assert s[..0] + s[1..] == s[1..];
    }
  }

  lemma FirstLater(s: seq<nat>, x: nat, i: nat)
    requires s != [] && s[0] != x && FirstAt(s[1..], x, i)
    ensures i + 1 < |s| && FirstAt(s, x, i + 1) && x in s
  {
    assert forall j :: 0 < j < |s| ==> s[j] == s[1..][j - 1];
  }

  lemma LaterIsRemoved(s: seq<nat>, r: seq<nat>, x: nat)
    requires s != [] && s[0] != x && WithoutFirst(s[1..], r, x)
    ensures WithoutFirst(s, [s[0]] + r, x)
  {
    hide FirstAt;
    var tail := s[1..];
    assert s == [s[0]] + tail;
    if x in tail {
      var i: nat :| i < |tail| && FirstAt(tail, x, i) && r == tail[..i] + tail[i + 1..];
      FirstLater(s, x, i);
      assert s[..i + 1] == [s[0]] + tail[..i] && s[i + 1 + 1..] == tail[i + 1..];
      assert [s[0]] + r == s[..i + 1] + s[i + 1 + 1..];
    }
  }
}
