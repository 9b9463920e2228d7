/** Where the test interpreter puts the results of a call. Result number k of a call at base a belongs into slot
    a + k; the interpreter numbers slots and results with the same counter. */
module CallResults {
  import opened Capture

  /** The running activation has slots up to `n`, with a cell of their own each. */
  ghost predicate HasSlots(m: Vm, n: nat) {
    && m.frames != [] && n <= |CurFrame(m).slots|
    && forall i :: 0 <= i < n ==> SlotIs(m, i)
  }

  ghost predicate SlotIs(m: Vm, i: nat)
    requires m.frames != [] && i < |CurFrame(m).slots|
  {
    && CurFrame(m).slots[i] < |m.cells|
    && forall j :: 0 <= j < i ==> CurFrame(m).slots[i] != CurFrame(m).slots[j]
  }

  lemma StoredApart(m: Vm, n: nat, i: nat, j: nat, v: Val)
    requires HasSlots(m, n) && i < n && j < n
    ensures HasSlots(SetSlot(m, i, v), n)
    ensures GetSlot(SetSlot(m, i, v), j) == if i == j then v else GetSlot(m, j)
  {
    assert SlotIs(m, i) && SlotIs(m, j);
    assert forall k :: 0 <= k < n ==> SlotIs(m, k) ==> SlotIs(SetSlot(m, i, v), k);
  }

  /** From slot `i` to slot `last`, slot `j` gets result number `j`, if there is one. */
  lemma {:induction false} ResultsLand(m: Vm, n: nat, i: nat, last: int, vs: seq<Val>, j: nat)
    requires HasSlots(m, n) && last < n && j < n
    ensures GetSlot(SetResults(m, i, last, vs), j) == if i <= j <= last && j < |vs| then vs[j] else GetSlot(m, j)
    decreases |vs| - i
  {
    if i <= last && i < |vs| {
      StoredApart(m, n, i, j, vs[i]);
      ResultsLand(SetSlot(m, i, vs[i]), n, i + 1, last, vs, j);
    }
  }

  /** The value a caller expects as result number `k`: missing results are nil. */
  function Expected(vs: seq<Val>, k: nat): Val { if k < |vs| then vs[k] else Nil }

  /** All `b - 1` results a call at base `a` asks for are where the caller expects them. */
  ghost predicate ResultsArrive(m: Vm, a: nat, b: nat, vs: seq<Val>)
    requires m.frames != []
  {
    forall k: nat :: k + 1 < b ==> GetSlot(SetResults(m, a, a + b - 2, vs), a + k) == Expected(vs, k)
  }

  /** The results of every call that asks for `b - 1` of them at base `a` and gets `n` arrive if and only if it asks
      for none, or its base is slot 0 and it gets enough. */
  lemma ResultsArriveExactly(a: nat, b: nat, n: nat)
    ensures (forall m, vs :: HasSlots(m, a + b) && |vs| == n ==> ResultsArrive(m, a, b, vs))
            <==> b <= 1 || (a == 0 && b <= n + 1)
  {
    hide SetResults, GetSlot;
    if b <= 1 || (a == 0 && b <= n + 1) {
      forall m, vs | HasSlots(m, a + b) && |vs| == n
        ensures ResultsArrive(m, a, b, vs)
      {
        forall k: nat | k + 1 < b
          ensures GetSlot(SetResults(m, a, a + b - 2, vs), a + k) == Expected(vs, k)
        {
          ResultsLand(m, a + b, a, a + b - 2, vs, a + k);
        }
      }
    } else {
      var m, vs := Misplaced(a, b, n);
    }
  }

  function Numbers(n: nat): (vs: seq<Val>)
    ensures |vs| == n && forall i :: 0 <= i < n ==> vs[i] == Num(i)
  {
    if n == 0 then [] else Numbers(n - 1) + [Num(n - 1)]
  }

  function Zeros(n: nat): (vs: seq<Val>)
    ensures |vs| == n && forall i :: 0 <= i < n ==> vs[i] == Num(-1)
  {
    if n == 0 then [] else Zeros(n - 1) + [Num(-1)]
  }

  /** A call at a base above 0 gets result number a in place of the first one; one that gets too few results keeps
      what was in the slot. */
  lemma Misplaced(a: nat, b: nat, n: nat) returns (m: Vm, vs: seq<Val>)
    requires b > 1 && (a > 0 || n + 1 < b)
    ensures HasSlots(m, a + b) && |vs| == n && !ResultsArrive(m, a, b, vs)
  {
    hide SetResults, GetSlot;
    var size := a + b;
    var f := Frame(Closure(Proto(0, size, [], Top), []), Fresh(0, size), 0, 0);
    m := Vm(Zeros(size), [f], map[], []);
    vs := Numbers(n);
    assert forall i :: 0 <= i < size ==> SlotIs(m, i);
    var k := if a > 0 then 0 else n;
    ResultsLand(m, size, a, a + b - 2, vs, a + k);
    FirstValue(m, size, a + k);
    assert m.cells[CurFrame(m).slots[a + k]] == Num(-1);
    assert GetSlot(SetResults(m, a, a + b - 2, vs), a + k) != Expected(vs, k);
  }

  lemma FirstValue(m: Vm, n: nat, i: nat)
    requires HasSlots(m, n) && i < n
    ensures CurFrame(m).slots[i] < |m.cells| && GetSlot(m, i) == m.cells[CurFrame(m).slots[i]]
  {
    assert SlotIs(m, i);
  }
}
