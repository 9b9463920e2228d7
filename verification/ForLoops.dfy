/** Numeric for loops of the test interpreter: FORI starts a loop and FORL closes it, on 32-bit integers. */
module ForLoops {

  const LOW: int := -0x8000_0000
  const HIGH: int := 0x7fff_ffff

  type i32 = n: int | LOW <= n <= HIGH

  /** 32-bit addition as the host performs it. */
  function Wrapped(n: int): i32 {
    var r := (n - LOW) % 0x1_0000_0000;
    r + LOW
  }

  /** The slots of a loop: index, limit, step and the variable the body sees; and whether the body runs next. */
  datatype Loop = Loop(idx: i32, stop: i32, step: i32, ext: i32, inside: bool)

  predicate Continues(idx: int, stop: int, step: int) {
    (step >= 0 && idx <= stop) || (step < 0 && idx >= stop)
  }

  function Fori(l: Loop): Loop { l.(ext := l.idx, inside := Continues(l.idx, l.stop, l.step)) }

  function Forl(l: Loop): Loop {
    var idx := Wrapped(l.idx + l.step);
    if Continues(idx, l.stop, l.step) then l.(idx := idx, ext := idx, inside := true)
    else l.(idx := idx, inside := false)
  }

  /** The loop after FORI and `n` times the body and FORL; the body may change its variable. */
  function Round(l: Loop, n: nat): Loop {
    if n == 0 then Fori(l) else Forl(Round(l, n - 1))
  }

  /** The number of passes that start, limit and step ask for, by their distance. */
  function Trips(l: Loop): nat
    requires l.step != 0
  {
    var step: int := l.step;
    if step > 0 then
      if l.idx <= l.stop then (l.stop - l.idx) / step + 1 else 0
    else
      if l.idx >= l.stop then (l.idx - l.stop) / -step + 1 else 0
  }

  /** The value has not passed the limit. */
  predicate Within(v: int, l: Loop) {
    if l.step > 0 then v <= l.stop else l.stop <= v
  }

  lemma Quotient(a: nat, b: nat, i: nat)
    requires b > 0
    ensures i <= a / b ==> i * b <= a
    ensures i > a / b ==> i * b > a
  {
    var q := a / b;
    assert q * b <= a < q * b + b;
    if i <= q {
      assert i * b <= q * b by { Monotone(i, q, b); }
    } else {
      assert (q + 1) * b <= i * b by { Monotone(q + 1, i, b); }
    }
  }

  lemma Monotone(i: nat, j: nat, b: nat)
    requires i <= j
    ensures i * b <= j * b
  {
  }

  lemma WrappedFits(n: int)
    ensures LOW <= n <= HIGH ==> Wrapped(n) == n
    ensures HIGH < n <= HIGH + 0x1_0000_0000 ==> Wrapped(n) == n - 0x1_0000_0000
    ensures LOW - 0x1_0000_0000 <= n < LOW ==> Wrapped(n) == n + 0x1_0000_0000
  {
  }

  /** The passes are exactly those whose value start + i * step has not passed the limit. */
  lemma PassInRange(l: Loop, i: nat)
    requires l.step != 0
    ensures i < Trips(l) <==> Within(l.idx + i * l.step, l)
  {
    var step: int := l.step;
    var b := if step > 0 then step else -step;
    assert i * l.step == if l.step > 0 then i * b else -(i * b);
    assert i * b >= 0 by { Monotone(0, i, b); }
    if Within(l.idx, l) {
      Quotient(if l.step > 0 then l.stop - l.idx else l.idx - l.stop, b, i);
    }
  }

  lemma WithinContinues(v: int, l: Loop)
    requires l.step != 0
    ensures Continues(v, l.stop, l.step) <==> Within(v, l)
  {
  }

  /** The values of the passes are 32-bit numbers. */
  lemma PassFits(l: Loop, i: nat)
    requires l.step != 0 && i < Trips(l)
    ensures Within(l.idx + i * l.step, l) && LOW <= l.idx + i * l.step <= HIGH
  {
    hide Trips;
    PassInRange(l, i);
    if i > 0 {
      Sign(i, l.step);
    }
  }

  lemma NextProduct(i: nat, step: int)
    requires i > 0
    ensures i * step == (i - 1) * step + step
  {
  }

  /** Pass `i` sees start + i * step. */
  lemma {:induction false} PassValue(l: Loop, i: nat)
    requires l.step != 0 && i < Trips(l)
    ensures var r := Round(l, i);
            r.inside && r.idx == l.idx + i * l.step == r.ext && r.stop == l.stop && r.step == l.step
  {
    hide Trips, Within, Continues, Wrapped;
    PassFits(l, i);
    WithinContinues(l.idx + i * l.step, l);
    if i > 0 {
      PassValue(l, i - 1);
      NextProduct(i, l.step);
      WrappedFits(l.idx + i * l.step);
    }
  }

  lemma Sign(i: nat, s: int)
    requires i > 0 && s != 0
    ensures i * s >= 0 <==> s > 0
  {
    if s > 0 {
      Monotone(1, i, s);
    } else {
      Monotone(1, i, -s);
      assert i * s == -(i * -s);
    }
  }

  /** A loop with a step makes exactly the passes its limits ask for if and only if the value behind the last one
      is still a 32-bit number. */
  lemma LoopEnds(l: Loop)
    requires l.step != 0
    ensures forall i :: 0 <= i < Trips(l) ==> Round(l, i).inside && Round(l, i).ext == l.idx + i * l.step
    ensures !Round(l, Trips(l)).inside <==> LOW <= l.idx + Trips(l) * l.step <= HIGH
  {
    hide Round, Trips, Forl;
    forall i | 0 <= i < Trips(l)
      ensures Round(l, i).inside && Round(l, i).ext == l.idx + i * l.step
    {
      PassValue(l, i);
    }
    if Trips(l) == 0 {
      NoPass(l);
    } else {
      BehindLastPass(l, Trips(l) - 1);
    }
  }

  lemma NoPass(l: Loop)
    requires l.step != 0 && Trips(l) == 0
    ensures !Round(l, 0).inside
  {
  }

  lemma BehindLastPass(l: Loop, last: nat)
    requires l.step != 0 && last + 1 == Trips(l)
    ensures !Round(l, last + 1).inside <==> LOW <= l.idx + (last + 1) * l.step <= HIGH
  {
    hide Round, Forl, Trips;
    PassValue(l, last);
    PassInRange(l, last);
    PassInRange(l, last + 1);
    NextRound(l, last + 1);
    var v := l.idx + last * l.step;
    WithinContinues(v, l);
    WithinContinues(v + l.step, l);
    assert l.idx + (last + 1) * l.step == v + l.step;
    LastPass(Round(l, last));
  }

  lemma NextRound(l: Loop, n: nat)
    ensures n > 0 ==> Round(l, n) == Forl(Round(l, n - 1))
  {
  }

  /** FORL behind the last pass leaves the loop unless the index wraps around. */
  lemma LastPass(l: Loop)
    requires l.step != 0 && Continues(l.idx, l.stop, l.step) && !Continues(l.idx + l.step, l.stop, l.step)
    ensures !Forl(l).inside <==> LOW <= l.idx + l.step <= HIGH
  {
    WrappedFits(l.idx + l.step);
  }

  /** A loop without a step is entered if its start has not passed its limit, and then never ends. */
  lemma {:induction false} ZeroStepRunsOn(l: Loop, n: nat)
    requires l.step == 0
    ensures Round(l, 0).inside <==> l.idx <= l.stop
    ensures l.idx <= l.stop ==>
              && Round(l, n).inside && Round(l, n).ext == l.idx && Round(l, n).idx == l.idx
              && Round(l, n).stop == l.stop && Round(l, n).step == 0
  {
    if n > 0 && l.idx <= l.stop {
      ZeroStepRunsOn(l, n - 1);
      WrappedFits(l.idx);
    }
  }

  /** The slots of a frame that a loop uses, from `a` on. */
  method ExecFori(slots: array<i32>, a: nat) returns (entered: bool)
    requires a + 3 < slots.Length
    modifies slots
    ensures var l := Fori(Loop(old(slots[a]), old(slots[a + 1]), old(slots[a + 2]), old(slots[a + 3]), false));
            entered == l.inside && slots[..] == old(slots[..])[a + 3 := l.ext]
    ensures entered <==> if slots[a + 2] >= 0 then slots[a] <= slots[a + 1] else slots[a] >= slots[a + 1]
    ensures slots[a + 3] == slots[a] == old(slots[a])
  {
    var idx, stop, step := slots[a], slots[a + 1], slots[a + 2];
    slots[a + 3] := idx;
    entered := (step >= 0 && idx <= stop) || (step < 0 && idx >= stop);
  }

  method ExecForl(slots: array<i32>, a: nat) returns (again: bool)
    requires a + 3 < slots.Length
    modifies slots
    ensures var l := Forl(Loop(old(slots[a]), old(slots[a + 1]), old(slots[a + 2]), old(slots[a + 3]), true));
            again == l.inside && slots[..] == old(slots[..])[a := l.idx][a + 3 := l.ext]
    ensures again <==> if slots[a + 2] >= 0 then slots[a] <= slots[a + 1] else slots[a] >= slots[a + 1]
    ensures var before: int, step: int := old(slots[a]), slots[a + 2];
            slots[a] == Wrapped(before + step)
    ensures slots[a + 3] == if again then slots[a] else old(slots[a + 3])
  {
    var stop, step := slots[a + 1], slots[a + 2];
    var sum: int := slots[a];
    sum := sum + step;
    var idx := Wrapped(sum);
    slots[a] := idx;
    again := (step >= 0 && idx <= stop) || (step < 0 && idx >= stop);
    if again {
      slots[a + 3] := idx;
    }
  }
}
