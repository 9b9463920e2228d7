/** Whole runs of the test interpreter: its output is that of the reference without cells, closures hold the cells
    of exactly the variables they name, and the interpreter's loops do what the model says. */
module CaptureRuns {
  import opened Capture

  function Start(p: Proto): Vm { Enter(Vm([], [], map[], []), Closure(p, []), []) }

  function RStart(p: Proto): Ref { REnter(Ref([], [], map[], []), p, 0, []) }

  /** Every function that is built is nested in the one that builds it. */
  predicate LawfulRun(r: Ref, ops: seq<Op>)
    decreases |ops|
  {
    ops != [] ==> Lawful(r, ops[0]) && LawfulRun(RStep(r, ops[0]), ops[1..])
  }

  lemma {:induction false} RunSim(m: Vm, r: Ref, base: seq<nat>, ops: seq<Op>) returns (base1: seq<nat>)
    requires Sim(m, r, base) && LawfulRun(r, ops)
    ensures Sim(Run(m, ops), RRun(r, ops), base1)
    decreases |ops|
  {
    hide Sim, Step, RStep, Lawful;
    base1 := base;
    if ops != [] {
      StepSim(m, r, base, ops[0]);
      base1 := RunSim(Step(m, ops[0]), RStep(r, ops[0]), NextBase(m, base, ops[0]), ops[1..]);
    }
  }

  lemma StartSim(p: Proto)
    requires WellFormed(p) && p.outer == Top
    ensures Sim(Start(p), RStart(p), [0])
  {
    var none: seq<nat> := [];
    EnterSim(Vm([], [], map[], []), Ref([], [], map[], []), none, Closure(p, []), 0, [], []);
    assert none + [0] == [0];
  }

  /** In every run of a program the interpreter shows exactly the values that lexical scoping asks for, and the
      cells in its closures are at all times those of the variables that the descriptors name. */
  lemma EveryRun(p: Proto, ops: seq<Op>) returns (base: seq<nat>)
    requires WellFormed(p) && p.outer == Top && LawfulRun(RStart(p), ops)
    ensures Run(Start(p), ops).out == RRun(RStart(p), ops).out
    ensures Sim(Run(Start(p), ops), RRun(RStart(p), ops), base)
  {
    hide Start, RStart, Run, RRun;
    StartSim(p);
    base := RunSim(Start(p), RStart(p), [0], ops);
  }

  /** The activation and slot that upvalue `i` of a closure made in activation `env` stands for. */
  function VariableOf(acts: seq<Act>, p: Proto, i: nat, env: nat): (nat, nat)
    requires WellFormed(p) && i < |p.upvals|
  {
    var (steps, slot) := FuncSlot(p, i);
    (Enclosing(acts, env, steps - 1), slot)
  }

  lemma {:induction false} NamedVariable(m: Vm, r: Ref, base: seq<nat>, p: Proto, i: nat, env: nat)
    requires Layout(m, r, base) && WellFormed(p) && Linked(r.acts, p, env) && i < |p.upvals|
    ensures var (a, s) := VariableOf(r.acts, p, i, env);
            a < |r.acts| && s < |r.acts[a].slots| && Named(r.acts, base, p, i, env) == base[a] + s
    decreases p
  {
    assert Fits(p.upvals[i], p.outer.p);
    if !p.upvals[i].isLocal {
      NamedVariable(m, r, base, p.outer.p, p.upvals[i].uv, r.acts[env].env);
    }
  }

  /** Two closures share a cell if and only if their upvalues stand for the same variable of the same activation. */
  lemma SharedExactly(m: Vm, r: Ref, base: seq<nat>, c: Closure, env: nat, i: nat, d: Closure, env1: nat, j: nat)
    requires Layout(m, r, base) && Captures(r.acts, base, c, env) && Captures(r.acts, base, d, env1)
    requires i < |c.upvals| && j < |d.upvals|
    ensures c.upvals[i] == d.upvals[j] <==> VariableOf(r.acts, c.proto, i, env) == VariableOf(r.acts, d.proto, j, env1)
  {
    hide VariableOf, Named, Layout;
    NamedVariable(m, r, base, c.proto, i, env);
    NamedVariable(m, r, base, d.proto, j, env1);
    var (a, s) := VariableOf(r.acts, c.proto, i, env);
    var (b, t) := VariableOf(r.acts, d.proto, j, env1);
    CellsApart(m, r, base, a, s, b, t);
  }

  /** What one closure assigns to an upvalue is what every closure with the same variable and the frame that owns
      it read afterwards, and no other variable changes. */
  lemma AssignmentIsShared(m: Vm, r: Ref, base: seq<nat>, c: Closure, env: nat, i: nat, a: nat, s: nat, v: Val)
    requires Sim(m, r, base) && Captures(r.acts, base, c, env) && i < |c.upvals|
    requires a < |r.acts| && s < |r.acts[a].slots|
    ensures Load(Store(m, c.upvals[i], v), base[a] + s)
            == if VariableOf(r.acts, c.proto, i, env) == (a, s) then v else Load(m, base[a] + s)
  {
    hide VariableOf, Named;
    NamedVariable(m, r, base, c.proto, i, env);
    var (b, t) := VariableOf(r.acts, c.proto, i, env);
    CellsApart(m, r, base, a, s, b, t);
    assert Placed(m, r, base, b);
  }

  // ---------------------------------------------------------------- the interpreter with its loops

  lemma NextArgument(before: seq<Val>, vs: seq<Val>, i: nat, n: nat)
    requires n > 0
    ensures before + Arguments(vs, i, n) == before + [Argument(vs, i)] + Arguments(vs, i + 1, n - 1)
  {
  }

  lemma NoMore(vs: seq<Val>, i: nat, c: nat)
    ensures Arguments(vs, i, 0) == [] && Fresh(c, 0) == []
  {
  }

  lemma NextFresh(before: seq<nat>, c: nat, n: nat)
    requires n > 0
    ensures before + Fresh(c, n) == before + [c] + Fresh(c + 1, n - 1)
  {
  }

  lemma NextCaptured(before: seq<nat>, f: Frame, ups: seq<Up>)
    requires ups != []
    ensures before + CapturedCells(f, ups) == before + CapturedCell(f, ups[0]) + CapturedCells(f, ups[1..])
  {
  }

  lemma NoneCaptured(f: Frame, ups: seq<Up>)
    requires ups == []
    ensures CapturedCells(f, ups) == []
  {
  }

  lemma NextSlot(before: seq<Val>, m: Vm, a: nat, n: nat)
    requires n > 0 && m.frames != []
    ensures before + GetSlots(m, a, n) == before + [GetSlot(m, a)] + GetSlots(m, a + 1, n - 1)
  {
  }

  class Interpreter {
    var cells: seq<Val>
    var frames: seq<Frame>
    var globals: map<string, Val>
    var out: seq<Seen>

    constructor ()
      ensures State() == Vm([], [], map[], [])
    {
      cells, frames, globals, out := [], [], map[], [];
    }

    function State(): Vm
      reads this
    {
      Vm(cells, frames, globals, out)
    }

    /** Assigns to a slot of the current frame. */
    method SetSlotVal(i: nat, v: Val)
      requires frames != []
      modifies `cells
      ensures State() == SetSlot(old(State()), i, v)
    {
      var f := frames[|frames| - 1];
      if i < |f.slots| && f.slots[i] < |cells| {
        cells := cells[f.slots[i] := v];
      }
    }

    /** A new frame with a new cell for every slot, the first ones holding the arguments. */
    method EnterFrame(c: Closure, inout: seq<Val>)
      modifies `cells, `frames
      ensures State() == Enter(old(State()), c, inout)
    {
      hide Arguments, Fresh;
      var n := c.proto.framesize;
      var slots: seq<nat> := [];
      ghost var first := |cells|;
      for i := 0 to n
        invariant |cells| == first + i && globals == old(globals) && frames == old(frames)
        invariant cells + Arguments(inout, i, n - i) == old(cells) + Arguments(inout, 0, n)
        invariant slots + Fresh(first + i, n - i) == Fresh(first, n)
      {
        NextArgument(cells, inout, i, n - i);
        NextFresh(slots, first + i, n - i);
        slots := slots + [|cells|];
        cells := cells + [if i < |inout| then inout[i] else Nil];
      }
      NoMore(inout, n, first + n);
      assert cells + [] == cells && slots + [] == slots;
      frames := frames + [Frame(c, slots, 0, 0)];
    }

    /** The cells for a new closure over the current frame. */
    method Capture(f: Frame, p: Proto) returns (upvals: seq<nat>)
      ensures upvals == CapturedCells(f, p.upvals)
    {
      hide CapturedCells;
      upvals := [];
      assert p.upvals[0..] == p.upvals;
      for i := 0 to |p.upvals|
        invariant upvals + CapturedCells(f, p.upvals[i..]) == CapturedCells(f, p.upvals)
      {
        assert p.upvals[i..][1..] == p.upvals[i + 1..];
        NextCaptured(upvals, f, p.upvals[i..]);
        var u := p.upvals[i];
        if u.isLocal {
          if u.uv < |f.slots| {
            upvals := upvals + [f.slots[u.uv]];
          }
        } else {
          if u.uv < |f.func.upvals| {
            upvals := upvals + [f.func.upvals[u.uv]];
          }
        }
      }
      NoneCaptured(f, p.upvals[|p.upvals|..]);
      assert upvals + [] == upvals;
    }

    method ReadSlots(a: nat, n: nat) returns (vs: seq<Val>)
      requires frames != []
      ensures vs == GetSlots(State(), a, n)
    {
      hide GetSlots;
      var m := State();
      vs := [];
      for i := 0 to n
        invariant vs + GetSlots(m, a + i, n - i) == GetSlots(m, a, n)
      {
        NextSlot(vs, m, a + i, n - i);
        vs := vs + [GetSlot(m, a + i)];
      }
      assert vs + [] == vs;
    }

    method StoreResults(a: nat, last: int, vs: seq<Val>)
      requires frames != []
      modifies `cells
      ensures State() == SetResults(old(State()), a, last, vs)
    {
      var i := a;
      while i <= last && i < |vs|
        invariant a <= i && frames == old(frames) && globals == old(globals)
        invariant SetResults(State(), i, last, vs) == SetResults(old(State()), a, last, vs)
        decreases |vs| - i
      {
        SetSlotVal(i, vs[i]);
        i := i + 1;
      }
    }

    method Execute(op: Op)
      modifies this
      ensures State() == Step(old(State()), op)
    {
      hide SetSlot, GetSlot, GetSlots, SetResults, Enter, CapturedCells, See;
      if frames == [] {
        return;
      }
      var f := frames[|frames| - 1];
      match op {
        case KSHORT(a, n) => SetSlotVal(a, Num(n));
        case KNIL(a) => SetSlotVal(a, Nil);
        case MOV(a, d) => SetSlotVal(a, GetSlot(State(), d));
        case FNEW(a, child) => {
          var upvals := Capture(f, child);
          SetSlotVal(a, Clo(Closure(child, upvals)));
        }
        case UGET(a, d) => {
          var v := if d < |f.func.upvals| then Load(State(), f.func.upvals[d]) else Nil;
          SetSlotVal(a, v);
        }
        case USETV(u, d) => {
          if u < |f.func.upvals| && f.func.upvals[u] < |cells| {
            cells := cells[f.func.upvals[u] := GetSlot(State(), d)];
          }
        }
        case GSET(a, name) => {
          globals := globals[name := GetSlot(State(), a)];
        }
        case GGET(a, name) => {
          SetSlotVal(a, if name in globals then globals[name] else Nil);
        }
        case CALL(a, b, n) => {
          var v := GetSlot(State(), a);
          if v.Clo? {
            var inout := ReadSlots(a + 1, n);
            frames := frames[|frames| - 1 := f.(a := a, b := b)];
            EnterFrame(v.c, inout);
          } else {
            frames := [];
          }
        }
        case RET(a, n) => {
          var inout := ReadSlots(a, n);
          frames := frames[..|frames| - 1];
          if frames != [] {
            var g := frames[|frames| - 1];
            StoreResults(g.a, g.a + g.b - 2, inout);
          }
        }
        case SHOW(a) => {
          out := out + [See(GetSlot(State(), a))];
        }
      }
    }

    /** Runs the main function of a program. */
    method RunProgram(p: Proto, ops: seq<Op>)
      requires WellFormed(p) && p.outer == Top && LawfulRun(RStart(p), ops)
      requires State() == Vm([], [], map[], [])
      modifies this
      ensures State() == Run(Start(p), ops) && out == RRun(RStart(p), ops).out
    {
      hide Step, Enter, LawfulRun, Lawful, RRun;
      EnterFrame(Closure(p, []), []);
      for k := 0 to |ops|
        invariant Run(State(), ops[k..]) == Run(Start(p), ops)
      {
        assert ops[k..][1..] == ops[k + 1..];
        Execute(ops[k]);
      }
      ghost var base := EveryRun(p, ops);
    }
  }
}
