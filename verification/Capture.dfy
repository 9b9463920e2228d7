/** Closure capture in the test interpreter. The interpreter copies references to slot cells into closures; the
    reference interpreter has no cells and looks variables up in the lexically enclosing activation that the
    upvalue descriptors name. Both show the same values in every run. */
module Capture {

  // ---------------------------------------------------------------- prototypes

  /** An upvalue descriptor: a slot of the enclosing function, or one of its upvalues. */
  datatype Up = Up(uv: nat, isLocal: bool)

  /** A prototype with the link to its enclosing one. */
  datatype Proto = Proto(id: nat, framesize: nat, upvals: seq<Up>, outer: Outer)

  datatype Outer = Top | In(p: Proto)

  /** Descriptors name slots and upvalues that the enclosing prototype has. */
  predicate WellFormed(p: Proto) {
    match p.outer
    case Top => p.upvals == []
    case In(q) => WellFormed(q) && forall i :: 0 <= i < |p.upvals| ==> Fits(p.upvals[i], q)
  }

  predicate Fits(u: Up, q: Proto) {
    u.uv < if u.isLocal then q.framesize else |q.upvals|
  }

  /** The function and slot an upvalue stands for, the function by the number of steps outward. */
  function FuncSlot(p: Proto, i: nat): (r: (nat, nat))
    requires WellFormed(p) && i < |p.upvals|
    ensures r.0 > 0
    decreases p
  {
    var u := p.upvals[i];
    assert Fits(u, p.outer.p);
    if u.isLocal then (1, u.uv)
    else
      var (steps, slot) := FuncSlot(p.outer.p, u.uv);
      (steps + 1, slot)
  }

  /** Instructions, in the order in which they are executed. `CALL a b` calls slot `a` with `n` arguments and
      stores results up to slot `a + b - 2`; a return hands over `n` values. */
  datatype Op =
    | KSHORT(a: nat, k: int)
    | KNIL(a: nat)
    | MOV(a: nat, d: nat)
    | FNEW(a: nat, child: Proto)
    | UGET(a: nat, d: nat)
    | USETV(u: nat, d: nat)
    | GSET(a: nat, name: string)
    | GGET(a: nat, name: string)
    | CALL(a: nat, b: nat, n: nat)
    | RET(a: nat, n: nat)
    | SHOW(a: nat)

  /** What can be seen of a value. */
  datatype Seen = SeenNil | SeenNum(n: int) | SeenFunc(p: Proto)

  // ---------------------------------------------------------------- the interpreter with cells

  datatype Val = Nil | Num(n: int) | Clo(c: Closure)

  datatype Closure = Closure(proto: Proto, upvals: seq<nat>)

  /** An activation; `a` and `b` are the operands of the call it waits for. */
  datatype Frame = Frame(func: Closure, slots: seq<nat>, a: nat, b: nat)

  datatype Vm = Vm(cells: seq<Val>, frames: seq<Frame>, globals: map<string, Val>, out: seq<Seen>)

  function See(v: Val): Seen {
    match v
    case Nil => SeenNil
    case Num(n) => SeenNum(n)
    case Clo(c) => SeenFunc(c.proto)
  }

  function Load(m: Vm, c: nat): Val { if c < |m.cells| then m.cells[c] else Nil }

  function Store(m: Vm, c: nat, v: Val): Vm { if c < |m.cells| then m.(cells := m.cells[c := v]) else m }

  function CurFrame(m: Vm): Frame
    requires m.frames != []
  {
    m.frames[|m.frames| - 1]
  }

  function GetSlot(m: Vm, i: nat): Val
    requires m.frames != []
  {
    if i < |CurFrame(m).slots| then Load(m, CurFrame(m).slots[i]) else Nil
  }

  function SetSlot(m: Vm, i: nat, v: Val): (r: Vm)
    requires m.frames != []
    ensures r.frames == m.frames
  {
    if i < |CurFrame(m).slots| then Store(m, CurFrame(m).slots[i], v) else m
  }

  /** The values of `n` slots from `a` on. */
  function GetSlots(m: Vm, a: nat, n: nat): (vs: seq<Val>)
    requires m.frames != []
    ensures |vs| == n
    decreases n
  {
    if n == 0 then [] else [GetSlot(m, a)] + GetSlots(m, a + 1, n - 1)
  }

  /** Results of a call: value `i` of the results goes to slot `i`. */
  function SetResults(m: Vm, i: nat, last: int, vs: seq<Val>): (r: Vm)
    requires m.frames != []
    ensures r.frames == m.frames
    decreases |vs| - i
  {
    if i <= last && i < |vs| then SetResults(SetSlot(m, i, vs[i]), i + 1, last, vs) else m
  }

  /** The cell for one descriptor; a descriptor that names nothing is reported and left out. */
  function CapturedCell(f: Frame, u: Up): seq<nat> {
    var from := if u.isLocal then f.slots else f.func.upvals;
    if u.uv < |from| then [from[u.uv]] else []
  }

  /** The cells a new closure takes over. */
  function CapturedCells(f: Frame, ups: seq<Up>): seq<nat> {
    if ups == [] then [] else CapturedCell(f, ups[0]) + CapturedCells(f, ups[1..])
  }

  function Argument(vs: seq<Val>, i: nat): Val { if i < |vs| then vs[i] else Nil }

  function Arguments(vs: seq<Val>, i: nat, n: nat): (r: seq<Val>)
    ensures |r| == n
    decreases n
  {
    if n == 0 then [] else [Argument(vs, i)] + Arguments(vs, i + 1, n - 1)
  }

  function Fresh(c: nat, n: nat): (r: seq<nat>)
    ensures |r| == n && forall i :: 0 <= i < n ==> r[i] == c + i
    decreases n
  {
    if n == 0 then [] else [c] + Fresh(c + 1, n - 1)
  }

  /** A new activation with one new cell for every slot. */
  function Enter(m: Vm, c: Closure, vs: seq<Val>): Vm {
    var f := Frame(c, Fresh(|m.cells|, c.proto.framesize), 0, 0);
    m.(cells := m.cells + Arguments(vs, 0, c.proto.framesize), frames := m.frames + [f])
  }

  function Step(m: Vm, op: Op): Vm {
    if m.frames == [] then m
    else
      var f := CurFrame(m);
      match op
      case KSHORT(a, n) => SetSlot(m, a, Num(n))
      case KNIL(a) => SetSlot(m, a, Nil)
      case MOV(a, d) => SetSlot(m, a, GetSlot(m, d))
      case FNEW(a, child) => SetSlot(m, a, Clo(Closure(child, CapturedCells(f, child.upvals))))
      case UGET(a, d) => SetSlot(m, a, if d < |f.func.upvals| then Load(m, f.func.upvals[d]) else Nil)
      case USETV(u, d) => if u < |f.func.upvals| then Store(m, f.func.upvals[u], GetSlot(m, d)) else m
      case GSET(a, name) => m.(globals := m.globals[name := GetSlot(m, a)])
      case GGET(a, name) => SetSlot(m, a, if name in m.globals then m.globals[name] else Nil)
      case CALL(a, b, n) =>
        var v := GetSlot(m, a);
        if v.Clo? then
          var waiting := m.(frames := m.frames[|m.frames| - 1 := f.(a := a, b := b)]);
          Enter(waiting, v.c, GetSlots(m, a + 1, n))
        else m.(frames := [])
      case RET(a, n) =>
        var vs := GetSlots(m, a, n);
        var rest := m.(frames := m.frames[..|m.frames| - 1]);
        if rest.frames == [] then rest
        else SetResults(rest, CurFrame(rest).a, CurFrame(rest).a + CurFrame(rest).b - 2, vs)
      case SHOW(a) => m.(out := m.out + [See(GetSlot(m, a))])
  }

  function Run(m: Vm, ops: seq<Op>): Vm
    decreases |ops|
  {
    if ops == [] then m else Run(Step(m, ops[0]), ops[1..])
  }

  // ---------------------------------------------------------------- the reference without cells

  /** A function value knows the activation that created it. */
  datatype RVal = RNil | RNum(n: int) | RClo(proto: Proto, env: nat)

  /** An activation with its variables and its lexically enclosing activation. */
  datatype Act = Act(proto: Proto, env: nat, slots: seq<RVal>)

  datatype RFrame = RFrame(act: nat, a: nat, b: nat)

  datatype Ref = Ref(acts: seq<Act>, frames: seq<RFrame>, globals: map<string, RVal>, out: seq<Seen>)

  function RSee(v: RVal): Seen {
    match v
    case RNil => SeenNil
    case RNum(n) => SeenNum(n)
    case RClo(p, _) => SeenFunc(p)
  }

  function RLoad(r: Ref, act: nat, slot: nat): RVal {
    if act < |r.acts| && slot < |r.acts[act].slots| then r.acts[act].slots[slot] else RNil
  }

  function RStore(r: Ref, act: nat, slot: nat, v: RVal): Ref {
    if act < |r.acts| && slot < |r.acts[act].slots| then
      r.(acts := r.acts[act := r.acts[act].(slots := r.acts[act].slots[slot := v])])
    else r
  }

  function CurAct(r: Ref): nat
    requires r.frames != []
  {
    r.frames[|r.frames| - 1].act
  }

  function RGet(r: Ref, i: nat): RVal
    requires r.frames != []
  {
    RLoad(r, CurAct(r), i)
  }

  function RSet(r: Ref, i: nat, v: RVal): (r1: Ref)
    requires r.frames != []
    ensures r1.frames == r.frames
  {
    RStore(r, CurAct(r), i, v)
  }

  function RGets(r: Ref, a: nat, n: nat): (vs: seq<RVal>)
    requires r.frames != []
    ensures |vs| == n
    decreases n
  {
    if n == 0 then [] else [RGet(r, a)] + RGets(r, a + 1, n - 1)
  }

  function RSetResults(r: Ref, i: nat, last: int, vs: seq<RVal>): (r1: Ref)
    requires r.frames != []
    ensures r1.frames == r.frames
    decreases |vs| - i
  {
    if i <= last && i < |vs| then RSetResults(RSet(r, i, vs[i]), i + 1, last, vs) else r
  }

  function RArgument(vs: seq<RVal>, i: nat): RVal { if i < |vs| then vs[i] else RNil }

  function RArguments(vs: seq<RVal>, i: nat, n: nat): (r: seq<RVal>)
    ensures |r| == n
    decreases n
  {
    if n == 0 then [] else [RArgument(vs, i)] + RArguments(vs, i + 1, n - 1)
  }

  /** The activation `steps` outward from `act`. */
  function Enclosing(acts: seq<Act>, act: nat, steps: nat): nat
    decreases steps
  {
    if steps == 0 || act >= |acts| then act else Enclosing(acts, acts[act].env, steps - 1)
  }

  /** The variable an upvalue of the current function stands for. */
  function Variable(r: Ref, i: nat): (nat, nat)
    requires r.frames != []
  {
    var act := CurAct(r);
    if act < |r.acts| && WellFormed(r.acts[act].proto) && i < |r.acts[act].proto.upvals| then
      var (steps, slot) := FuncSlot(r.acts[act].proto, i);
      (Enclosing(r.acts, act, steps), slot)
    else (|r.acts|, 0)
  }

  function REnter(r: Ref, p: Proto, env: nat, vs: seq<RVal>): Ref {
    r.(acts := r.acts + [Act(p, env, RArguments(vs, 0, p.framesize))], frames := r.frames + [RFrame(|r.acts|, 0, 0)])
  }

  function RStep(r: Ref, op: Op): Ref {
    if r.frames == [] then r
    else
      match op
      case KSHORT(a, n) => RSet(r, a, RNum(n))
      case KNIL(a) => RSet(r, a, RNil)
      case MOV(a, d) => RSet(r, a, RGet(r, d))
      case FNEW(a, child) => RSet(r, a, RClo(child, CurAct(r)))
      case UGET(a, d) => RSet(r, a, RLoad(r, Variable(r, d).0, Variable(r, d).1))
      case USETV(u, d) => RStore(r, Variable(r, u).0, Variable(r, u).1, RGet(r, d))
      case GSET(a, name) => r.(globals := r.globals[name := RGet(r, a)])
      case GGET(a, name) => RSet(r, a, if name in r.globals then r.globals[name] else RNil)
      case CALL(a, b, n) =>
        var v := RGet(r, a);
        if v.RClo? then
          var waiting := r.(frames := r.frames[|r.frames| - 1 := RFrame(CurAct(r), a, b)]);
          REnter(waiting, v.proto, v.env, RGets(r, a + 1, n))
        else r.(frames := [])
      case RET(a, n) =>
        var vs := RGets(r, a, n);
        var rest := r.(frames := r.frames[..|r.frames| - 1]);
        if rest.frames == [] then rest
        else
          var f := rest.frames[|rest.frames| - 1];
          RSetResults(rest, f.a, f.a + f.b - 2, vs)
      case SHOW(a) => r.(out := r.out + [RSee(RGet(r, a))])
  }

  function RRun(r: Ref, ops: seq<Op>): Ref
    decreases |ops|
  {
    if ops == [] then r else RRun(RStep(r, ops[0]), ops[1..])
  }

  // ---------------------------------------------------------------- which cell is which variable

  /** Lexically enclosing activations are there and belong to the enclosing prototypes. */
  predicate Linked(acts: seq<Act>, p: Proto, env: nat)
    decreases p
  {
    match p.outer
    case Top => true
    case In(q) =>
      && env < |acts| && acts[env].proto == q && |acts[env].slots| == q.framesize
      && Linked(acts, q, acts[env].env)
  }

  /** The cell of the variable that upvalue `i` of a function stands for, if `env` is its lexically enclosing
      activation and the cells of an activation start at its entry of `base`. */
  function Named(acts: seq<Act>, base: seq<nat>, p: Proto, i: nat, env: nat): nat
    requires |base| == |acts| && WellFormed(p) && Linked(acts, p, env) && i < |p.upvals|
    decreases p
  {
    var u := p.upvals[i];
    assert Fits(u, p.outer.p);
    if u.isLocal then base[env] + u.uv else Named(acts, base, p.outer.p, u.uv, acts[env].env)
  }

  /** The upvalues of a closure are the very cells of the variables its descriptors name. */
  predicate Captures(acts: seq<Act>, base: seq<nat>, c: Closure, env: nat)
    requires |base| == |acts|
  {
    && WellFormed(c.proto) && Linked(acts, c.proto, env) && |c.upvals| == |c.proto.upvals|
    && forall i :: 0 <= i < |c.upvals| ==> c.upvals[i] == Named(acts, base, c.proto, i, env)
  }

  predicate Same(acts: seq<Act>, base: seq<nat>, v: Val, rv: RVal)
    requires |base| == |acts|
  {
    match v
    case Nil => rv == RNil
    case Num(n) => rv == RNum(n)
    case Clo(c) => rv.RClo? && rv.proto == c.proto && Captures(acts, base, c, rv.env)
  }

  predicate Placed(m: Vm, r: Ref, base: seq<nat>, a: nat)
    requires |base| == |r.acts| && a < |r.acts|
  {
    && WellFormed(r.acts[a].proto) && Linked(r.acts, r.acts[a].proto, r.acts[a].env)
    && |r.acts[a].slots| == r.acts[a].proto.framesize
    && base[a] + |r.acts[a].slots| <= |m.cells|
  }

  predicate Apart(r: Ref, base: seq<nat>, a: nat, b: nat)
    requires |base| == |r.acts| && a < b < |r.acts|
  {
    base[a] + |r.acts[a].slots| <= base[b]
  }

  predicate SlotSame(m: Vm, r: Ref, base: seq<nat>, a: nat, s: nat)
    requires |base| == |r.acts| && a < |r.acts| && s < |r.acts[a].slots|
  {
    base[a] + s < |m.cells| && Same(r.acts, base, m.cells[base[a] + s], r.acts[a].slots[s])
  }

  predicate FrameSame(r: Ref, base: seq<nat>, f: Frame, rf: RFrame)
    requires |base| == |r.acts|
  {
    && rf.act < |r.acts| && f.a == rf.a && f.b == rf.b
    && f.func.proto == r.acts[rf.act].proto && Captures(r.acts, base, f.func, r.acts[rf.act].env)
    && f.slots == Fresh(base[rf.act], |r.acts[rf.act].slots|)
  }

  predicate Layout(m: Vm, r: Ref, base: seq<nat>) {
    && |base| == |r.acts|
    && (forall a :: 0 <= a < |r.acts| ==> Placed(m, r, base, a))
    && (forall a, b {:trigger Apart(r, base, a, b)} :: 0 <= a < b < |r.acts| ==> Apart(r, base, a, b))
  }

  predicate Frames(m: Vm, r: Ref, base: seq<nat>)
    requires |base| == |r.acts|
  {
    |m.frames| == |r.frames| && forall k :: 0 <= k < |m.frames| ==> FrameSame(r, base, m.frames[k], r.frames[k])
  }

  predicate Slots(m: Vm, r: Ref, base: seq<nat>)
    requires |base| == |r.acts|
  {
    forall a, s {:trigger SlotSame(m, r, base, a, s)} ::
      0 <= a < |r.acts| && 0 <= s < |r.acts[a].slots| ==> SlotSame(m, r, base, a, s)
  }

  predicate Globals(m: Vm, r: Ref, base: seq<nat>)
    requires |base| == |r.acts|
  {
    m.globals.Keys == r.globals.Keys && forall n :: n in m.globals ==> Same(r.acts, base, m.globals[n], r.globals[n])
  }

  /** The interpreter and the reference are in the same situation. */
  predicate Sim(m: Vm, r: Ref, base: seq<nat>) {
    && |base| == |r.acts| && |m.frames| == |r.frames| && m.out == r.out
    && Layout(m, r, base) && Frames(m, r, base) && Slots(m, r, base) && Globals(m, r, base)
  }

  // ---------------------------------------------------------------- values keep their meaning

  /** Later states have the same activations and perhaps more; variables may have changed. */
  predicate Extends(acts: seq<Act>, base: seq<nat>, acts1: seq<Act>, base1: seq<nat>) {
    && |base| == |acts| <= |acts1| == |base1| && base1[..|base|] == base
    && forall a :: 0 <= a < |acts| ==> SameAct(acts[a], acts1[a])
  }

  predicate SameAct(x: Act, y: Act) {
    x.proto == y.proto && x.env == y.env && |x.slots| == |y.slots|
  }

  lemma {:induction false} LinkedStays(acts: seq<Act>, base: seq<nat>, acts1: seq<Act>, base1: seq<nat>, p: Proto,
          env: nat)
    requires Extends(acts, base, acts1, base1) && Linked(acts, p, env)
    ensures Linked(acts1, p, env)
    decreases p
  {
    if p.outer.In? {
      assert SameAct(acts[env], acts1[env]);
      LinkedStays(acts, base, acts1, base1, p.outer.p, acts[env].env);
    }
  }

  lemma {:induction false} NamedStays(acts: seq<Act>, base: seq<nat>, acts1: seq<Act>, base1: seq<nat>, p: Proto,
          i: nat, env: nat)
    requires Extends(acts, base, acts1, base1) && WellFormed(p) && Linked(acts, p, env) && Linked(acts1, p, env)
    requires i < |p.upvals|
    ensures Named(acts1, base1, p, i, env) == Named(acts, base, p, i, env)
    decreases p
  {
    assert SameAct(acts[env], acts1[env]) && base1[env] == base1[..|base|][env];
    assert Fits(p.upvals[i], p.outer.p);
    if !p.upvals[i].isLocal {
      NamedStays(acts, base, acts1, base1, p.outer.p, p.upvals[i].uv, acts[env].env);
    }
  }

  lemma CapturesStays(acts: seq<Act>, base: seq<nat>, acts1: seq<Act>, base1: seq<nat>, c: Closure, env: nat)
    requires Extends(acts, base, acts1, base1) && Captures(acts, base, c, env)
    ensures Captures(acts1, base1, c, env)
  {
    hide Linked, WellFormed, Named;
    LinkedStays(acts, base, acts1, base1, c.proto, env);
    forall i | 0 <= i < |c.upvals|
      ensures c.upvals[i] == Named(acts1, base1, c.proto, i, env)
    {
      NamedStays(acts, base, acts1, base1, c.proto, i, env);
    }
  }

  lemma SameStays(acts: seq<Act>, base: seq<nat>, acts1: seq<Act>, base1: seq<nat>, v: Val, rv: RVal)
    requires Extends(acts, base, acts1, base1) && Same(acts, base, v, rv)
    ensures Same(acts1, base1, v, rv)
  {
    hide Captures;
    if v.Clo? {
      CapturesStays(acts, base, acts1, base1, v.c, rv.env);
    }
  }

  /** The function and slot that an upvalue stands for statically lead to the same cell. */
  lemma {:induction false} NamedIsFuncSlot(m: Vm, r: Ref, base: seq<nat>, act: nat, i: nat)
    requires Layout(m, r, base) && act < |r.acts| && i < |r.acts[act].proto.upvals|
    requires WellFormed(r.acts[act].proto) && Linked(r.acts, r.acts[act].proto, r.acts[act].env)
    ensures var (steps, slot) := FuncSlot(r.acts[act].proto, i);
            var b := Enclosing(r.acts, act, steps);
            && b < |r.acts| && slot < |r.acts[b].slots|
            && Named(r.acts, base, r.acts[act].proto, i, r.acts[act].env) == base[b] + slot
    decreases r.acts[act].proto
  {
    var p, env := r.acts[act].proto, r.acts[act].env;
    assert Fits(p.upvals[i], p.outer.p);
    if p.upvals[i].isLocal {
      assert Enclosing(r.acts, act, 1) == Enclosing(r.acts, env, 0);
    } else {
      NamedIsFuncSlot(m, r, base, env, p.upvals[i].uv);
    }
  }

  // ---------------------------------------------------------------- one instruction

  lemma GetSim(m: Vm, r: Ref, base: seq<nat>, i: nat)
    requires Sim(m, r, base) && m.frames != []
    ensures r.frames != [] && Same(r.acts, base, GetSlot(m, i), RGet(r, i))
  {
    hide Same, Captures, WellFormed, Linked;
    assert FrameSame(r, base, CurFrame(m), r.frames[|r.frames| - 1]);
    var a := CurAct(r);
    if i < |r.acts[a].slots| {
      assert SlotSame(m, r, base, a, i);
    } else {
      assert GetSlot(m, i) == Nil && RGet(r, i) == RNil;
      assert Same(r.acts, base, Nil, RNil) by { NilSame(r.acts, base); }
    }
  }

  lemma NilSame(acts: seq<Act>, base: seq<nat>)
    requires |base| == |acts|
    ensures Same(acts, base, Nil, RNil)
  {
  }

  /** Cells of different variables are different. */
  lemma CellsApart(m: Vm, r: Ref, base: seq<nat>, a: nat, s: nat, b: nat, t: nat)
    requires Layout(m, r, base) && a < |r.acts| && s < |r.acts[a].slots| && b < |r.acts| && t < |r.acts[b].slots|
    ensures base[a] + s == base[b] + t ==> a == b && s == t
  {
    hide Placed;
    assert a < b ==> Apart(r, base, a, b);
    assert b < a ==> Apart(r, base, b, a);
  }

  lemma StoreSim(m: Vm, r: Ref, base: seq<nat>, a: nat, s: nat, v: Val, rv: RVal)
    requires Sim(m, r, base) && a < |r.acts| && s < |r.acts[a].slots| && Same(r.acts, base, v, rv)
    ensures Sim(Store(m, base[a] + s, v), RStore(r, a, s, rv), base)
  {
    hide Same, Captures, WellFormed, Linked, Named;
    assert Placed(m, r, base, a);
    var m1, r1 := Store(m, base[a] + s, v), RStore(r, a, s, rv);
    assert Extends(r.acts, base, r1.acts, base);
    forall b | 0 <= b < |r1.acts|
      ensures Placed(m1, r1, base, b)
    {
      assert Placed(m, r, base, b);
      LinkedStays(r.acts, base, r1.acts, base, r.acts[b].proto, r.acts[b].env);
    }
    forall b, c | 0 <= b < c < |r1.acts|
      ensures Apart(r1, base, b, c)
    {
      assert Apart(r, base, b, c);
    }
    FramesStay(m, r, base, m1, r1, base);
    GlobalsStay(m, r, base, m1, r1, base);
    forall b, t | 0 <= b < |r1.acts| && 0 <= t < |r1.acts[b].slots|
      ensures SlotSame(m1, r1, base, b, t)
    {
      assert SlotSame(m, r, base, b, t);
      CellsApart(m, r, base, a, s, b, t);
      SameStays(r.acts, base, r1.acts, base, m.cells[base[b] + t], r.acts[b].slots[t]);
      SameStays(r.acts, base, r1.acts, base, v, rv);
    }
  }

  lemma FramesStay(m: Vm, r: Ref, base: seq<nat>, m1: Vm, r1: Ref, base1: seq<nat>)
    requires Frames1(m, r, base) && m1.frames == m.frames && r1.frames == r.frames
    requires Extends(r.acts, base, r1.acts, base1)
    ensures Frames1(m1, r1, base1)
  {
    hide Captures;
    forall k | 0 <= k < |m.frames|
      ensures FrameSame(r1, base1, m1.frames[k], r1.frames[k])
    {
      FrameStays(r, base, r1, base1, m.frames[k], r.frames[k]);
    }
  }

  lemma FrameStays(r: Ref, base: seq<nat>, r1: Ref, base1: seq<nat>, f: Frame, rf: RFrame)
    requires |base| == |r.acts| && Extends(r.acts, base, r1.acts, base1) && FrameSame(r, base, f, rf)
    ensures FrameSame(r1, base1, f, rf)
  {
    hide Captures;
    assert SameAct(r.acts[rf.act], r1.acts[rf.act]) && base1[rf.act] == base1[..|base|][rf.act];
    CapturesStays(r.acts, base, r1.acts, base1, f.func, r.acts[rf.act].env);
  }

  predicate Frames1(m: Vm, r: Ref, base: seq<nat>) { |base| == |r.acts| && Frames(m, r, base) }

  lemma GlobalsStay(m: Vm, r: Ref, base: seq<nat>, m1: Vm, r1: Ref, base1: seq<nat>)
    requires |base| == |r.acts| && Globals(m, r, base) && m1.globals == m.globals && r1.globals == r.globals
    requires Extends(r.acts, base, r1.acts, base1)
    ensures Globals(m1, r1, base1)
  {
    hide Same;
    forall n | n in m.globals
      ensures Same(r1.acts, base1, m1.globals[n], r1.globals[n])
    {
      SameStays(r.acts, base, r1.acts, base1, m.globals[n], r.globals[n]);
    }
  }

  lemma SetSim(m: Vm, r: Ref, base: seq<nat>, i: nat, v: Val, rv: RVal)
    requires Sim(m, r, base) && m.frames != [] && Same(r.acts, base, v, rv)
    ensures r.frames != [] && Sim(SetSlot(m, i, v), RSet(r, i, rv), base)
    ensures Extends(r.acts, base, RSet(r, i, rv).acts, base)
  {
    hide Same, Captures, WellFormed, Linked, Layout, Slots, Globals;
    assert FrameSame(r, base, CurFrame(m), r.frames[|r.frames| - 1]);
    if i < |r.acts[CurAct(r)].slots| {
      StoreSim(m, r, base, CurAct(r), i, v, rv);
    }
  }

  predicate AllSame(acts: seq<Act>, base: seq<nat>, vs: seq<Val>, rvs: seq<RVal>)
    requires |base| == |acts|
  {
    |vs| == |rvs| && forall i :: 0 <= i < |vs| ==> Same(acts, base, vs[i], rvs[i])
  }

  lemma AllSameStays(acts: seq<Act>, base: seq<nat>, acts1: seq<Act>, base1: seq<nat>, vs: seq<Val>, rvs: seq<RVal>)
    requires Extends(acts, base, acts1, base1) && AllSame(acts, base, vs, rvs)
    ensures AllSame(acts1, base1, vs, rvs)
  {
    hide Same;
    forall i | 0 <= i < |vs|
      ensures Same(acts1, base1, vs[i], rvs[i])
    {
      SameStays(acts, base, acts1, base1, vs[i], rvs[i]);
    }
  }

  lemma {:induction false} GetsSim(m: Vm, r: Ref, base: seq<nat>, a: nat, n: nat)
    requires Sim(m, r, base) && m.frames != []
    ensures r.frames != [] && AllSame(r.acts, base, GetSlots(m, a, n), RGets(r, a, n))
    decreases n
  {
    hide Frames, Slots, Globals, Same, GetSlot, RGet;
    if n > 0 {
      GetSim(m, r, base, a);
      GetsSim(m, r, base, a + 1, n - 1);
    }
  }

  lemma {:induction false} ResultsSim(m: Vm, r: Ref, base: seq<nat>, i: nat, last: int, vs: seq<Val>, rvs: seq<RVal>)
    requires Sim(m, r, base) && m.frames != [] && AllSame(r.acts, base, vs, rvs)
    ensures r.frames != [] && Sim(SetResults(m, i, last, vs), RSetResults(r, i, last, rvs), base)
    decreases |vs| - i
  {
    hide Frames, Slots, Globals, Same, SetSlot, RSet;
    if i <= last && i < |vs| {
      SetSim(m, r, base, i, vs[i], rvs[i]);
      AllSameStays(r.acts, base, RSet(r, i, rvs[i]).acts, base, vs, rvs);
      ResultsSim(SetSlot(m, i, vs[i]), RSet(r, i, rvs[i]), base, i + 1, last, vs, rvs);
    }
  }

  /** Building a closure in a frame takes over exactly the cells its descriptors name. */
  lemma NewClosure(m: Vm, r: Ref, base: seq<nat>, child: Proto)
    requires Sim(m, r, base) && m.frames != [] && WellFormed(child)
    requires r.frames != [] && child.outer == In(r.acts[CurAct(r)].proto)
    ensures Captures(r.acts, base, Closure(child, CapturedCells(CurFrame(m), child.upvals)), CurAct(r))
  {
    hide Slots, Globals, CapturedCells;
    var f, act := CurFrame(m), CurAct(r);
    var q := child.outer.p;
    assert FrameSame(r, base, f, r.frames[|r.frames| - 1]) && Placed(m, r, base, act);
    forall i | 0 <= i < |child.upvals|
      ensures CapturedCell(f, child.upvals[i]) == [Named(r.acts, base, child, i, act)]
    {
      assert Fits(child.upvals[i], q);
    }
    CapturedAt(f, child.upvals);
  }

  /** If every descriptor names something, the cells are those of the descriptors, in their order. */
  lemma {:induction false} CapturedAt(f: Frame, ups: seq<Up>)
    requires forall i :: 0 <= i < |ups| ==> |CapturedCell(f, ups[i])| == 1
    ensures |CapturedCells(f, ups)| == |ups|
    ensures forall i :: 0 <= i < |ups| ==> [CapturedCells(f, ups)[i]] == CapturedCell(f, ups[i])
  {
    hide CapturedCell;
    if ups != [] {
      CapturedAt(f, ups[1..]);
      assert forall i :: 0 < i < |ups| ==> ups[i] == ups[1..][i - 1];
      assert forall i :: 0 < i < |ups| ==> CapturedCells(f, ups)[i] == CapturedCells(f, ups[1..])[i - 1];
    }
  }

  /** An upvalue of the running closure is the cell of the variable the reference finds. */
  lemma UpvalueCell(m: Vm, r: Ref, base: seq<nat>, i: nat)
    requires Sim(m, r, base) && m.frames != []
    ensures r.frames != [] && CurAct(r) < |r.acts|
    ensures var ups := CurFrame(m).func.upvals;
            var (a, s) := Variable(r, i);
            if i < |ups| then a < |r.acts| && s < |r.acts[a].slots| && ups[i] == base[a] + s && ups[i] < |m.cells|
            else a >= |r.acts|
  {
    hide Slots, Globals, Named, FuncSlot, Enclosing;
    var act := CurAct(r);
    assert FrameSame(r, base, CurFrame(m), r.frames[|r.frames| - 1]) && Placed(m, r, base, act);
    if i < |CurFrame(m).func.upvals| {
      NamedIsFuncSlot(m, r, base, act, i);
      assert Placed(m, r, base, Variable(r, i).0);
    }
  }

  lemma {:induction false} ArgumentsAt(vs: seq<Val>, i: nat, n: nat, k: nat)
    requires k < n
    ensures Arguments(vs, i, n)[k] == Argument(vs, i + k)
    decreases n
  {
    if k > 0 {
      ArgumentsAt(vs, i + 1, n - 1, k - 1);
    }
  }

  lemma {:induction false} RArgumentsAt(vs: seq<RVal>, i: nat, n: nat, k: nat)
    requires k < n
    ensures RArguments(vs, i, n)[k] == RArgument(vs, i + k)
    decreases n
  {
    if k > 0 {
      RArgumentsAt(vs, i + 1, n - 1, k - 1);
    }
  }

  lemma EnterSim(m: Vm, r: Ref, base: seq<nat>, c: Closure, env: nat, vs: seq<Val>, rvs: seq<RVal>)
    requires Sim(m, r, base) && Captures(r.acts, base, c, env) && AllSame(r.acts, base, vs, rvs)
    ensures Sim(Enter(m, c, vs), REnter(r, c.proto, env, rvs), base + [|m.cells|])
  {
    hide Same, Captures, WellFormed, Linked, Arguments, RArguments;
    var m1, r1, base1 := Enter(m, c, vs), REnter(r, c.proto, env, rvs), base + [|m.cells|];
    var n := |r.acts|;
    assert Extends(r.acts, base, r1.acts, base1);
    assert WellFormed(c.proto) && Linked(r.acts, c.proto, env) && Captures(r1.acts, base1, c, env) by {
      CapturesParts(r.acts, base, c, env);
      CapturesStays(r.acts, base, r1.acts, base1, c, env);
    }
    forall a | 0 <= a < |r1.acts|
      ensures Placed(m1, r1, base1, a)
    {
      if a < n {
        assert Placed(m, r, base, a);
        LinkedStays(r.acts, base, r1.acts, base1, r.acts[a].proto, r.acts[a].env);
      } else {
        LinkedStays(r.acts, base, r1.acts, base1, c.proto, env);
      }
    }
    forall a, b | 0 <= a < b < |r1.acts|
      ensures Apart(r1, base1, a, b)
    {
      assert Placed(m, r, base, a);
      assert b < n ==> Apart(r, base, a, b);
    }
    forall k | 0 <= k < |m1.frames|
      ensures FrameSame(r1, base1, m1.frames[k], r1.frames[k])
    {
      if k < |m.frames| {
        FrameStays(r, base, r1, base1, m.frames[k], r.frames[k]);
      }
    }
    GlobalsStay(m, r, base, m1, r1, base1);
    EnterSlots(m, r, base, c, env, vs, rvs);
  }

  lemma CapturesParts(acts: seq<Act>, base: seq<nat>, c: Closure, env: nat)
    requires |base| == |acts| && Captures(acts, base, c, env)
    ensures WellFormed(c.proto) && Linked(acts, c.proto, env)
  {
  }

  lemma EnterSlots(m: Vm, r: Ref, base: seq<nat>, c: Closure, env: nat, vs: seq<Val>, rvs: seq<RVal>)
    requires Sim(m, r, base) && AllSame(r.acts, base, vs, rvs)
    ensures Slots(Enter(m, c, vs), REnter(r, c.proto, env, rvs), base + [|m.cells|])
  {
    hide Same, Captures, WellFormed, Linked, Arguments, RArguments, Layout, Frames, Globals, Fresh;
    var m1, r1, base1 := Enter(m, c, vs), REnter(r, c.proto, env, rvs), base + [|m.cells|];
    assert Extends(r.acts, base, r1.acts, base1);
    AllSameStays(r.acts, base, r1.acts, base1, vs, rvs);
    forall a, s | 0 <= a < |r1.acts| && 0 <= s < |r1.acts[a].slots|
      ensures SlotSame(m1, r1, base1, a, s)
    {
      if a < |r.acts| {
        assert SlotSame(m, r, base, a, s);
        SameStays(r.acts, base, r1.acts, base1, m.cells[base[a] + s], r.acts[a].slots[s]);
      } else {
        ArgumentsAt(vs, 0, c.proto.framesize, s);
        RArgumentsAt(rvs, 0, c.proto.framesize, s);
        NilSame(r1.acts, base1);
      }
    }
  }

  /** A program builds functions from the nested prototypes of the running function only. */
  predicate Lawful(r: Ref, op: Op) {
    op.FNEW? && r.frames != [] ==>
      WellFormed(op.child) && CurAct(r) < |r.acts| && op.child.outer == In(r.acts[CurAct(r)].proto)
  }

  function NextBase(m: Vm, base: seq<nat>, op: Op): seq<nat> {
    if m.frames != [] && op.CALL? && GetSlot(m, op.a).Clo? then base + [|m.cells|] else base
  }

  lemma CallSim(m: Vm, r: Ref, base: seq<nat>, op: Op)
    requires Sim(m, r, base) && op.CALL? && m.frames != []
    ensures Sim(Step(m, op), RStep(r, op), NextBase(m, base, op))
  {
    hide Same, Captures, Enter, REnter, Layout, Slots, Globals, GetSlot, RGet, GetSlots, RGets;
    GetSim(m, r, base, op.a);
    GetsSim(m, r, base, op.a + 1, op.n);
    var v, rv := GetSlot(m, op.a), RGet(r, op.a);
    assert v.Clo? == rv.RClo? && (v.Clo? ==> rv.proto == v.c.proto && Captures(r.acts, base, v.c, rv.env)) by {
      SameParts(r.acts, base, v, rv);
    }
    if v.Clo? {
      var k := |m.frames| - 1;
      var m1 := m.(frames := m.frames[k := CurFrame(m).(a := op.a, b := op.b)]);
      var r1 := r.(frames := r.frames[k := RFrame(CurAct(r), op.a, op.b)]);
      assert FrameSame(r, base, m.frames[k], r.frames[k]);
      OtherFrames(m, r, base, m1, r1);
      EnterSim(m1, r1, base, v.c, rv.env, GetSlots(m, op.a + 1, op.n), RGets(r, op.a + 1, op.n));
    } else {
      OtherFrames(m, r, base, m.(frames := []), r.(frames := []));
    }
  }

  lemma SameParts(acts: seq<Act>, base: seq<nat>, v: Val, rv: RVal)
    requires |base| == |acts| && Same(acts, base, v, rv)
    ensures v.Clo? == rv.RClo? && (v.Clo? ==> rv.proto == v.c.proto && Captures(acts, base, v.c, rv.env))
    ensures See(v) == RSee(rv)
  {
  }

  /** Cells and variables do not depend on the frames. */
  lemma OtherFrames(m: Vm, r: Ref, base: seq<nat>, m1: Vm, r1: Ref)
    requires Sim(m, r, base)
    requires m1 == m.(frames := m1.frames) && r1 == r.(frames := r1.frames) && |m1.frames| == |r1.frames|
    requires forall k :: 0 <= k < |m1.frames| ==> FrameSame(r, base, m1.frames[k], r1.frames[k])
    ensures Sim(m1, r1, base)
  {
    hide Same, Captures, WellFormed, Linked;
    forall a | 0 <= a < |r1.acts|
      ensures Placed(m1, r1, base, a)
    {
      assert Placed(m, r, base, a);
    }
    forall a, b | 0 <= a < b < |r1.acts|
      ensures Apart(r1, base, a, b)
    {
      assert Apart(r, base, a, b);
    }
    forall a, s | 0 <= a < |r1.acts| && 0 <= s < |r1.acts[a].slots|
      ensures SlotSame(m1, r1, base, a, s)
    {
      assert SlotSame(m, r, base, a, s);
    }
    forall k | 0 <= k < |m1.frames|
      ensures FrameSame(r1, base, m1.frames[k], r1.frames[k])
    {
      assert FrameSame(r, base, m1.frames[k], r1.frames[k]);
    }
  }

  lemma RetSim(m: Vm, r: Ref, base: seq<nat>, op: Op)
    requires Sim(m, r, base) && op.RET? && m.frames != []
    ensures Sim(Step(m, op), RStep(r, op), base)
  {
    hide Same, Captures, Layout, Slots, Globals, GetSlot, RGet, GetSlots, RGets;
    GetsSim(m, r, base, op.a, op.n);
    var k := |m.frames| - 1;
    var m1, r1 := m.(frames := m.frames[..k]), r.(frames := r.frames[..k]);
    assert forall j :: 0 <= j < k ==> FrameSame(r, base, m1.frames[j], r1.frames[j]) by {
      forall j | 0 <= j < k
        ensures FrameSame(r, base, m1.frames[j], r1.frames[j])
      {
        assert FrameSame(r, base, m.frames[j], r.frames[j]);
      }
    }
    OtherFrames(m, r, base, m1, r1);
    if k > 0 {
      var f := CurFrame(m1);
      assert FrameSame(r, base, f, r1.frames[k - 1]);
      ResultsSim(m1, r1, base, f.a, f.a + f.b - 2, GetSlots(m, op.a, op.n), RGets(r, op.a, op.n));
    }
  }

  /** Every instruction takes both interpreters to the same situation again. */
  lemma StepSim(m: Vm, r: Ref, base: seq<nat>, op: Op)
    requires Sim(m, r, base) && Lawful(r, op)
    ensures Sim(Step(m, op), RStep(r, op), NextBase(m, base, op))
  {
    if m.frames != [] {
      match op {
        case CALL(_, _, _) => CallSim(m, r, base, op);
        case RET(_, _) => RetSim(m, r, base, op);
        case USETV(_, _) => AssignSim(m, r, base, op);
        case _ => SimpleSim(m, r, base, op);
      }
    }
  }

  lemma AssignSim(m: Vm, r: Ref, base: seq<nat>, op: Op)
    requires Sim(m, r, base) && op.USETV? && m.frames != []
    ensures Sim(Step(m, op), RStep(r, op), base)
  {
    hide Same, Captures, Layout, Slots, Globals, Frames, GetSlot, RGet, Variable;
    GetSim(m, r, base, op.d);
    UpvalueCell(m, r, base, op.u);
    var (a, s) := Variable(r, op.u);
    if op.u < |CurFrame(m).func.upvals| {
      StoreSim(m, r, base, a, s, GetSlot(m, op.d), RGet(r, op.d));
    }
  }

  lemma SimpleSim(m: Vm, r: Ref, base: seq<nat>, op: Op)
    requires Sim(m, r, base) && m.frames != [] && !op.CALL? && !op.RET? && !op.USETV? && Lawful(r, op)
    ensures Sim(Step(m, op), RStep(r, op), base)
  {
    hide Captures, Layout, Slots, Frames, GetSlot, RGet, SetSlot, RSet, Variable, WellFormed, Globals;
    NilSame(r.acts, base);
    match op {
      case KSHORT(a, n) => SetSim(m, r, base, a, Num(n), RNum(n));
      case KNIL(a) => SetSim(m, r, base, a, Nil, RNil);
      case MOV(a, d) => {
        GetSim(m, r, base, d);
        SetSim(m, r, base, a, GetSlot(m, d), RGet(r, d));
      }
      case FNEW(a, child) => {
        NewClosure(m, r, base, child);
        SetSim(m, r, base, a, Clo(Closure(child, CapturedCells(CurFrame(m), child.upvals))), RClo(child, CurAct(r)));
      }
      case UGET(a, d) => {
        UpvalueCell(m, r, base, d);
        UpvalueValue(m, r, base, d);
        SetSim(m, r, base, a, UpvalueOf(m, d), RLoad(r, Variable(r, d).0, Variable(r, d).1));
      }
      case GSET(a, name) => {
        GetSim(m, r, base, a);
        GlobalSet(m, r, base, name, GetSlot(m, a), RGet(r, a));
      }
      case GGET(a, name) => {
        GlobalGet(m, r, base, name);
        SetSim(m, r, base, a, if name in m.globals then m.globals[name] else Nil,
               if name in r.globals then r.globals[name] else RNil);
      }
      case SHOW(a) => {
        GetSim(m, r, base, a);
        SameParts(r.acts, base, GetSlot(m, a), RGet(r, a));
        Shown(m, r, base, See(GetSlot(m, a)));
      }
    }
  }

  function UpvalueOf(m: Vm, d: nat): Val
    requires m.frames != []
  {
    if d < |CurFrame(m).func.upvals| then Load(m, CurFrame(m).func.upvals[d]) else Nil
  }

  lemma UpvalueValue(m: Vm, r: Ref, base: seq<nat>, d: nat)
    requires Sim(m, r, base) && m.frames != []
    ensures r.frames != [] && Same(r.acts, base, UpvalueOf(m, d), RLoad(r, Variable(r, d).0, Variable(r, d).1))
  {
    hide Same, Captures, Frames, Globals, Variable, Placed;
    UpvalueCell(m, r, base, d);
    NilSame(r.acts, base);
    if d < |CurFrame(m).func.upvals| {
      assert SlotSame(m, r, base, Variable(r, d).0, Variable(r, d).1);
    }
  }

  lemma GlobalGet(m: Vm, r: Ref, base: seq<nat>, name: string)
    requires Sim(m, r, base)
    ensures name in m.globals <==> name in r.globals
    ensures name in m.globals ==> Same(r.acts, base, m.globals[name], r.globals[name])
  {
    hide Same, Layout, Slots, Frames;
    assert name in m.globals <==> name in m.globals.Keys;
    assert name in r.globals <==> name in r.globals.Keys;
  }

  /** Globals and output do not touch cells and frames. */
  lemma OtherOutput(m: Vm, r: Ref, base: seq<nat>, m1: Vm, r1: Ref)
    requires Sim(m, r, base)
    requires m1 == m.(globals := m1.globals, out := m1.out) && r1 == r.(globals := r1.globals, out := r1.out)
    requires Globals(m1, r1, base) && m1.out == r1.out
    ensures Sim(m1, r1, base)
  {
    hide Same, Captures, WellFormed, Linked;
    forall a | 0 <= a < |r1.acts|
      ensures Placed(m1, r1, base, a)
    {
      assert Placed(m, r, base, a);
    }
    forall a, b | 0 <= a < b < |r1.acts|
      ensures Apart(r1, base, a, b)
    {
      assert Apart(r, base, a, b);
    }
    forall a, s | 0 <= a < |r1.acts| && 0 <= s < |r1.acts[a].slots|
      ensures SlotSame(m1, r1, base, a, s)
    {
      assert SlotSame(m, r, base, a, s);
    }
    forall k | 0 <= k < |m1.frames|
      ensures FrameSame(r1, base, m1.frames[k], r1.frames[k])
    {
      assert FrameSame(r, base, m.frames[k], r.frames[k]);
    }
  }

  lemma GlobalSet(m: Vm, r: Ref, base: seq<nat>, name: string, v: Val, rv: RVal)
    requires Sim(m, r, base) && Same(r.acts, base, v, rv)
    ensures Sim(m.(globals := m.globals[name := v]), r.(globals := r.globals[name := rv]), base)
  {
    hide Same, Slots, Frames, Captures;
    OtherOutput(m, r, base, m.(globals := m.globals[name := v]), r.(globals := r.globals[name := rv]));
  }

  lemma Shown(m: Vm, r: Ref, base: seq<nat>, x: Seen)
    requires Sim(m, r, base)
    ensures Sim(m.(out := m.out + [x]), r.(out := r.out + [x]), base)
  {
    hide Same, Slots, Frames, Captures;
    OtherOutput(m, r, base, m.(out := m.out + [x]), r.(out := r.out + [x]));
  }
}
