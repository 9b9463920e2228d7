/** The two static views of an upvalue agree: the words the assembler has written into its functions, and the
    descriptors of the prototypes the test interpreter runs. */
module StaticCapture {
  import opened Upvalues
  import opened UpvalueResolution
  import Capture

  /** The prototype has the upvalue words of the function as its descriptors, and so have the enclosing ones. */
  ghost predicate Describes(p: Capture.Proto, f: Func)
    requires Nested(f)
    reads f.Chain()
    decreases |f.outers|
  {
    && |p.upvals| == |f.emitted|
    && (forall i :: 0 <= i < |p.upvals| ==>
          p.upvals[i] == Capture.Up(GetUpval(f.emitted, i) % 256, IsLocalUpval(f.emitted, i)))
    && if f.outer == null then p.outer.Top? else p.outer.In? && Describes(p.outer.p, f.outer)
  }

  /** Both lookups end at the same function and slot, after the same number of steps. */
  lemma {:induction false} LookupsAgree(p: Capture.Proto, f: Func, i: nat)
    requires Nested(f) && Describes(p, f) && Capture.WellFormed(p) && i < |p.upvals|
    ensures var (steps, slot) := Capture.FuncSlot(p, i);
            && steps == Hops(f, i) <= |f.outers|
            && GetFuncSlotFromUpval(f, i) == (slot, f.outers[steps - 1])
    decreases |f.outers|
  {
    var u := p.upvals[i];
    assert Capture.Fits(u, p.outer.p);
    if !u.isLocal {
      LookupsAgree(p.outer.p, f.outer, u.uv);
    }
  }

  /** In a program processed by the assembler, the descriptors of a function name the declaring function and the slot
      of every variable it captures; run by the interpreter, a closure of it holds the cell of this variable. */
  lemma DescriptorsNameVariables(all: set<Func>, t: Tree, p: Capture.Proto, g: Func, v: Local)
    requires WellNested(t) && t.f.outer == null && Funcs(t) <= all && Done(StateOf(all), t)
    requires forall h :: h in Funcs(t) ==> |h.emitted| <= 256
    requires g in Funcs(t) && Nested(g) && v in g.upvals && v.slot < 256
    requires Describes(p, g) && Capture.WellFormed(p) && g.upvals[v] < |p.upvals|
    ensures var (steps, slot) := Capture.FuncSlot(p, g.upvals[v]);
            steps <= |g.outers| && g.outers[steps - 1] == v.func && slot == v.slot
  {
    ProgramUpvalues(all, t, g, v);
    LookupsAgree(p, g, g.upvals[v]);
  }
}
