/** What single instructions of the test interpreter do to the slots of the running activation. */
module Instructions {
  import opened Basics
  import opened Capture
  import opened CallResults

  /** The slot an instruction assigns, and the value it gets. */
  function Assigned(m: Vm, op: Op): Option<(nat, Val)>
    requires m.frames != []
  {
    var f := CurFrame(m);
    match op
    case KSHORT(a, k) => Some((a, Num(k)))
    case KNIL(a) => Some((a, Nil))
    case MOV(a, d) => Some((a, GetSlot(m, d)))
    case FNEW(a, child) => Some((a, Clo(Closure(child, CapturedCells(f, child.upvals)))))
    case UGET(a, d) => Some((a, if d < |f.func.upvals| then Load(m, f.func.upvals[d]) else Nil))
    case GGET(a, name) => Some((a, if name in m.globals then m.globals[name] else Nil))
    case _ => None
  }

  /** An assigning instruction changes this slot and no other, no global and no output. */
  lemma AssignsOneSlot(m: Vm, op: Op, n: nat, j: nat)
    requires HasSlots(m, n) && j < n && Assigned(m, op).Some? && Assigned(m, op).value.0 < n
    ensures var (m1, (a, v)) := (Step(m, op), Assigned(m, op).value);
            && HasSlots(m1, n) && GetSlot(m1, j) == (if j == a then v else GetSlot(m, j))
            && m1.frames == m.frames && m1.globals == m.globals && m1.out == m.out
  {
    hide GetSlot, CapturedCells;
    var (a, v) := Assigned(m, op).value;
    StoredApart(m, n, a, j, v);
  }

  /** A global gets the value of a slot, and an upvalue cell, too; nothing else changes. */
  lemma AssignsElsewhere(m: Vm, a: nat, name: string, u: nat)
    requires m.frames != []
    ensures var m1 := Step(m, GSET(a, name));
            && m1 == m.(globals := m1.globals) && name in m1.globals && m1.globals[name] == GetSlot(m, a)
            && forall g :: g != name ==> (g in m1.globals <==> g in m.globals)
                                         && (g in m.globals ==> m1.globals[g] == m.globals[g])
    ensures u < |CurFrame(m).func.upvals| ==>
              var c := CurFrame(m).func.upvals[u];
              var m1 := Step(m, USETV(u, a));
              && m1 == m.(cells := m1.cells) && |m1.cells| == |m.cells|
              && (c < |m.cells| ==> Load(m1, c) == GetSlot(m, a))
              && forall d: nat :: d != c ==> Load(m1, d) == Load(m, d)
  {
    hide GetSlot;
  }

  lemma {:induction false} ValuesOfSlots(m: Vm, a: nat, n: nat, i: nat)
    requires m.frames != [] && i < n
    ensures GetSlots(m, a, n)[i] == GetSlot(m, a + i)
    decreases n
  {
    hide GetSlot;
    if i > 0 {
      ValuesOfSlots(m, a + 1, n - 1, i - 1);
    }
  }

  lemma {:induction false} ArgumentOf(vs: seq<Val>, i: nat, n: nat, j: nat)
    requires j < n
    ensures Arguments(vs, i, n)[j] == if i + j < |vs| then vs[i + j] else Nil
    decreases n
  {
    if j > 0 {
      ArgumentOf(vs, i + 1, n - 1, j - 1);
    }
  }

  /** A call enters the closure in its base slot. The arguments are the first slots of the new activation, in order,
      and its other slots are nil; no cell that existed before changes. */
  lemma CallPassesArguments(m: Vm, a: nat, b: nat, n: nat, i: nat)
    requires m.frames != [] && GetSlot(m, a).Clo? && i < GetSlot(m, a).c.proto.framesize
    ensures var c := GetSlot(m, a).c;
            var m1 := Step(m, CALL(a, b, n));
            && |m1.frames| == |m.frames| + 1 && CurFrame(m1).func == c && |CurFrame(m1).slots| == c.proto.framesize
            && GetSlot(m1, i) == (if i < n then GetSlot(m, a + 1 + i) else Nil)
            && m.cells <= m1.cells && m1.globals == m.globals && m1.out == m.out
  {
    hide GetSlots, Arguments;
    var c := GetSlot(m, a).c;
    var vs := GetSlots(m, a + 1, n);
    ArgumentOf(vs, 0, c.proto.framesize, i);
    if i < n {
      ValuesOfSlots(m, a + 1, n, i);
    }
    assert CurFrame(Step(m, CALL(a, b, n))).slots[i] == |m.cells| + i;
  }

  /** A return leaves the activation; the caller gets the values of the slots from `a` on as its results. */
  lemma ReturnHandsOver(m: Vm, a: nat, n: nat)
    requires |m.frames| > 1
    ensures var rest := m.(frames := m.frames[..|m.frames| - 1]);
            var f := CurFrame(rest);
            var vs := GetSlots(m, a, n);
            && Step(m, RET(a, n)) == SetResults(rest, f.a, f.a + f.b - 2, vs)
            && forall i :: 0 <= i < n ==> vs[i] == GetSlot(m, a + i)
  {
    hide GetSlots, GetSlot, SetResults;
    forall i | 0 <= i < n
      ensures GetSlots(m, a, n)[i] == GetSlot(m, a + i)
    {
      ValuesOfSlots(m, a, n, i);
    }
  }

  /** Of a value its kind is shown, and with it its number or its prototype; different ones are shown differently. */
  lemma ShownIsSeen(m: Vm, a: nat)
    requires m.frames != []
    ensures var (m1, v) := (Step(m, SHOW(a)), GetSlot(m, a));
            && m1 == m.(out := m1.out) && |m1.out| == |m.out| + 1 && m.out <= m1.out
            && var seen := m1.out[|m.out|];
               && (v == Nil <==> seen == SeenNil)
               && (forall n :: v == Num(n) <==> seen == SeenNum(n))
               && (forall p :: (v.Clo? && v.c.proto == p) <==> seen == SeenFunc(p))
  {
    hide GetSlot;
  }
}
