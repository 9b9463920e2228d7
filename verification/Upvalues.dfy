/** Upvalue numbering in the assembler: every function numbers the outer variables it uses, passing each one
    on to the functions up to the one that declares it; the descriptors written into the bytecode lead
    from any function back to the declaring function and the slot of the variable. */
module Upvalues {

  /** A variable that can be captured, with its declaring function. Its slot is fixed from the start, as for
      parameters and preset variables. */
  class Local {
    const func: Func
    const slot: nat
    var readOnly: bool

    constructor (func: Func, slot: nat)
      ensures this.func == func && this.slot == slot && readOnly
    {
      this.func, this.slot, readOnly := func, slot, true;
    }
  }

  class Func {
    const outer: Func?
    ghost const outers: seq<Func>       // the enclosing functions, innermost first
    var upvals: map<Local, nat>
    var emitted: seq<nat>               // the 16-bit upvalue words of the bytecode

    constructor (outer: Func?)
      ensures this.outer == outer && outers == (if outer == null then [] else [outer] + outer.outers)
      ensures upvals == map[] && emitted == []
    {
      this.outer := outer;
      this.outers := if outer == null then [] else [outer] + outer.outers;
      upvals, emitted := map[], [];
    }

    /** The functions whose upvalue lists a use in this function can extend. */
    ghost function Chain(): set<Func> {
      {this} + set f | f in outers
    }

    /** The number of `v` in this function, which is added together with its links to the outer functions when
        it is new; -1 for a variable of this function. */
    method ResolveUpval(v: Local, recursive: bool) returns (nr: int)
      requires Nested(this) && ClosedChain(this)
      modifies Chain()`upvals
      decreases |outers|
      ensures if v.func == this then nr == -1 else v in upvals && nr == upvals[v]
      ensures forall f :: f in Chain() ==>
                f.upvals == if Takes(this, f, v, recursive) then With(old(f.upvals), v) else old(f.upvals)
    {
      if v.func == this {
        return -1;
      }
      ChainStep(this, v);
      if v in upvals {
        AlreadyLinked(this, v);
        return upvals[v];
      }
      nr := |upvals|;
      upvals := upvals[v := nr];
      if recursive && outer != null && outer != v.func {
        var _ := outer.ResolveUpval(v, recursive);
      }
    }

    /** The descriptor of one upvalue. Looking up its number in the enclosing function adds nothing there. */
    method Describe(v: Local) returns (d: Desc)
      requires Nested(this) && ClosedChain(this) && v in upvals && outer != null
      modifies outer.Chain()`upvals
      ensures forall f :: f in Chain() ==> f.upvals == old(f.upvals)
      ensures ClosedChain(this) && d == DescOf(this, v)
    {
      ChainStep(this, v);
      if v.func == outer {
        d := Desc(v.slot, true, v.readOnly);
      } else {
        var nr := outer.ResolveUpval(v, false);
        d := Desc(nr, false, v.readOnly);
      }
    }

    /** The descriptors of this function's upvalues, by number. The source walks its hash table in no
        particular order. */
    method GetUpvals() returns (res: seq<Desc>)
      requires Nested(this) && ClosedChain(this) && Dense(upvals) && (upvals != map[] ==> outer != null)
      modifies (if outer == null then {} else outer.Chain())`upvals
      ensures forall f :: f in Chain() ==> f.upvals == old(f.upvals)
      ensures |res| == |upvals| && forall v :: v in upvals ==> res[upvals[v]] == DescOf(this, v)
    {
      res := seq(|upvals|, i => Desc(0, false, false));
      var rest := upvals.Keys;
      while rest != {}
        invariant rest <= upvals.Keys && |res| == |upvals| && ClosedChain(this)
        invariant forall f :: f in Chain() ==> f.upvals == old(f.upvals)
        invariant forall v :: v in upvals.Keys - rest ==> res[upvals[v]] == DescOf(this, v)
        decreases rest
      {
        var v :| v in rest;
        var d := Describe(v);
        res := res[upvals[v] := d];
        rest := rest - {v};
      }
    }
  }

  /** An upvalue descriptor: a slot of the enclosing function, or one of its upvalues. */
  datatype Desc = Desc(uv: nat, isLocal: bool, isRo: bool)

  ghost function DescOf(f: Func, v: Local): Desc
    requires f.outer != null && (v.func != f.outer ==> v in f.outer.upvals)
    reads f.outer, v
  {
    if v.func == f.outer then Desc(v.slot, true, v.readOnly) else Desc(f.outer.upvals[v], false, v.readOnly)
  }

  function With(m: map<Local, nat>, v: Local): map<Local, nat> {
    if v in m then m else m[v := |m|]
  }

  /** The enclosing functions recorded in `outers` are the ones found through `outer`. */
  ghost predicate Nested(f: Func)
    decreases |f.outers|
  {
    if f.outer == null then f.outers == []
    else f.outers != [] && f.outers[0] == f.outer && f.outer.outers == f.outers[1..] && Nested(f.outer)
  }

  /** Resolving `v` in `f` concerns `g`: `g` lies between `f` and the function that declares `v`. */
  ghost predicate Takes(f: Func, g: Func, v: Local, recursive: bool) {
    && v.func != f
    && (if recursive then v.func in f.outers ==> v.func in g.outers else g == f)
  }

  /** Upvalue numbers run from 0 without gaps. */
  ghost predicate Dense(m: map<Local, nat>) {
    && (forall v :: v in m ==> m[v] < |m|)
    && (forall v, w {:trigger m[v], m[w]} :: v in m && w in m && m[v] == m[w] ==> v == w)
  }

  /** An upvalue that the enclosing function does not declare is an upvalue there, too. */
  ghost predicate Closed(f: Func)
    reads f, f.outer
  {
    forall v :: v in f.upvals ==> v.func != f && (f.outer != null && f.outer != v.func ==> v in f.outer.upvals)
  }

  ghost predicate ClosedChain(f: Func)
    reads f.Chain()
    requires Nested(f)
    decreases |f.outers|
  {
    Closed(f) && (f.outer != null ==> ClosedChain(f.outer))
  }

  lemma {:induction false} OutersShrink(f: Func)
    requires Nested(f)
    ensures forall g :: g in f.outers ==> |g.outers| < |f.outers| && Nested(g)
    decreases |f.outers|
  {
    if f.outer != null {
      OutersShrink(f.outer);
      assert forall g :: g in f.outers ==> g == f.outer || g in f.outer.outers;
    }
  }

  /** How a resolution in `f` relates to one in the enclosing function. */
  lemma ChainStep(f: Func, v: Local)
    requires Nested(f) && v.func != f
    ensures f !in f.outers && Takes(f, f, v, true)
    ensures f.outer == null ==> f.Chain() == {f}
    ensures f.outer != null ==> f.Chain() == {f} + f.outer.Chain() && f !in f.outer.Chain()
    ensures f.outer != null && f.outer == v.func ==> forall g :: g in f.outer.Chain() ==> !Takes(f, g, v, true)
    ensures f.outer != null && f.outer != v.func ==>
              forall g :: g in f.outer.Chain() ==> (Takes(f, g, v, true) <==> Takes(f.outer, g, v, true))
  {
    OutersShrink(f);
    if f.outer != null {
      assert forall g :: g in f.outers <==> g == f.outer || g in f.outer.outers;
      OutersShrink(f.outer);
      if f.outer == v.func {
        assert v.func in f.outers;
        forall g | g in f.outer.Chain()
          ensures v.func !in g.outers
        {
          if v.func in g.outers {
            OutersShrink(g);
          }
        }
      }
    }
  }

  lemma {:induction false} AlreadyLinked(f: Func, v: Local)
    requires Nested(f) && ClosedChain(f) && v in f.upvals
    ensures forall g :: g in f.Chain() && Takes(f, g, v, true) ==> v in g.upvals
    decreases |f.outers|
  {
    ChainStep(f, v);
    if f.outer != null && f.outer != v.func {
      AlreadyLinked(f.outer, v);
    }
  }
}
