/** Emitted upvalue words and how they are followed: for every function of a program, the words lead from
    each upvalue to the declaring function and slot of the variable it stands for. */
module UpvalueResolution {
  import opened Upvalues

  // ---------------------------------------------------------------- 16-bit upvalue words

  const LOCAL_MASK: nat := 0x8000
  const IMMUTABLE_MASK: nat := 0x4000

  /** The word of a descriptor; the number has 14 bits. */
  function Word(d: Desc): nat {
    d.uv % IMMUTABLE_MASK + (if d.isRo then IMMUTABLE_MASK else 0) + (if d.isLocal then LOCAL_MASK else 0)
  }

  function WordNumber(w: nat): nat { w % IMMUTABLE_MASK }

  predicate WordIsLocal(w: nat) { w / LOCAL_MASK % 2 == 1 }

  predicate WordIsImmutable(w: nat) { w / IMMUTABLE_MASK % 2 == 1 }

  lemma WordRoundTrip(d: Desc)
    ensures Word(d) < 0x10000 && WordNumber(Word(d)) == d.uv % IMMUTABLE_MASK && (WordIsLocal(Word(d)) <==> d.isLocal)
    ensures WordIsImmutable(Word(d)) <==> d.isRo
  {
  }

  /** The reader's accessors, which answer 0 and false outside the list. */
  function GetUpval(words: seq<nat>, i: nat): nat {
    if i < |words| then WordNumber(words[i]) else 0
  }

  predicate IsLocalUpval(words: seq<nat>, i: nat) {
    i < |words| && WordIsLocal(words[i])
  }

  /** The function and slot that upvalue `upval` of `f` stands for; numbers pass through 8-bit values. */
  function GetFuncSlotFromUpval(f: Func, upval: nat): (nat, Func?)
    requires Nested(f)
    reads f.Chain()
    decreases |f.outers|
  {
    if f.outer == null then (0, null)
    else if IsLocalUpval(f.emitted, upval) then (GetUpval(f.emitted, upval) % 256, f.outer)
    else GetFuncSlotFromUpval(f.outer, GetUpval(f.emitted, upval) % 256)
  }

  /** The number of functions left on the way. */
  ghost function Hops(f: Func, upval: nat): nat
    requires Nested(f)
    reads f.Chain()
    decreases |f.outers|
  {
    if f.outer == null then 0
    else if IsLocalUpval(f.emitted, upval) then 1
    else 1 + Hops(f.outer, GetUpval(f.emitted, upval) % 256)
  }

  // ---------------------------------------------------------------- emitted functions

  ghost predicate Grown(m0: map<Local, nat>, m1: map<Local, nat>) {
    forall v :: v in m0 ==> v in m1 && m0[v] == m1[v]
  }

  /** `words` describe the upvalues `own` of a function whose enclosing function is `outer`. */
  ghost predicate Describes(words: seq<nat>, own: map<Local, nat>, outer: Func?, outerOwn: map<Local, nat>) {
    forall v :: v in own ==> own[v] < |words| && DescribesOne(words[own[v]], v, outer, outerOwn)
  }

  ghost predicate DescribesOne(w: nat, v: Local, outer: Func?, outerOwn: map<Local, nat>) {
    if v.func == outer then WordIsLocal(w) && WordNumber(w) == v.slot % IMMUTABLE_MASK
    else !WordIsLocal(w) && v in outerOwn && WordNumber(w) == outerOwn[v] % IMMUTABLE_MASK
  }

  lemma DescribesGrown(words: seq<nat>, own: map<Local, nat>, outer: Func?, m0: map<Local, nat>, m1: map<Local, nat>)
    requires Describes(words, own, outer, m0) && Grown(m0, m1)
    ensures Describes(words, own, outer, m1)
  {
  }

  ghost function OuterUpvals(f: Func): map<Local, nat>
    reads f.outer
  {
    if f.outer == null then map[] else f.outer.upvals
  }

  ghost predicate Emitted(f: Func)
    reads f, f.outer
  {
    Describes(f.emitted, f.upvals, f.outer, OuterUpvals(f))
  }

  ghost predicate EmittedChain(f: Func)
    requires Nested(f)
    reads f.Chain()
    decreases |f.outers|
  {
    && Emitted(f) && |f.emitted| <= 256
    && (f.outer != null ==> EmittedChain(f.outer))
  }

  lemma HasOuter(f: Func, v: Local)
    requires Nested(f) && v.func in f.outers
    ensures f.outer != null && (v.func != f.outer ==> v.func in f.outer.outers)
  {
  }

  /** One word leads to the slot of the variable or to its number in the enclosing function. */
  lemma OneHop(f: Func, v: Local)
    requires Emitted(f) && v in f.upvals && v.slot < 256 && f.outer != null
    requires forall w :: w in f.outer.upvals ==> f.outer.upvals[w] < 256
    ensures IsLocalUpval(f.emitted, f.upvals[v]) <==> v.func == f.outer
    ensures v.func != f.outer ==> v in f.outer.upvals
    ensures GetUpval(f.emitted, f.upvals[v]) % 256 == if v.func == f.outer then v.slot else f.outer.upvals[v]
  {
    var n := GetUpval(f.emitted, f.upvals[v]);
    assert v.func == f.outer ==> n == v.slot;
    assert v.func != f.outer ==> n == f.outer.upvals[v];
  }

  /** Following the words from any upvalue ends, after exactly the nesting distance, at the function that
      declares the variable and at its slot. */
  lemma {:induction false} UpvalLeadsToDeclaration(f: Func, v: Local)
    requires Nested(f) && EmittedChain(f)
    requires v in f.upvals && v.func in f.outers && v.slot < 256
    ensures GetFuncSlotFromUpval(f, f.upvals[v]) == (v.slot, v.func)
    ensures 0 < Hops(f, f.upvals[v]) <= |f.outers| && f.outers[Hops(f, f.upvals[v]) - 1] == v.func
    decreases |f.outers|
  {
    HasOuter(f, v);
    OneHop(f, v);
    if v.func != f.outer {
      UpvalLeadsToDeclaration(f.outer, v);
    }
  }

  // ---------------------------------------------------------------- processing a program

  datatype Use = Use(v: Local, lhs: bool)

  /** A function with its nested functions and the uses of outer variables in its own statements. */
  datatype Tree = Tree(f: Func, children: seq<Tree>, uses: seq<Use>)

  ghost function Funcs(t: Tree): set<Func> {
    {t.f} + set i: nat, g | i < |t.children| && g in Funcs(t.children[i]) :: g
  }

  /** The functions of a tree are distinct and nested as the tree says, and uses name variables of enclosing
      functions. */
  ghost predicate WellNested(t: Tree) {
    && Nested(t.f)
    && (forall i :: 0 <= i < |t.uses| ==> t.uses[i].v.func in t.f.outers)
    && (forall i :: 0 <= i < |t.children| ==> WellNested(t.children[i]) && t.children[i].f.outer == t.f)
    && (forall i :: 0 <= i < |t.children| ==> Funcs(t.children[i]) !! t.f.Chain())
    && (forall i, j {:trigger Apart(t, i, j)} ::
          0 <= i < |t.children| && 0 <= j < |t.children| && i != j ==> Apart(t, i, j))
  }

  ghost predicate Apart(t: Tree, i: int, j: int)
    requires 0 <= i < |t.children| && 0 <= j < |t.children|
  {
    Funcs(t.children[i]) !! Funcs(t.children[j])
  }

  ghost predicate DenseChain(f: Func)
    reads f.Chain()
  {
    forall g :: g in f.Chain() ==> Dense(g.upvals)
  }

  ghost predicate DeclaredChain(f: Func)
    reads f.Chain()
  {
    forall g, v :: g in f.Chain() && v in g.upvals ==> v.func in g.outers
  }

  /** The state in which statements of `f` are processed. */
  ghost predicate Linked(f: Func)
    requires Nested(f)
    reads f.Chain()
  {
    ClosedChain(f) && DenseChain(f) && DeclaredChain(f)
  }

  lemma DenseWith(m: map<Local, nat>, v: Local)
    requires Dense(m)
    ensures Dense(With(m, v)) && Grown(m, With(m, v))
  {
  }

  lemma {:induction false} ClosedEverywhere(f: Func)
    requires Nested(f)
    ensures ClosedChain(f) <==> forall g :: g in f.Chain() ==> Closed(g)
    decreases |f.outers|
  {
    if f.outer != null {
      ClosedEverywhere(f.outer);
      assert forall g :: g in f.Chain() <==> g == f || g in f.outer.Chain();
    }
  }

  /** The links of `g`, below the declaring function, after `v` has been numbered along the chain of `f`. */
  ghost predicate ClosedAfter(g: Func, own: map<Local, nat>, outerOwn: map<Local, nat>) {
    forall w :: w in own ==> w.func != g && (g.outer != null && g.outer != w.func ==> w in outerOwn)
  }

  ghost function After(f: Func, g: Func, m: map<Local, nat>, v: Local): map<Local, nat> {
    if Takes(f, g, v, true) then With(m, v) else m
  }

  lemma AfterIsClosed(f: Func, g: Func, own: map<Local, nat>, outerOwn: map<Local, nat>, v: Local)
    requires Nested(f) && g in f.Chain() && v.func != f && v.func in f.outers
    requires ClosedAfter(g, own, outerOwn)
    ensures ClosedAfter(g, After(f, g, own, v), if g.outer == null then outerOwn else After(f, g.outer, outerOwn, v))
  {
    OutersShrink(f);
    NestedIn(f, g);
    OutersShrink(g);
  }

  lemma {:induction false} NestedIn(f: Func, g: Func)
    requires Nested(f) && g in f.Chain()
    ensures Nested(g) && g.Chain() <= f.Chain()
    decreases |f.outers|
  {
    if g != f {
      NestedIn(f.outer, g);
    }
  }

  /** What numbering `v` along the chain of `f` does to one function of the chain. */
  lemma NumberedIn(f: Func, g: Func, v: Local, own: map<Local, nat>, outerOwn: map<Local, nat>)
    requires Nested(f) && g in f.Chain() && v.func in f.outers && Dense(own) && ClosedAfter(g, own, outerOwn)
    requires g.upvals == After(f, g, own, v)
    requires OuterUpvals(g) == if g.outer == null then outerOwn else After(f, g.outer, outerOwn, v)
    ensures Dense(g.upvals) && Grown(own, g.upvals) && Closed(g)
    ensures forall w :: w in g.upvals ==> w in own || w.func in g.outers
  {
    OutersShrink(f);
    NestedIn(f, g);
    DenseWith(own, v);
    AfterIsClosed(f, g, own, outerOwn, v);
  }

  /** A use of an outer variable in `f`; an assignment makes the variable mutable. */
  method FetchU(f: Func, v: Local, lhs: bool)
    requires Nested(f) && Linked(f) && v.func in f.outers
    modifies f.Chain()`upvals, v`readOnly
    ensures Linked(f) && v in f.upvals
    ensures forall g :: g in f.Chain() ==> Grown(old(g.upvals), g.upvals)
    ensures v.readOnly == (old(v.readOnly) && !lhs)
  {
    hide Dense, Grown, With, Takes, ClosedChain;
    OutersShrink(f);
    ClosedEverywhere(f);
    ChainStep(f, v);
    var _ := f.ResolveUpval(v, true);
    forall g | g in f.Chain()
      ensures Dense(g.upvals) && Grown(old(g.upvals), g.upvals) && Closed(g)
      ensures forall w :: w in g.upvals ==> w.func in g.outers
    {
      NestedIn(f, g);
      assert old(Closed(g));
      NumberedIn(f, g, v, old(g.upvals), old(OuterUpvals(g)));
    }
    ClosedEverywhere(f);
    if lhs {
      v.readOnly := false;
    }
  }

  /** Appends the words of a list of descriptors to the bytecode of a function. */
  method SetUpvals(f: Func, l: seq<Desc>)
    modifies f`emitted
    ensures |f.emitted| == |old(f.emitted)| + |l| && old(f.emitted) <= f.emitted
    ensures forall i :: 0 <= i < |l| ==> f.emitted[|old(f.emitted)| + i] == Word(l[i])
  {
    for i := 0 to |l|
      invariant |f.emitted| == |old(f.emitted)| + i && old(f.emitted) <= f.emitted
      invariant forall j :: 0 <= j < i ==> f.emitted[|old(f.emitted)| + j] == Word(l[j])
    {
      f.emitted := f.emitted + [Word(l[i])];
    }
  }

  /** The words of variables that have not been assigned through an upvalue so far are marked as immutable. */
  ghost predicate Flagged(f: Func)
    reads f, f.upvals.Keys
  {
    forall v :: v in f.upvals ==>
      f.upvals[v] < |f.emitted| && (WordIsImmutable(f.emitted[f.upvals[v]]) <==> v.readOnly)
  }

  lemma WordsDescribe(f: Func, l: seq<Desc>)
    requires (f.upvals != map[] ==> f.outer != null) && Dense(f.upvals) && Closed(f)
    requires |l| == |f.upvals| == |f.emitted| && forall i :: 0 <= i < |l| ==> f.emitted[i] == Word(l[i])
    requires forall v :: v in f.upvals ==> l[f.upvals[v]] == DescOf(f, v)
    ensures Emitted(f) && Flagged(f)
  {
    forall v | v in f.upvals
      ensures DescribesOne(f.emitted[f.upvals[v]], v, f.outer, OuterUpvals(f))
      ensures WordIsImmutable(f.emitted[f.upvals[v]]) <==> v.readOnly
    {
      WordRoundTrip(l[f.upvals[v]]);
    }
  }

  /** Writes the upvalue words of a function at the end of its processing. */
  method EmitUpvals(f: Func)
    requires Nested(f) && ClosedChain(f) && Dense(f.upvals) && f.emitted == []
    requires f.upvals != map[] ==> f.outer != null
    modifies f`emitted, (if f.outer == null then {} else f.outer.Chain())`upvals
    ensures forall g :: g in f.Chain() ==> g.upvals == old(g.upvals)
    ensures Emitted(f) && Flagged(f)
  {
    assert f in f.Chain();
    var l := f.GetUpvals();
    assert f.outer != null ==> f.outer in f.Chain();
    SetUpvals(f, l);
    assert Closed(f);
    WordsDescribe(f, l);
  }

  // ---------------------------------------------------------------- the state of all functions of a program

  datatype Entry = Entry(upvals: map<Local, nat>, emitted: seq<nat>)

  type State = map<Func, Entry>

  ghost function StateOf(all: set<Func>): State
    reads all
  {
    map g | g in all :: Entry(g.upvals, g.emitted)
  }

  ghost function Outers(f: Func): set<Func> {
    set g | g in f.outers
  }

  lemma LinkedInside(f: Func)
    requires Nested(f) && f.outer != null
    ensures f.Chain() == {f} + f.outer.Chain() && Outers(f) == f.outer.Chain() && f !in f.outer.Chain()
    ensures Linked(f) ==> Linked(f.outer)
    ensures Linked(f.outer) && f.upvals == map[] ==> Linked(f)
  {
    OutersShrink(f);
    assert forall g :: g in f.outers <==> g == f.outer || g in f.outer.outers;
  }

  ghost function Captured(t: Tree): set<Local> {
    (set i: nat | i < |t.uses| :: t.uses[i].v) + set i: nat, v | i < |t.children| && v in Captured(t.children[i]) :: v
  }

  ghost predicate Same(s0: State, s1: State, fs: set<Func>) {
    forall g :: g in fs ==> g in s0 && g in s1 && s0[g] == s1[g]
  }

  ghost predicate Longer(s0: State, s1: State, fs: set<Func>) {
    forall g :: g in fs ==>
      g in s0 && g in s1 && Grown(s0[g].upvals, s1[g].upvals) && s0[g].emitted == s1[g].emitted
  }

  ghost predicate Untouched(s: State, fs: set<Func>) {
    forall g :: g in fs ==> g in s && s[g] == Entry(map[], [])
  }

  ghost predicate Written(s: State, f: Func) {
    && f in s && (f.outer != null ==> f.outer in s)
    && (forall v :: v in s[f].upvals ==> v.func in f.outers)
    && Describes(s[f].emitted, s[f].upvals, f.outer, if f.outer == null then map[] else s[f.outer].upvals)
  }

  ghost predicate Numbered(s: State, t: Tree) {
    t.f in s && forall i :: 0 <= i < |t.uses| ==> t.uses[i].v in s[t.f].upvals
  }

  /** Every use in the tree has a number in its function, and the words of every function describe its upvalues. */
  ghost predicate Done(s: State, t: Tree) {
    Written(s, t.f) && Numbered(s, t) && forall i :: 0 <= i < |t.children| ==> Done(s, t.children[i])
  }

  /** A processed tree stays correctly described while only the lists of enclosing functions grow. */
  lemma {:induction false} DoneStays(s0: State, s1: State, t: Tree)
    requires Done(s0, t) && WellNested(t) && Same(s0, s1, Funcs(t))
    requires t.f.outer != null ==> t.f.outer in s1 && Grown(s0[t.f.outer].upvals, s1[t.f.outer].upvals)
    ensures Done(s1, t)
  {
    assert t.f in Funcs(t);
    if t.f.outer != null {
      DescribesGrown(s0[t.f].emitted, s0[t.f].upvals, t.f.outer, s0[t.f.outer].upvals, s1[t.f.outer].upvals);
    }
    forall i | 0 <= i < |t.children|
      ensures Done(s1, t.children[i])
    {
      assert Funcs(t.children[i]) <= Funcs(t);
      DoneStays(s0, s1, t.children[i]);
    }
  }

  /** Between two states the lists of `grown` have grown and nothing but `free` has changed otherwise. */
  ghost predicate Changes(s0: State, s1: State, grown: set<Func>, free: set<Func>) {
    s0.Keys == s1.Keys && Longer(s0, s1, grown) && Same(s0, s1, s0.Keys - grown - free)
  }

  lemma ChangesTwice(s0: State, s1: State, s2: State, grown: set<Func>, free: set<Func>)
    requires Changes(s0, s1, grown, free) && Changes(s1, s2, grown, free)
    ensures Changes(s0, s2, grown, free)
  {
  }

  /** The state while the nested functions of `t` are processed, `n` of which are done. */
  ghost predicate Progress(s0: State, s: State, t: Tree, n: nat) {
    && Changes(s0, s, Outers(t.f), Funcs(t))
    && t.f in s && s[t.f].emitted == []
    && (forall k :: 0 <= k < n && k < |t.children| ==> Done(s, t.children[k]))
    && (forall k :: n <= k < |t.children| ==> Untouched(s, Funcs(t.children[k])))
  }

  /** Growing lists along the chain of `t.f`, and changes inside one nested function, spare the others. */
  lemma OthersSpared(s: State, s1: State, t: Tree, free: set<Func>, k: nat)
    requires WellNested(t) && k < |t.children| && Funcs(t) <= s.Keys && t.f.Chain() <= s.Keys
    requires Changes(s, s1, t.f.Chain(), free) && free !! Funcs(t.children[k])
    ensures Same(s, s1, Funcs(t.children[k]))
    ensures Done(s, t.children[k]) && t.f !in free ==> Done(s1, t.children[k])
  {
    assert Funcs(t.children[k]) <= Funcs(t);
    assert t.f in t.f.Chain();
    if Done(s, t.children[k]) && t.f !in free {
      DoneStays(s, s1, t.children[k]);
    }
  }

  lemma ProgressStep(s0: State, s: State, s1: State, t: Tree, n: nat)
    requires WellNested(t) && n < |t.children| && Funcs(t) <= s.Keys && t.f.Chain() <= s.Keys
    requires Progress(s0, s, t, n) && Done(s1, t.children[n])
    requires Changes(s, s1, t.f.Chain(), Funcs(t.children[n]))
    ensures Progress(s0, s1, t, n + 1)
  {
    assert t.f in t.f.Chain() && t.f in Funcs(t);
    ChangesInTree(s, s1, t, n);
    ChangesTwice(s0, s, s1, Outers(t.f), Funcs(t));
    forall k | 0 <= k < |t.children| && k != n
      ensures Same(s, s1, Funcs(t.children[k]))
      ensures Done(s, t.children[k]) ==> Done(s1, t.children[k])
    {
      assert Apart(t, n, k);
      OthersSpared(s, s1, t, Funcs(t.children[n]), k);
    }
    UntouchedStays(s, s1, t, n);
  }

  /** Seen from the enclosing functions of `t.f`, work on a nested function is work inside the tree. */
  lemma ChangesInTree(s: State, s1: State, t: Tree, n: nat)
    requires WellNested(t) && n < |t.children|
    requires Changes(s, s1, t.f.Chain(), Funcs(t.children[n]))
    ensures Changes(s, s1, Outers(t.f), Funcs(t))
  {
    assert t.f.Chain() == {t.f} + Outers(t.f) && t.f in Funcs(t) && Funcs(t.children[n]) <= Funcs(t);
  }

  lemma UntouchedStays(s: State, s1: State, t: Tree, n: nat)
    requires forall k :: n <= k < |t.children| ==> Untouched(s, Funcs(t.children[k]))
    requires forall k :: n < k < |t.children| ==> Same(s, s1, Funcs(t.children[k]))
    ensures forall k :: n < k < |t.children| ==> Untouched(s1, Funcs(t.children[k]))
  {
  }

  // ---------------------------------------------------------------- processing

  /** The state while the statements of `t.f` are processed, `n` uses of which are numbered. */
  ghost predicate UsesDone(all: set<Func>, s0: State, t: Tree, n: nat)
    requires Nested(t.f) && t.f.Chain() <= all
    reads all
  {
    && Linked(t.f) && Changes(s0, StateOf(all), t.f.Chain(), {})
    && forall k :: 0 <= k < n && k < |t.uses| ==> t.uses[k].v in t.f.upvals
  }

  lemma UsesStep(all: set<Func>, s0: State, s: State, t: Tree, i: nat)
    requires Nested(t.f) && t.f.Chain() <= all && i < |t.uses|
    requires Linked(t.f) && Changes(s0, s, t.f.Chain(), {}) && Changes(s, StateOf(all), t.f.Chain(), {})
    requires t.f in s && forall k :: 0 <= k < i ==> t.uses[k].v in s[t.f].upvals
    requires t.uses[i].v in t.f.upvals
    ensures UsesDone(all, s0, t, i + 1)
  {
    hide ClosedChain, DenseChain, DeclaredChain;
    assert t.f in t.f.Chain();
    ChangesTwice(s0, s, StateOf(all), t.f.Chain(), {});
    assert Grown(s[t.f].upvals, StateOf(all)[t.f].upvals);
  }

  /** Processes one use of an outer variable. */
  method ProcessUse(ghost all: set<Func>, ghost s0: State, t: Tree, i: nat)
    requires WellNested(t) && i < |t.uses| && t.f.Chain() <= all && UsesDone(all, s0, t, i)
    modifies t.f.Chain()`upvals, Captured(t)`readOnly
    ensures UsesDone(all, s0, t, i + 1)
  {
    ghost var s := StateOf(all);
    FetchU(t.f, t.uses[i].v, t.uses[i].lhs);
    assert Changes(s, StateOf(all), t.f.Chain(), {});
    UsesStep(all, s0, s, t, i);
  }

  /** Processes the uses of outer variables in the statements of a function. */
  method ProcessUses(ghost all: set<Func>, t: Tree)
    requires WellNested(t) && Linked(t.f) && t.f.Chain() <= all
    modifies t.f.Chain()`upvals, Captured(t)`readOnly
    ensures UsesDone(all, old(StateOf(all)), t, |t.uses|)
  {
    ghost var s0 := StateOf(all);
    for i := 0 to |t.uses|
      invariant UsesDone(all, s0, t, i)
    {
      ProcessUse(all, s0, t, i);
    }
  }

  /** What holds of `t` when it is processed: its functions are untouched and the enclosing ones are linked. */
  ghost predicate Ready(all: set<Func>, t: Tree)
    reads all
  {
    && WellNested(t) && Funcs(t) <= all && t.f.Chain() <= all
    && Linked(t.f) && Funcs(t) !! Outers(t.f)
  }

  lemma ReadyChild(all: set<Func>, t: Tree, i: nat)
    requires Ready(all, t) && i < |t.children| && Untouched(StateOf(all), Funcs(t.children[i]))
    ensures Ready(all, t.children[i]) && Outers(t.children[i].f) == t.f.Chain()
  {
    var c := t.children[i];
    assert WellNested(c) && c.f.outer == t.f;
    LinkedInside(c.f);
    assert c.f in Funcs(c) && Funcs(c) <= Funcs(t);
    assert StateOf(all)[c.f] == Entry(map[], []);
  }

  /** Processes the next nested function. */
  method ProcessChild(ghost all: set<Func>, ghost s0: State, t: Tree, i: nat)
    requires Ready(all, t) && i < |t.children| && Progress(s0, StateOf(all), t, i)
    modifies all`upvals, all`emitted, Captured(t)`readOnly
    ensures Ready(all, t) && Progress(s0, StateOf(all), t, i + 1)
    decreases t, 0
  {
    ghost var s := StateOf(all);
    var c := t.children[i];
    ReadyChild(all, t, i);
    assert Captured(c) <= Captured(t);
    ProcessFunc(all, c);
    LinkedInside(c.f);
    ProgressStep(s0, s, StateOf(all), t, i);
  }

  lemma UsesKeepChildren(s0: State, s: State, s1: State, t: Tree)
    requires WellNested(t) && Funcs(t) <= s.Keys && t.f.Chain() <= s.Keys
    requires Progress(s0, s, t, |t.children|) && Changes(s, s1, t.f.Chain(), {})
    ensures Progress(s0, s1, t, |t.children|)
  {
    assert t.f in t.f.Chain() && t.f.Chain() == {t.f} + Outers(t.f) && t.f in Funcs(t);
    assert Changes(s, s1, Outers(t.f), Funcs(t));
    ChangesTwice(s0, s, s1, Outers(t.f), Funcs(t));
    forall k | 0 <= k < |t.children|
      ensures Done(s1, t.children[k])
    {
      OthersSpared(s, s1, t, {}, k);
    }
  }

  /** Writing the words of `t.f` completes the tree. */
  lemma WordsComplete(s0: State, s: State, s1: State, t: Tree)
    requires WellNested(t) && Funcs(t) <= s.Keys && t.f.Chain() <= s.Keys
    requires Progress(s0, s, t, |t.children|) && Changes(s, s1, {}, {t.f}) && Numbered(s, t)
    requires t.f !in Outers(t.f) && s1[t.f].upvals == s[t.f].upvals && Written(s1, t.f)
    ensures Done(s1, t) && Changes(s0, s1, Outers(t.f), Funcs(t))
  {
    assert t.f in t.f.Chain() && t.f in Funcs(t);
    assert Changes(s, s1, Outers(t.f), Funcs(t));
    ChangesTwice(s0, s, s1, Outers(t.f), Funcs(t));
    forall k | 0 <= k < |t.children|
      ensures Done(s1, t.children[k])
    {
      assert Funcs(t.children[k]) <= Funcs(t) && Funcs(t.children[k]) !! t.f.Chain();
      DoneStays(s, s1, t.children[k]);
    }
  }

  /** Writes the upvalue words of `t.f` after its nested functions and its statements. */
  method FinishFunc(ghost all: set<Func>, ghost s0: State, t: Tree)
    requires Ready(all, t) && Progress(s0, StateOf(all), t, |t.children|)
    modifies all`upvals, all`emitted, Captured(t)`readOnly
    ensures Ready(all, t) && Done(StateOf(all), t) && Changes(s0, StateOf(all), Outers(t.f), Funcs(t))
  {
    ghost var s := StateOf(all);
    ProcessUses(all, t);
    ghost var s1 := StateOf(all);
    UsesKeepChildren(s0, s, s1, t);
    EmitWords(all, t);
    WordsComplete(s0, s1, StateOf(all), t);
  }

  /** Processes a function: first its nested functions, then the uses in its own statements, then its upvalue
      words are written. */
  method ProcessFunc(ghost all: set<Func>, t: Tree)
    requires Ready(all, t) && Untouched(StateOf(all), Funcs(t))
    modifies all`upvals, all`emitted, Captured(t)`readOnly
    ensures Ready(all, t) && Done(StateOf(all), t)
    ensures Changes(old(StateOf(all)), StateOf(all), Outers(t.f), Funcs(t))
    decreases t, 1
  {
    ghost var s0 := StateOf(all);
    StartProgress(s0, t);
    for i := 0 to |t.children|
      invariant Ready(all, t) && Progress(s0, StateOf(all), t, i)
    {
      ProcessChild(all, s0, t, i);
    }
    FinishFunc(all, s0, t);
  }

  lemma StartProgress(s: State, t: Tree)
    requires Outers(t.f) <= s.Keys && Untouched(s, Funcs(t))
    ensures Progress(s, s, t, 0)
  {
    assert t.f in Funcs(t);
    assert forall k :: 0 <= k < |t.children| ==> Funcs(t.children[k]) <= Funcs(t);
  }

  method EmitWords(ghost all: set<Func>, t: Tree)
    requires Ready(all, t) && t.f.emitted == []
    modifies all`upvals, all`emitted
    ensures Ready(all, t) && Written(StateOf(all), t.f) && t.f.upvals == old(t.f.upvals)
    ensures Changes(old(StateOf(all)), StateOf(all), {}, {t.f})
  {
    assert t.f in t.f.Chain();
    HasOuterChain(t.f);
    EmitUpvals(t.f);
  }

  lemma HasOuterChain(f: Func)
    requires Nested(f) && Linked(f)
    ensures f.outer == null ==> f.upvals == map[]
    ensures f.outer != null ==> f.outer in f.Chain() && f.outer.Chain() <= f.Chain()
  {
    assert f in f.Chain();
    if f.outer != null {
      LinkedInside(f);
      assert f.outer in f.outers;
    }
    assert forall v :: v in f.upvals ==> v.func in f.outers;
  }

  // ---------------------------------------------------------------- whole programs

  lemma {:induction false} OuterInTree(t: Tree, g: Func)
    requires WellNested(t) && g in Funcs(t) && g != t.f
    ensures g.outer in Funcs(t)
  {
    var i: nat :| i < |t.children| && g in Funcs(t.children[i]);
    if g != t.children[i].f {
      OuterInTree(t.children[i], g);
    }
  }

  /** In a processed program, every function of the chain is written. */
  lemma {:induction false} DoneInside(s: State, t: Tree, g: Func)
    requires Done(s, t) && g in Funcs(t)
    ensures Written(s, g)
  {
    if g != t.f {
      var i: nat :| i < |t.children| && g in Funcs(t.children[i]);
      DoneInside(s, t.children[i], g);
    }
  }

  lemma {:induction false} NestedInside(t: Tree, g: Func)
    requires WellNested(t) && g in Funcs(t)
    ensures Nested(g)
  {
    if g != t.f {
      var i: nat :| i < |t.children| && g in Funcs(t.children[i]);
      NestedInside(t.children[i], g);
    }
  }

  lemma {:induction false} ChainWritten(all: set<Func>, t: Tree, g: Func)
    requires WellNested(t) && t.f.outer == null && Funcs(t) <= all && Done(StateOf(all), t) && g in Funcs(t)
    requires Nested(g) && forall h :: h in Funcs(t) ==> |h.emitted| <= 256
    ensures EmittedChain(g)
    decreases |g.outers|
  {
    DoneInside(StateOf(all), t, g);
    if g != t.f {
      OuterInTree(t, g);
      ChainWritten(all, t, g.outer);
    }
  }

  /** Once a program is processed, following the words from any upvalue of any of its functions ends, after
      exactly the nesting distance, at the declaring function and the slot of the variable. */
  lemma ProgramUpvalues(all: set<Func>, t: Tree, g: Func, v: Local)
    requires WellNested(t) && t.f.outer == null && Funcs(t) <= all && Done(StateOf(all), t)
    requires forall h :: h in Funcs(t) ==> |h.emitted| <= 256
    requires g in Funcs(t) && Nested(g) && v in g.upvals && v.slot < 256
    ensures GetFuncSlotFromUpval(g, g.upvals[v]) == (v.slot, v.func)
    ensures 0 < Hops(g, g.upvals[v]) <= |g.outers| && g.outers[Hops(g, g.upvals[v]) - 1] == v.func
  {
    DoneInside(StateOf(all), t, g);
    ChainWritten(all, t, g);
    UpvalLeadsToDeclaration(g, v);
  }

  /** Processes a whole program, starting at its outermost function. */
  method ProcessProgram(t: Tree)
    requires WellNested(t) && t.f.outer == null
    requires forall g :: g in Funcs(t) ==> g.upvals == map[] && g.emitted == []
    modifies Funcs(t)`upvals, Funcs(t)`emitted, Captured(t)`readOnly
    ensures Done(StateOf(Funcs(t)), t)
  {
    assert t.f in Funcs(t) && t.f.Chain() == {t.f};
    ProcessFunc(Funcs(t), t);
  }
}
