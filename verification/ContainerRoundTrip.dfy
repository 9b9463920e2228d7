/** Reading a written tree of prototypes rebuilds the tree, whatever prototypes were on the stack before. */
module ContainerRoundTrip {
  import opened Basics
  import opened Uleb
  import opened Constants
  import opened DebugInfo
  import opened Container

  // ---------------------------------------------------------------- the rebuilt tree

  function Size(p: Proto): (n: nat)
    ensures n > 0
    decreases p, 1
  {
    SizeAll(p.consts) + 1
  }

  function SizeOf(c: Const): nat
    decreases c, 0
  {
    if c.CChild? then Size(c.proto) else 0
  }

  function SizeAll(l: seq<Const>): nat
    decreases l, 2
  {
    if l == [] then 0 else SizeAll(l[1..]) + SizeOf(l[0])
  }

  function ItemOf(c: Const, root: int, narrow: Narrow): Item {
    match c
    case CStr(str) => IStr(str)
    case CTab(table) => ITab(LoadedTable(NarrowedTable(table, narrow)))
    case CChild(_) => if root >= 0 then IChild(root) else Nothing
  }

  /** The constants of a prototype whose nested ones are numbered from `base` on, those of the last constant first. */
  function Items(l: seq<Const>, base: nat, narrow: Narrow): (r: seq<Item>)
    ensures |r| == |l|
  {
    if l == [] then [] else [ItemOf(l[0], base + SizeAll(l) - 1, narrow)] + Items(l[1..], base, narrow)
  }

  function DebugOf(p: Proto, m: Mode): Debug {
    if m.stripped then Debug(0, 0, [], [], []) else p.debug
  }

  function FuncOf(p: Proto, base: nat, outer: Option<nat>, m: Mode): Func {
    Func(base + SizeAll(p.consts), FlagsOf(p), p.numparams, p.framesize, p.code, p.upvals,
         Items(p.consts, base, m.narrow), NarrowedAll(p.nums, m.narrow), DebugOf(p, m), outer)
  }

  /** The prototypes of a tree in the order of their numbers, which starts at `base` and ends with the root. */
  function Flat(p: Proto, base: nat, outer: Option<nat>, m: Mode): (r: seq<Func>)
    ensures |r| == Size(p)
    decreases p, 1
  {
    FlatAll(p.consts, base, Some(base + SizeAll(p.consts)), m) + [FuncOf(p, base, outer, m)]
  }

  function FlatOf(c: Const, base: nat, outer: Option<nat>, m: Mode): (r: seq<Func>)
    ensures |r| == SizeOf(c)
    decreases c, 0
  {
    if c.CChild? then Flat(c.proto, base, outer, m) else []
  }

  function FlatAll(l: seq<Const>, base: nat, outer: Option<nat>, m: Mode): (r: seq<Func>)
    ensures |r| == SizeAll(l)
    decreases l, 2
  {
    if l == [] then [] else FlatAll(l[1..], base, outer, m) + FlatOf(l[0], base + SizeAll(l[1..]), outer, m)
  }

  /** The numbers of the nested roots, as they lie on the stack. */
  function Roots(l: seq<Const>, base: nat): seq<nat> {
    if l == [] then []
    else Roots(l[1..], base) + if l[0].CChild? then [base + SizeAll(l[1..]) + (Size(l[0].proto) - 1)] else []
  }

  ghost function After(r: Reader, p: Proto, m: Mode): Reader {
    Reader(r.funcs + Flat(p, |r.funcs|, None, m), r.fstack + [|r.funcs| + SizeAll(p.consts)])
  }

  ghost function AfterNested(r: Reader, l: seq<Const>, m: Mode): Reader {
    Reader(r.funcs + FlatAll(l, |r.funcs|, None, m), r.fstack + Roots(l, |r.funcs|))
  }

  // ---------------------------------------------------------------- constants find their prototypes

  /** Only the outer link of the last prototype depends on the enclosing function. */
  lemma FlatLinked(p: Proto, base: nat, id: nat, m: Mode)
    ensures var none, some := Flat(p, base, None, m), Flat(p, base, Some(id), m);
            some == none[Size(p) - 1 := none[Size(p) - 1].(outer := Some(id))] && none[Size(p) - 1].outer == None
  {
  }

  lemma NarrowedFits(t: Table, narrow: Narrow)
    requires FitTable(t)
    ensures FitTable(NarrowedTable(t, narrow))
  {
    NarrowedValsFit(t.arr, narrow);
    NarrowedPairsFit(t.hash, narrow);
  }

  lemma {:induction false} NarrowedValsFit(l: seq<KVal>, narrow: Narrow)
    requires forall v :: v in l ==> FitVal(v)
    ensures forall v :: v in NarrowedVals(l, narrow) ==> FitVal(v)
  {
    if l != [] {
      NarrowedValsFit(l[1..], narrow);
    }
  }

  lemma {:induction false} NarrowedPairsFit(l: seq<(KVal, KVal)>, narrow: Narrow)
    requires forall e :: e in l ==> FitVal(e.0) && FitVal(e.1)
    ensures forall e :: e in NarrowedPairs(l, narrow) ==> FitVal(e.0) && FitVal(e.1)
  {
    if l != [] {
      assert l[0] in l;
      NarrowedPairsFit(l[1..], narrow);
    }
  }

  lemma PlainItem(c: Const, narrow: Narrow, r: Reader, id: nat, rest: seq<byte>)
    requires FitConst(c) && !c.CChild? && Sound(r)
    ensures DecItem(r, id, EncConst(c, narrow) + rest) == (ItemOf(c, -1, narrow), r, rest)
  {
    hide Enc, DecWord, EncTable, DecTable, NarrowedTable, FitTable;
    match c {
      case CStr(str) => {
        assert EncConst(c, narrow) + rest == Enc(KGC_STR + |str|) + (str + rest);
        WordRoundTrip(KGC_STR + |str|, str + rest);
        CutApart(str, rest);
      }
      case CTab(table) => {
        var t := NarrowedTable(table, narrow);
        assert EncConst(c, narrow) + rest == Enc(KGC_TAB) + (EncTable(t) + rest);
        WordRoundTrip(KGC_TAB, EncTable(t) + rest);
        NarrowedFits(table, narrow);
        TableRoundTrip(t, rest);
      }
    }
  }

  /** A reference takes the last of the nested prototypes still on the stack. */
  lemma ChildItem(c: Const, narrow: Narrow, r: Reader, id: nat, rest: seq<byte>)
    requires c.CChild? && Sound(r)
    ensures var (item, r1) := TakeChild(r, id); DecItem(r, id, EncConst(c, narrow) + rest) == (item, r1, rest)
  {
    hide Enc, DecWord, TakeChild;
    WordRoundTrip(KGC_CHILD, rest);
  }

  /** The reader's state while the constants `l` of prototype `id` are still to be read: `g` are the prototypes
      before its nested ones, `t` those of the constants already read. */
  ghost function Midway(g: seq<Func>, l: seq<Const>, outer: Option<nat>, t: seq<Func>, stack: seq<nat>,
          m: Mode): Reader {
    Reader(g + FlatAll(l, |g|, outer, m) + t, stack)
  }

  lemma {:induction false} RootsInRange(l: seq<Const>, base: nat)
    ensures forall i :: 0 <= i < |Roots(l, base)| ==> Roots(l, base)[i] < base + SizeAll(l)
  {
    if l != [] {
      RootsInRange(l[1..], base);
    }
  }

  lemma MidwaySound(g: seq<Func>, l: seq<Const>, outer: Option<nat>, t: seq<Func>, stack: seq<nat>, m: Mode)
    requires forall i :: 0 <= i < |stack| ==> stack[i] < |g|
    ensures Sound(Midway(g, l, outer, t, stack + Roots(l, |g|), m))
  {
    RootsInRange(l, |g|);
  }

  lemma TakesItsChild(g: seq<Func>, l: seq<Const>, id: nat, t: seq<Func>, stack: seq<nat>, m: Mode)
    requires l != [] && l[0].CChild?
    requires forall i :: 0 <= i < |stack| ==> stack[i] < |g|
    ensures Sound(Midway(g, l, None, t, stack + Roots(l, |g|), m))
    ensures var b := |g| + SizeAll(l[1..]);
            TakeChild(Midway(g, l, None, t, stack + Roots(l, |g|), m), id)
            == (IChild(|g| + SizeAll(l) - 1),
                Midway(g, l[1..], None, Flat(l[0].proto, b, Some(id), m) + t, stack + Roots(l[1..], |g|), m))
  {
    hide Flat, TakeChild, Roots;
    MidwaySound(g, l, None, t, stack, m);
    var b, p := |g| + SizeAll(l[1..]), l[0].proto;
    var r := Midway(g, l, None, t, stack + Roots(l, |g|), m);
    var front, none, some := g + FlatAll(l[1..], |g|, None, m), Flat(p, b, None, m), Flat(p, b, Some(id), m);
    FlatLinked(p, b, id, m);
    assert FlatAll(l, |g|, None, m) == FlatAll(l[1..], |g|, None, m) + none;
    assert r.funcs == front + (none + t);
    assert r.fstack == (stack + Roots(l[1..], |g|)) + [b + (Size(p) - 1)] by { RootsStep(l, |g|, stack); }
    ReplaceInside(front, none, t, Size(p) - 1, some[Size(p) - 1]);
    TakeTop(r, stack + Roots(l[1..], |g|), b + (Size(p) - 1), id);
    assert front + some + t == front + (some + t);
  }

  lemma RootsStep(l: seq<Const>, base: nat, stack: seq<nat>)
    requires l != [] && l[0].CChild?
    ensures stack + Roots(l, base) == stack + Roots(l[1..], base) + [base + SizeAll(l[1..]) + (Size(l[0].proto) - 1)]
  {
  }

  lemma ReplaceInside(front: seq<Func>, part: seq<Func>, t: seq<Func>, k: nat, f: Func)
    requires k < |part|
    ensures (front + (part + t))[|front| + k] == part[k]
    ensures (front + (part + t))[|front| + k := f] == front + part[k := f] + t
  {
  }

  lemma TakeTop(r: Reader, stack: seq<nat>, top: nat, id: nat)
    requires Sound(r) && r.fstack == stack + [top] && top < |r.funcs| && r.funcs[top].outer == None
    ensures TakeChild(r, id) == (IChild(top), Reader(r.funcs[top := r.funcs[top].(outer := Some(id))], stack))
  {
  }

  /** Reading the constants of a prototype links exactly its own nested prototypes to it. */
  lemma {:induction false} ItemsRoundTrip(g: seq<Func>, l: seq<Const>, id: nat, t: seq<Func>, stack: seq<nat>, m: Mode,
                                          rest: seq<byte>)
    requires forall c :: c in l ==> FitConst(c)
    requires forall i :: 0 <= i < |stack| ==> stack[i] < |g|
    ensures Sound(Midway(g, l, None, t, stack + Roots(l, |g|), m))
    ensures DecItems(|l|, Midway(g, l, None, t, stack + Roots(l, |g|), m), id, EncConsts(l, m.narrow) + rest)
            == (Items(l, |g|, m.narrow), Midway(g, l, Some(id), t, stack, m), rest)
    decreases |l|
  {
    hide EncConst, DecItem, TakeChild, ItemOf, FitConst, Flat, FlatAll, Roots, Midway, SizeAll;
    MidwaySound(g, l, None, t, stack, m);
    if l == [] {
      assert EncConsts(l, m.narrow) + rest == rest;
      NothingLeft(g, id, t, stack, m);
    } else {
      var c, tail := l[0], EncConsts(l[1..], m.narrow) + rest;
      assert EncConsts(l, m.narrow) + rest == EncConst(c, m.narrow) + tail;
      assert c in l;
      var t1 := FlatOf(c, |g| + SizeAll(l[1..]), Some(id), m) + t;
      var r := Midway(g, l, None, t, stack + Roots(l, |g|), m);
      ItemsRoundTrip(g, l[1..], id, t1, stack, m, rest);
      var r1 := Midway(g, l[1..], None, t1, stack + Roots(l[1..], |g|), m);
      if c.CChild? {
        ChildItem(c, m.narrow, r, id, tail);
        TakesItsChild(g, l, id, t, stack, m);
      } else {
        PlainItem(c, m.narrow, r, id, tail);
        PlainStays(g, l, id, t, stack, m);
      }
      ItemAt(c, |g| + SizeAll(l) - 1, m.narrow);
      assert DecItem(r, id, EncConst(c, m.narrow) + tail) == (ItemOf(c, |g| + SizeAll(l) - 1, m.narrow), r1, tail);
      LinkedStep(g, l, id, t, stack, m);
    }
  }

  lemma NothingLeft(g: seq<Func>, id: nat, t: seq<Func>, stack: seq<nat>, m: Mode)
    ensures Midway(g, [], None, t, stack + Roots([], |g|), m) == Midway(g, [], Some(id), t, stack, m)
  {
    assert stack + Roots([], |g|) == stack;
  }

  lemma LinkedStep(g: seq<Func>, l: seq<Const>, id: nat, t: seq<Func>, stack: seq<nat>, m: Mode)
    requires l != []
    ensures var t1 := FlatOf(l[0], |g| + SizeAll(l[1..]), Some(id), m) + t;
            Midway(g, l[1..], Some(id), t1, stack, m) == Midway(g, l, Some(id), t, stack, m)
  {
    hide FlatOf;
    var f := FlatOf(l[0], |g| + SizeAll(l[1..]), Some(id), m);
    var front := FlatAll(l[1..], |g|, Some(id), m);
    assert g + front + (f + t) == g + (front + f) + t;
  }

  lemma ItemAt(c: Const, root: int, narrow: Narrow)
    ensures !c.CChild? ==> ItemOf(c, -1, narrow) == ItemOf(c, root, narrow)
    ensures c.CChild? && root >= 0 ==> ItemOf(c, root, narrow) == IChild(root)
  {
  }

  lemma PlainStays(g: seq<Func>, l: seq<Const>, id: nat, t: seq<Func>, stack: seq<nat>, m: Mode)
    requires l != [] && !l[0].CChild?
    ensures var t1 := FlatOf(l[0], |g| + SizeAll(l[1..]), Some(id), m) + t;
            Midway(g, l, None, t, stack + Roots(l, |g|), m)
            == Midway(g, l[1..], None, t1, stack + Roots(l[1..], |g|), m)
  {
    assert [] + t == t && Roots(l[1..], |g|) + [] == Roots(l[1..], |g|);
    assert FlatAll(l[1..], |g|, None, m) + [] == FlatAll(l[1..], |g|, None, m);
  }

  // ---------------------------------------------------------------- one prototype

  lemma DebugSectionRoundTrip(p: Proto, m: Mode, rest: seq<byte>)
    requires FitHere(p, m)
    ensures DecDebug(HeaderOf(p, m), DebugBytes(p, m) + rest, m.big) == (DebugOf(p, m), rest)
  {
    hide EncDebug, DecLineTable, DecNames, EncRecord, FitDebug, FlagsOf;
    if m.stripped {
      assert [] + rest == rest;
    } else {
      DebugRoundTrip(p.debug, m.big, rest);
    }
  }

  lemma BodyRoundTrip(p: Proto, r: Reader, m: Mode, rest: seq<byte>)
    requires FitHere(p, m) && Sound(r)
    ensures Sound(AfterNested(r, p.consts, m))
    ensures DecBody(HeaderOf(p, m), AfterNested(r, p.consts, m), EncBody(p, m) + rest, m.big) == (After(r, p, m), rest)
  {
    hide EncCode, EncUpvals, EncConsts, EncNums, DebugBytes, DecCode, DecUpvals, DecItems, DecNums, DecDebug, EncRecord,
      FitDebug, FlagsOf, FlatAll, Items, Roots, NarrowedAll, DebugOf, FitConst;
    var g, l, id := r.funcs, p.consts, |r.funcs| + SizeAll(p.consts);
    var s4 := DebugBytes(p, m) + rest;
    var s3 := EncNums(NarrowedAll(p.nums, m.narrow)) + s4;
    var s2 := EncConsts(l, m.narrow) + s3;
    var s1 := EncUpvals(p.upvals, m.big) + s2;
    assert EncBody(p, m) + rest == EncCode(p.code, m.big) + s1;
    CodeRoundTrip(p.code, m.big, s1);
    UpvalsRoundTrip(p.upvals, m.big, s2);
    ItemsRoundTrip(g, l, id, [], r.fstack, m, s3);
    NumsRoundTrip(NarrowedAll(p.nums, m.narrow), s4);
    DebugSectionRoundTrip(p, m, rest);
    assert Midway(g, l, None, [], r.fstack + Roots(l, |g|), m) == AfterNested(r, l, m);
    assert Midway(g, l, Some(id), [], r.fstack, m).funcs + [FuncOf(p, |g|, None, m)] == g + Flat(p, |g|, None, m);
  }

  lemma RecordRoundTrip(p: Proto, r: Reader, m: Mode, rest: seq<byte>)
    requires FitHere(p, m) && Sound(r)
    ensures Sound(AfterNested(r, p.consts, m))
    ensures DecFunction(AfterNested(r, p.consts, m), Enc(|EncRecord(p, m)|) + EncRecord(p, m) + rest, m.stripped, m.big)
            == (true, After(r, p, m), rest)
  {
    hide Enc, DecWord, EncHeader, DecHeader, EncBody, DecBody, HeaderOf, After, AfterNested, FitDebug, FitConst,
      EncRecord, DebugBytes;
    var body := EncBody(p, m) + rest;
    RecordParts(p, m, rest);
    WordRoundTrip(|EncRecord(p, m)|, EncHeader(HeaderOf(p, m), m.stripped) + body);
    HeaderRoundTrip(HeaderOf(p, m), m.stripped, body);
    BodyRoundTrip(p, r, m, rest);
  }

  lemma RecordParts(p: Proto, m: Mode, rest: seq<byte>)
    requires FitSizes(p, m)
    ensures var record := EncRecord(p, m);
            |record| > 0 && Enc(|record|) + record + rest
                            == Enc(|record|) + (EncHeader(HeaderOf(p, m), m.stripped) + (EncBody(p, m) + rest))
  {
    hide Enc, EncBody, DebugBytes, HeaderOf;
    var record := EncRecord(p, m);
    assert record + rest == EncHeader(HeaderOf(p, m), m.stripped) + (EncBody(p, m) + rest);
    assert Enc(|record|) + record + rest == Enc(|record|) + (record + rest);
  }

  // ---------------------------------------------------------------- whole trees

  lemma {:induction false} ProtoRoundTrip(p: Proto, r: Reader, m: Mode, rest: seq<byte>)
    requires Fit(p, m) && Sound(r)
    ensures Sound(After(r, p, m))
    ensures DecAll(r, EncProto(p, m) + rest, m.stripped, m.big) == DecAll(After(r, p, m), rest, m.stripped, m.big)
    decreases p, 1
  {
    hide EncRecord, FitDebug, FitConst, After, AfterNested, Enc, DecFunction, DebugBytes;
    var record := Enc(|EncRecord(p, m)|) + EncRecord(p, m);
    assert EncProto(p, m) + rest == EncNested(p.consts, m) + (record + rest);
    NestedRoundTrip(p.consts, r, m, record + rest);
    RecordRoundTrip(p, r, m, rest);
    assert |record| > 0;
  }

  lemma {:induction false} NestedRoundTrip(l: seq<Const>, r: Reader, m: Mode, rest: seq<byte>)
    requires FitAll(l, m) && Sound(r)
    ensures Sound(AfterNested(r, l, m))
    ensures DecAll(r, EncNested(l, m) + rest, m.stripped, m.big)
            == DecAll(AfterNested(r, l, m), rest, m.stripped, m.big)
    decreases l, 2
  {
    hide DecFunction, EncProto, DecAll;
    RootsInRange(l, |r.funcs|);
    if l == [] {
      assert [] + rest == rest && AfterNested(r, l, m) == r;
    } else {
      var r1 := AfterNested(r, l[1..], m);
      assert EncNested(l, m) + rest == EncNested(l[1..], m) + (EncChild(l[0], m) + rest);
      NestedRoundTrip(l[1..], r, m, EncChild(l[0], m) + rest);
      ChildRoundTrip(l[0], r1, m, rest);
      NestedStep(r, l, m);
    }
  }

  lemma {:induction false} ChildRoundTrip(c: Const, r: Reader, m: Mode, rest: seq<byte>)
    requires FitInside(c, m) && Sound(r)
    ensures c.CChild? ==> Sound(After(r, c.proto, m))
    ensures DecAll(r, EncChild(c, m) + rest, m.stripped, m.big)
            == DecAll(if c.CChild? then After(r, c.proto, m) else r, rest, m.stripped, m.big)
    decreases c, 0
  {
    hide DecAll, After, Fit, EncProto;
    if c.CChild? {
      ProtoRoundTrip(c.proto, r, m, rest);
    } else {
      assert [] + rest == rest;
    }
  }

  lemma NestedStep(r: Reader, l: seq<Const>, m: Mode)
    requires l != []
    ensures var r1 := AfterNested(r, l[1..], m);
            AfterNested(r, l, m) == if l[0].CChild? then After(r1, l[0].proto, m) else r1
  {
    hide Flat;
    var r1 := AfterNested(r, l[1..], m);
    if l[0].CChild? {
      var f := Flat(l[0].proto, |r.funcs| + SizeAll(l[1..]), None, m);
      assert |r1.funcs| == |r.funcs| + SizeAll(l[1..]);
      assert r.funcs + (FlatAll(l[1..], |r.funcs|, None, m) + f) == r1.funcs + f;
      var root := |r1.funcs| + SizeAll(l[0].proto.consts);
      assert r.fstack + (Roots(l[1..], |r.funcs|) + [root]) == r1.fstack + [root];
      assert Roots(l, |r.funcs|) == Roots(l[1..], |r.funcs|) + [root];
      assert FlatAll(l, |r.funcs|, None, m) == FlatAll(l[1..], |r.funcs|, None, m) + f;
      assert AfterNested(r, l, m) == Reader(r1.funcs + f, r1.fstack + [root]);
    } else {
      assert Roots(l, |r.funcs|) == Roots(l[1..], |r.funcs|);
      assert FlatAll(l, |r.funcs|, None, m) == FlatAll(l[1..], |r.funcs|, None, m);
    }
  }

  // ---------------------------------------------------------------- the tree that is rebuilt

  /** The two upper flags a file can hold are kept; the lowest one is set, too, if there is a nested prototype. */
  ghost predicate FlagsKept(p: Proto, flags: byte) {
    && flags < 8 && flags / 2 % 2 == p.flags / 2 % 2 && flags / 4 == p.flags / 4 % 2
    && (flags % 2 == 1 <==> p.flags % 2 == 1 || exists i :: 0 <= i < |p.consts| && p.consts[i].CChild?)
  }

  lemma {:induction false} HasChildExactly(l: seq<Const>)
    ensures HasChild(l) <==> exists i :: 0 <= i < |l| && l[i].CChild?
  {
    if l != [] && !l[0].CChild? {
      HasChildExactly(l[1..]);
      if i :| 0 <= i < |l| && l[i].CChild? {
        assert l[1..][i - 1] == l[i];
      }
    }
  }

  lemma FlagsAreKept(p: Proto)
    ensures FlagsKept(p, FlagsOf(p))
  {
    hide HasChild;
    HasChildExactly(p.consts);
    LowFlags(p.flags);
    LowestSet(p.flags % 8);
  }

  lemma LowFlags(f: byte)
    ensures var r := f % 8; r % 2 == f % 2 && r / 2 % 2 == f / 2 % 2 && r / 4 == f / 4 % 2
  {
    var q, r := f / 8, f % 8;
    assert f == 8 * q + r;
    assert f / 2 == 4 * q + r / 2;
    assert f / 4 == 2 * q + r / 4;
  }

  lemma LowestSet(r: nat)
    requires r < 8
    ensures r % 2 == 0 ==> (r + 1) % 2 == 1 && (r + 1) / 2 == r / 2 && (r + 1) / 4 == r / 4 && r < 7
  {
  }

  /** Prototype `id` has the contents of `p`, its constants lead to the nested prototypes, each of which names `id` as
      its enclosing one and has a smaller number. */
  ghost predicate Rebuilt(funcs: seq<Func>, id: nat, p: Proto, outer: Option<nat>, m: Mode)
    decreases p, 1
  {
    && id < |funcs|
    && var f := funcs[id];
    && f.id == id && f.outer == outer
    && FlagsKept(p, f.flags) && f.numparams == p.numparams && f.framesize == p.framesize
    && f.code == p.code && f.upvals == p.upvals && SameNums(p.nums, f.nums, m.narrow)
    && f.debug == (if m.stripped then Debug(0, 0, [], [], []) else p.debug)
    && RebuiltAll(funcs, id, f.consts, p.consts, m)
  }

  ghost predicate RebuiltConst(funcs: seq<Func>, id: nat, item: Item, c: Const, m: Mode)
    decreases c, 0
  {
    match c
    case CStr(str) => item == IStr(str)
    case CTab(table) => item.ITab? && SameTable(table, item.table, m.narrow)
    case CChild(p) => item.IChild? && item.id < id && Rebuilt(funcs, item.id, c.proto, Some(id), m)
  }

  ghost predicate RebuiltAll(funcs: seq<Func>, id: nat, items: seq<Item>, l: seq<Const>, m: Mode)
    decreases l, 2
  {
    && |items| == |l|
    && (l != [] ==>
          && RebuiltConst(funcs, id, items[0], l[0], m) && RebuiltAll(funcs, id, items[1..], l[1..], m)
          && (items[0].IChild? ==> ChildrenBelow(items[1..], items[0].id)))
  }

  /** Nested prototypes of later constants have smaller numbers. */
  ghost predicate ChildrenBelow(items: seq<Item>, bound: nat) {
    forall i :: 0 <= i < |items| && items[i].IChild? ==> items[i].id < bound
  }

  lemma FirstItem(l: seq<Const>, base: nat, narrow: Narrow)
    requires l != []
    ensures var items := Items(l, base, narrow);
            && items[1..] == Items(l[1..], base, narrow)
            && items[0] == ItemOf(l[0], base + SizeAll(l) - 1, narrow)
            && (items[0].IChild? ==> items[0].id >= base + SizeAll(l[1..]))
    ensures SizeAll(l) == SizeAll(l[1..]) + SizeOf(l[0])
  {
    hide Size;
  }

  lemma {:induction false} ItemsBelow(l: seq<Const>, base: nat, narrow: Narrow)
    ensures ChildrenBelow(Items(l, base, narrow), base + SizeAll(l))
  {
    hide Size;
    if l != [] {
      ItemsBelow(l[1..], base, narrow);
    }
  }

  /** `part` stands in the list from `base` on. */
  ghost predicate Holds(funcs: seq<Func>, base: nat, part: seq<Func>) {
    base + |part| <= |funcs| && funcs[base..base + |part|] == part
  }

  lemma HoldsParts(funcs: seq<Func>, base: nat, a: seq<Func>, b: seq<Func>)
    requires Holds(funcs, base, a + b)
    ensures Holds(funcs, base, a) && Holds(funcs, base + |a|, b)
  {
    var part := funcs[base..base + |a + b|];
    assert part[..|a|] == a && part[|a|..] == b;
  }

  lemma {:induction false} FlatIsRebuilt(funcs: seq<Func>, base: nat, p: Proto, outer: Option<nat>, m: Mode)
    requires Holds(funcs, base, Flat(p, base, outer, m))
    ensures Rebuilt(funcs, base + SizeAll(p.consts), p, outer, m)
    decreases p, 1
  {
    hide Items, FlatAll, FlagsOf, FlagsKept, NarrowedAll, SameNums;
    FlagsAreKept(p);
    NarrowedNums(p.nums, m.narrow);
    var id := base + SizeAll(p.consts);
    HoldsParts(funcs, base, FlatAll(p.consts, base, Some(id), m), [FuncOf(p, base, outer, m)]);
    assert funcs[id..id + 1][0] == funcs[id];
    FlatAllIsRebuilt(funcs, base, p.consts, id, m);
  }

  lemma {:induction false} FlatAllIsRebuilt(funcs: seq<Func>, base: nat, l: seq<Const>, id: nat, m: Mode)
    requires Holds(funcs, base, FlatAll(l, base, Some(id), m)) && base + SizeAll(l) <= id
    ensures RebuiltAll(funcs, id, Items(l, base, m.narrow), l, m)
    decreases l, 2
  {
    hide Flat, Holds, Items, ItemOf, RebuiltConst;
    if l != [] {
      var b := base + SizeAll(l[1..]);
      HoldsParts(funcs, base, FlatAll(l[1..], base, Some(id), m), FlatOf(l[0], b, Some(id), m));
      FlatAllIsRebuilt(funcs, base, l[1..], id, m);
      ConstIsRebuilt(funcs, b, l[0], id, m);
      ItemsBelow(l[1..], base, m.narrow);
      FirstItem(l, base, m.narrow);
    }
  }

  lemma {:induction false} ConstIsRebuilt(funcs: seq<Func>, base: nat, c: Const, id: nat, m: Mode)
    requires Holds(funcs, base, FlatOf(c, base, Some(id), m)) && base + SizeOf(c) <= id
    ensures RebuiltConst(funcs, id, ItemOf(c, base + SizeOf(c) - 1, m.narrow), c, m)
    decreases c, 0
  {
    hide Flat, Holds, Rebuilt, SameTable, LoadedTable, NarrowedTable;
    if c.CChild? {
      FlatIsRebuilt(funcs, base, c.proto, Some(id), m);
    } else if c.CTab? {
      TableComesBack(c.table, m.narrow);
    }
  }

  /** Reading back any tree from any state: the stack gains exactly the root, the prototypes read before stay as
      they are, the new ones form the tree, and reading goes on behind it. */
  lemma TreeIsReadBack(p: Proto, r: Reader, m: Mode, rest: seq<byte>)
    requires Fit(p, m) && Sound(r)
    ensures var r1 := After(r, p, m);
            && Sound(r1)
            && DecAll(r, EncProto(p, m) + rest, m.stripped, m.big) == DecAll(r1, rest, m.stripped, m.big)
            && r1.fstack == r.fstack + [|r.funcs| + Size(p) - 1]
            && |r1.funcs| == |r.funcs| + Size(p) && r1.funcs[..|r.funcs|] == r.funcs
            && Rebuilt(r1.funcs, |r.funcs| + Size(p) - 1, p, None, m)
  {
    hide Flat, EncProto, DecAll, Fit, Rebuilt, SizeAll;
    ProtoRoundTrip(p, r, m, rest);
    var base := |r.funcs|;
    var part := Flat(p, base, None, m);
    assert (r.funcs + part)[base..base + |part|] == part;
    FlatIsRebuilt(After(r, p, m).funcs, base, p, None, m);
  }

  lemma FileHeaderRoundTrip(name: seq<byte>, m: Mode, rest: seq<byte>)
    requires |name| < WORD
    ensures DecFileHeader(EncFileHeader(name, m) + rest)
            == (Some(FileHeader(m.stripped, m.big, if m.stripped then [] else name)), rest)
  {
    hide Enc, DecWord;
    var s := if m.stripped then rest else Enc(|name|) + (name + rest);
    var magic: seq<byte> := [HEAD1, HEAD2, HEAD3, VERSION];
    assert EncFileHeader(name, m) + rest == magic + ([FileFlags(m)] + s);
    CutApart(magic, [FileFlags(m)] + s);
    SmallCode(FileFlags(m), s);
    if !m.stripped {
      WordRoundTrip(|name|, name + rest);
      CutApart(name, rest);
    }
  }

  /** A written file is read to its last byte, on a host of any byte order; its only root is the last prototype. */
  lemma FileRoundTrip(name: seq<byte>, p: Proto, m: Mode)
    requires Fit(p, m) && |name| < WORD
    ensures var (file, rest) := DecFile(EncFile(name, p, m));
            && rest == [] && file.Some?
            && var (h, r) := file.value;
            && h == FileHeader(m.stripped, m.big, if m.stripped then [] else name)
            && |r.funcs| == Size(p) && r.fstack == [Size(p) - 1] && Rebuilt(r.funcs, Size(p) - 1, p, None, m)
  {
    hide EncProto, EncFileHeader, DecFileHeader, DecAll, Fit, Rebuilt, Size, After;
    var r := Reader([], []);
    assert EncFile(name, p, m) == EncFileHeader(name, m) + (EncProto(p, m) + [0]);
    FileHeaderRoundTrip(name, m, EncProto(p, m) + [0]);
    TreeIsReadBack(p, r, m, [0]);
    EndMark(After(r, p, m), m);
  }

  lemma EndMark(r: Reader, m: Mode)
    requires Sound(r)
    ensures DecAll(r, [0], m.stripped, m.big) == (r, [])
  {
    SmallCode(0, []);
    assert [0] + [] == [0];
  }

  // ---------------------------------------------------------------- one file, byte by byte

  /** A prototype with one instruction, a table `{ true, a = false }` and the number 1. */
  function SmallProto(w: u32): Proto {
    Proto(2, 0, 1, [w], [], [CTab(SmallTable())], [Int(1)], Debug(0, 0, [], [], []))
  }

  function SmallTable(): Table { Table([KTrue], [(KStr([97]), KFalse)]) }

  lemma SmallTableBytes(narrow: Narrow)
    ensures EncTable(NarrowedTable(SmallTable(), narrow)) == [2, 1, 0, 2, 6, 97, 1]
  {
    var t := SmallTable();
    assert NarrowedVals(t.arr, narrow) == [KTrue];
    assert t.hash[1..] == [] && NarrowedPairs(t.hash, narrow) == t.hash;
    SmallCode(1, []);
    SmallCode(2, []);
    SmallCode(6, []);
    hide Enc;
    assert Slots(t.arr) == [KNil, KTrue] && [KNil, KTrue][1..] == [KTrue] && [KTrue][1..] == [];
    assert EncVals([KTrue]) == [2] && EncVals([KNil, KTrue]) == [0] + [2];
    assert EncPairs(t.hash) == [6, 97] + [1] + [];
  }

  lemma SmallBody(w: u32, narrow: Narrow)
    ensures EncBody(SmallProto(w), Mode(true, false, narrow)) == Bytes4(w, false) + [1, 2, 1, 0, 2, 6, 97, 1, 2]
  {
    hide Bytes4, EncTable, NarrowedTable, SmallTable, Enc;
    var p := SmallProto(w);
    SmallTableBytes(narrow);
    SmallCode(1, []);
    SmallCode(2, []);
    assert EncCode(p.code, false) == Bytes4(w, false) + EncCode([], false) by { assert p.code[1..] == []; }
    assert EncUpvals([], false) == [];
    assert EncConsts(p.consts, narrow) == [1] + [2, 1, 0, 2, 6, 97, 1] + EncConsts([], narrow) by {
      assert p.consts[1..] == [];
    }
    assert NarrowedAll(p.nums, narrow) == [Int(1)] && [Int(1)][1..] == [];
    assert EncNums([Int(1)]) == [2] + EncNums([]);
  }

  /** The bytes of a small file: signature and version, flags of the file, length, flags, parameters, frame size and
      upvalues, the numbers of constants and instructions, the instruction, the constants, and the end mark. */
  lemma SmallFile(name: seq<byte>, w: u32, narrow: Narrow)
    ensures var (p, m) := (SmallProto(w), Mode(true, false, narrow));
            && Fit(p, m)
            && EncFile(name, p, m) == [0x1b, 0x4c, 0x4a, 1, 2, 20, 2, 0, 1, 0, 1, 1, 1] + Bytes4(w, false)
                                      + [1, 2, 1, 0, 2, 6, 97, 1, 2, 0]
  {
    hide Bytes4, EncBody, Enc, EncTable, NarrowedTable;
    var (p, m) := (SmallProto(w), Mode(true, false, narrow));
    SmallBody(w, narrow);
    SmallCode(1, []);
    SmallCode(20, []);
    assert p.consts[1..] == [] && !HasChild(p.consts);
    assert |Bytes4(w, false)| == 4;
    var h := HeaderOf(p, m);
    assert EncHeader(h, true) == [2, 0, 1, 0] + ([1] + ([1] + ([1] + [])));
    assert |EncRecord(p, m)| == 20;
    assert FitAll([], m);
    assert EncNested([], m) == [];
    assert EncNested(p.consts, m) == [] + [];
  }
}
