/** Name resolution of the Lua module analyser. The analyser keeps a tree of scopes with one name table each; the
    reference is a flat list of the declarations in force, in which the most recent one counts (section 2.6 of the
    Lua 5.1 Reference Manual). */
module Scoping {
  import opened Basics

  // ---------------------------------------------------------------- programs

  /** Expressions as far as names are concerned. */
  datatype Exp = Name(name: string, lhs: bool) | Lambda(params: seq<string>, body: seq<Stat>) | Group(parts: seq<Exp>)

  datatype Stat =
    | Assign(first: Exp, values: seq<Exp>, others: seq<Exp>)
    | CallStat(callee: Exp)
    | LocalVars(names: seq<string>, values: seq<Exp>)
    | LocalFunc(name: string, params: seq<string>, body: seq<Stat>)
    | ForStat(names: seq<string>, exps: seq<Exp>, body: seq<Stat>)
    | Compound(parts: seq<Part>)

  /** The conditions and blocks of a do, while, if or return statement. */
  datatype Part = Cond(e: Exp) | Inner(body: seq<Stat>)

  // ---------------------------------------------------------------- the reference

  /** The declarations in force: names with the numbers of their declarations. */
  type Env = seq<(string, nat)>

  function Latest(env: Env, name: string): Option<nat> {
    if env == [] then None
    else if env[|env| - 1].0 == name then Some(env[|env| - 1].1)
    else Latest(env[..|env| - 1], name)
  }

  /** A use of a name and the declaration it stands for. */
  datatype Use = Use(sym: nat, name: string, lhs: bool)

  /** What a program has made known: the number of declarations, the global ones, and the uses. */
  datatype Known = Known(next: nat, globals: map<string, nat>, uses: seq<Use>)

  /** The first use of an unknown name declares a global one and is not recorded. */
  function RefUse(name: string, lhs: bool, env: Env, k: Known): Known {
    match Latest(env, name)
    case Some(d) => k.(uses := k.uses + [Use(d, name, lhs)])
    case None =>
      if name in k.globals then k.(uses := k.uses + [Use(k.globals[name], name, lhs)])
      else k.(next := k.next + 1, globals := k.globals[name := k.next])
  }

  function RefDeclare(names: seq<string>, env: Env, k: Known): (Env, Known) {
    if names == [] then (env, k)
    else RefDeclare(names[1..], env + [(names[0], k.next)], k.(next := k.next + 1))
  }

  function RefExp(e: Exp, env: Env, k: Known): Known
    decreases e, 0
  {
    match e
    case Name(name, lhs) => RefUse(name, lhs, env, k)
    case Lambda(params, body) => RefFunc(params, body, env, k)
    case Group(parts) => RefExps(parts, env, k)
  }

  function RefExps(es: seq<Exp>, env: Env, k: Known): Known
    decreases es, 1
  {
    if es == [] then k else RefExps(es[1..], env, RefExp(es[0], env, k))
  }

  /** A function body sees the parameters; nothing it declares is in force behind it. */
  function RefFunc(params: seq<string>, body: seq<Stat>, env: Env, k: Known): Known
    decreases body, 2
  {
    var (inner, k1) := RefDeclare(params, env, k);
    RefStats(body, inner, k1)
  }

  function RefStats(ss: seq<Stat>, env: Env, k: Known): Known
    decreases ss, 1
  {
    if ss == [] then k
    else
      var (env1, k1) := RefStat(ss[0], env, k);
      RefStats(ss[1..], env1, k1)
  }

  /** Declarations come into force behind the values of a local statement, but before the body of a local function. */
  function RefStat(s: Stat, env: Env, k: Known): (Env, Known)
    decreases s, 0
  {
    match s
    case Assign(first, values, others) => (env, RefExps(others, env, RefExps(values, env, RefExp(first, env, k))))
    case CallStat(callee) => (env, RefExp(callee, env, k))
    case LocalVars(names, values) => RefDeclare(names, env, RefExps(values, env, k))
    case LocalFunc(name, params, body) =>
      var env1 := env + [(name, k.next)];
      (env1, RefFunc(params, body, env1, k.(next := k.next + 1)))
    case ForStat(names, exps, body) =>
      var (inner, k1) := RefDeclare(names, env, k);
      (env, RefStats(body, inner, RefExps(exps, env, k1)))
    case Compound(parts) => (env, RefParts(parts, env, k))
  }

  function RefParts(ps: seq<Part>, env: Env, k: Known): Known
    decreases ps, 1
  {
    if ps == [] then k else RefParts(ps[1..], env, RefPart(ps[0], env, k))
  }

  function RefPart(p: Part, env: Env, k: Known): Known
    decreases p, 0
  {
    match p
    case Cond(e) => RefExp(e, env, k)
    case Inner(body) => RefStats(body, env, k)
  }

  // ---------------------------------------------------------------- scopes

  /** A scope with its name table; scopes are known by their numbers, outer ones have smaller numbers. */
  datatype Scope = Scope(names: map<string, nat>, outer: Option<nat>)

  function Find(scopes: seq<Scope>, s: nat, name: string): Option<nat>
    decreases s
  {
    if s >= |scopes| then None
    else if name in scopes[s].names then Some(scopes[s].names[name])
    else if scopes[s].outer.Some? && scopes[s].outer.value < s then Find(scopes, scopes[s].outer.value, name)
    else None
  }

  /** The scope finds what the flat list of declarations has. */
  ghost predicate Matches(scopes: seq<Scope>, s: nat, env: Env) {
    s < |scopes| && forall name: string :: Find(scopes, s, name) == Latest(env, name)
  }

  /** Scopes may have been added, and nothing has changed in the old ones but the names of `s`. */
  ghost predicate Kept(before: seq<Scope>, now: seq<Scope>, s: nat) {
    && |before| <= |now|
    && forall i :: 0 <= i < |before| ==> now[i].outer == before[i].outer && (i != s ==> now[i] == before[i])
  }

  lemma {:induction false} FindKept(before: seq<Scope>, now: seq<Scope>, changed: nat, s: nat, name: string)
    requires Kept(before, now, changed) && s < |before| && s < changed
    ensures Find(now, s, name) == Find(before, s, name)
    decreases s
  {
    if name !in before[s].names && before[s].outer.Some? && before[s].outer.value < s {
      FindKept(before, now, changed, before[s].outer.value, name);
    }
  }

  /** Work in an inner scope does not change what an outer scope finds. */
  lemma MatchesKept(before: seq<Scope>, now: seq<Scope>, changed: nat, s: nat, env: Env)
    requires Matches(before, s, env) && Kept(before, now, changed) && s < changed
    ensures Matches(now, s, env)
  {
    forall name: string
      ensures Find(now, s, name) == Latest(env, name)
    {
      FindKept(before, now, changed, s, name);
    }
  }

  lemma NewScopeMatches(scopes: seq<Scope>, s: nat, env: Env)
    requires Matches(scopes, s, env)
    ensures Matches(scopes + [Scope(map[], Some(s))], |scopes|, env)
    ensures Kept(scopes, scopes + [Scope(map[], Some(s))], |scopes|)
  {
    var now := scopes + [Scope(map[], Some(s))];
    forall name: string
      ensures Find(now, |scopes|, name) == Latest(env, name)
    {
      FindKept(scopes, now, |scopes|, s, name);
    }
  }

  lemma DeclareMatches(scopes: seq<Scope>, s: nat, env: Env, name: string, d: nat)
    requires Matches(scopes, s, env)
    ensures var now := scopes[s := scopes[s].(names := scopes[s].names[name := d])];
            Matches(now, s, env + [(name, d)]) && Kept(scopes, now, s)
  {
    var now := scopes[s := scopes[s].(names := scopes[s].names[name := d])];
    var env1 := env + [(name, d)];
    assert env1[..|env1| - 1] == env;
    forall n: string
      ensures Find(now, s, n) == Latest(env1, n)
    {
      assert Find(scopes, s, n) == Latest(env, n);
      if n != name && n !in scopes[s].names && scopes[s].outer.Some? && scopes[s].outer.value < s {
        FindKept(scopes, now, s, scopes[s].outer.value, n);
      }
    }
  }

  lemma KeptTwice(a: seq<Scope>, b: seq<Scope>, c: seq<Scope>, s: nat, inner: nat)
    requires Kept(a, b, s) && Kept(b, c, inner) && (inner == s || inner >= |a|)
    ensures Kept(a, c, s)
  {
  }

  // ---------------------------------------------------------------- the analyser

  /** A declaration with the numbers of its uses. */
  datatype Thing = Thing(name: string, uses: seq<nat>)

  /** The uses of one declaration, in order. */
  function UsesOf(uses: seq<Use>, d: nat): (r: seq<nat>) {
    if uses == [] then []
    else
      var n := |uses| - 1;
      UsesOf(uses[..n], d) + if uses[n].sym == d then [n] else []
  }

  lemma {:induction false} UsesOfExactly(uses: seq<Use>, d: nat, i: nat)
    ensures i in UsesOf(uses, d) <==> i < |uses| && uses[i].sym == d
  {
    if uses != [] {
      UsesOfExactly(uses[..|uses| - 1], d, i);
    }
  }

  class Module {
    var scopes: seq<Scope>
    var things: seq<Thing>
    var uses: seq<Use>
    var globals: map<string, nat>

    constructor ()
      ensures Valid() && scopes == [] && State() == Known(0, map[], [])
    {
      scopes, things, uses, globals := [], [], [], map[];
    }

    ghost function State(): Known
      reads this
    {
      Known(|things|, globals, uses)
    }

    /** The list of uses of every declaration is up to date, and all references are to declarations. */
    ghost predicate Valid()
      reads this
    {
      && (forall d :: 0 <= d < |things| ==> things[d].uses == UsesOf(uses, d))
      && (forall i :: 0 <= i < |uses| ==> uses[i].sym < |things|)
      && (forall n :: n in globals ==> globals[n] < |things|)
      && (forall s :: 0 <= s < |scopes| ==> TableValid(scopes[s], |things|))
    }

    static ghost predicate TableValid(s: Scope, n: nat) {
      forall x :: x in s.names ==> s.names[x] < n
    }

    /** Scope `s` is matched by the declarations `env`. */
    ghost predicate In(s: nat, env: Env)
      reads this
    {
      Valid() && Matches(scopes, s, env)
    }

    /** Records a use of a name. */
    method UseName(name: string, lhs: bool, s: nat, ghost env: Env)
      requires In(s, env)
      modifies `things, `uses, `globals
      ensures In(s, env) && State() == RefUse(name, lhs, env, old(State()))
    {
      hide Find, TableValid;
      var decl := Find(scopes, s, name);
      if decl == None {
        if name in globals {
          decl := Some(globals[name]);
        } else {
          AddThing(name);
          globals := globals[name := |things| - 1];
        }
      } else {
        FoundIsDeclared(scopes, s, name, |things|);
      }
      if decl.Some? {
        AddUse(decl.value, name, lhs);
      }
    }

    /** A new declaration without uses. */
    method AddThing(name: string)
      requires Valid()
      modifies `things
      ensures Valid() && |things| == |old(things)| + 1
    {
      NoUses(uses, |things|);
      things := things + [Thing(name, [])];
      TablesGrow(scopes, |things| - 1);
    }

    method AddUse(d: nat, name: string, lhs: bool)
      requires Valid() && d < |things|
      modifies `things, `uses
      ensures Valid() && |things| == |old(things)| && uses == old(uses) + [Use(d, name, lhs)]
    {
      hide TableValid;
      things := things[d := things[d].(uses := things[d].uses + [|uses|])];
      uses := uses + [Use(d, name, lhs)];
      forall e | 0 <= e < |things|
        ensures things[e].uses == UsesOf(uses, e)
      {
        OneMoreUse(old(uses), Use(d, name, lhs), e);
      }
    }

    /** Declares a name in a scope. */
    method Declare(name: string, s: nat, ghost env: Env)
      requires In(s, env)
      modifies `things, `scopes
      ensures In(s, env + [(name, |old(things)|)]) && Kept(old(scopes), scopes, s)
      ensures State() == old(State()).(next := |old(things)| + 1)
    {
      hide Find, Latest;
      AddThing(name);
      DeclareMatches(scopes, s, env, name, |things| - 1);
      scopes := scopes[s := scopes[s].(names := scopes[s].names[name := |things| - 1])];
    }

    /** Opens a scope inside another one. */
    method Open(s: nat, ghost env: Env) returns (b: nat)
      requires In(s, env)
      modifies `scopes
      ensures s < b == |old(scopes)| && scopes == old(scopes) + [Scope(map[], Some(s))] && In(b, env) && In(s, env)
    {
      hide Find, Latest;
      b := |scopes|;
      NewScopeMatches(scopes, s, env);
      MatchesKept(scopes, scopes + [Scope(map[], Some(s))], b, s, env);
      scopes := scopes + [Scope(map[], Some(s))];
    }

    method Namelist(names: seq<string>, s: nat, ghost env: Env) returns (ghost env1: Env)
      requires In(s, env)
      modifies `things, `scopes
      ensures In(s, env1) && Kept(old(scopes), scopes, s) && (env1, State()) == RefDeclare(names, env, old(State()))
    {
      hide In;
      env1 := env;
      for i := 0 to |names|
        invariant In(s, env1) && Kept(old(scopes), scopes, s)
        invariant RefDeclare(names[i..], env1, State()) == RefDeclare(names, env, old(State()))
      {
        assert names[i..][1..] == names[i + 1..];
        ghost var before := scopes;
        ghost var d := |things|;
        Declare(names[i], s, env1);
        KeptTwice(old(scopes), before, scopes, s, s);
        env1 := env1 + [(names[i], d)];
      }
    }

    method Expr(e: Exp, s: nat, ghost env: Env)
      requires In(s, env)
      modifies this
      ensures In(s, env) && Kept(old(scopes), scopes, |old(scopes)|) && State() == RefExp(e, env, old(State()))
      decreases e, 0
    {
      hide In;
      match e {
        case Name(name, lhs) => UseName(name, lhs, s, env);
        case Lambda(params, body) => Funcbody(params, body, s, env);
        case Group(parts) => Explist(parts, s, env);
      }
    }

    method Explist(es: seq<Exp>, s: nat, ghost env: Env)
      requires In(s, env)
      modifies this
      ensures In(s, env) && Kept(old(scopes), scopes, |old(scopes)|) && State() == RefExps(es, env, old(State()))
      decreases es, 1
    {
      hide In, RefExp;
      for i := 0 to |es|
        invariant In(s, env) && Kept(old(scopes), scopes, |old(scopes)|)
        invariant RefExps(es[i..], env, State()) == RefExps(es, env, old(State()))
      {
        assert es[i..][1..] == es[i + 1..];
        ghost var before := scopes;
        Expr(es[i], s, env);
        KeptTwice(old(scopes), before, scopes, |old(scopes)|, |before|);
      }
    }

    /** A function body in a scope of its own, with the parameters. */
    method Funcbody(params: seq<string>, body: seq<Stat>, s: nat, ghost env: Env)
      requires In(s, env)
      modifies this
      ensures In(s, env) && Kept(old(scopes), scopes, |old(scopes)|)
      ensures State() == RefFunc(params, body, env, old(State()))
      decreases body, 2
    {
      hide RefDeclare, RefStats, Valid, Matches;
      var fun := Open(s, env);
      ghost var entered := scopes;
      ghost var inner := Namelist(params, fun, env);
      ghost var named := scopes;
      Chunk(body, fun, inner);
      KeptTwice(entered, named, scopes, fun, fun);
      MatchesKept(entered, scopes, fun, s, env);
    }

    /** The statements of a block or function in its scope. */
    method Chunk(ss: seq<Stat>, s: nat, ghost env: Env)
      requires In(s, env)
      modifies this
      ensures Valid() && Kept(old(scopes), scopes, s) && State() == RefStats(ss, env, old(State()))
      decreases ss, 1
    {
      hide RefStat, Matches, Valid;
      ghost var e := env;
      for i := 0 to |ss|
        invariant In(s, e) && Kept(old(scopes), scopes, s)
        invariant RefStats(ss[i..], e, State()) == RefStats(ss, env, old(State()))
      {
        assert ss[i..][1..] == ss[i + 1..];
        ghost var before := scopes;
        e := Statement(ss[i], s, e);
        KeptTwice(old(scopes), before, scopes, s, s);
      }
    }

    /** A block in a scope of its own. */
    method InnerBlock(body: seq<Stat>, s: nat, ghost env: Env)
      requires In(s, env)
      modifies this
      ensures In(s, env) && Kept(old(scopes), scopes, |old(scopes)|) && State() == RefStats(body, env, old(State()))
      decreases body, 2
    {
      hide RefStats, Valid, Matches;
      var b := Open(s, env);
      ghost var entered := scopes;
      Chunk(body, b, env);
      MatchesKept(entered, scopes, b, s, env);
    }

    method Statement(st: Stat, s: nat, ghost env: Env) returns (ghost env1: Env)
      requires In(s, env)
      modifies this
      ensures In(s, env1) && Kept(old(scopes), scopes, s) && (env1, State()) == RefStat(st, env, old(State()))
      decreases st, 0
    {
      hide In, RefExp, RefExps, RefDeclare, RefFunc, RefStats, RefParts;
      env1 := env;
      match st {
        case Assign(first, values, others) => {
          Expr(first, s, env);
          ghost var a := scopes;
          Explist(values, s, env);
          KeptTwice(old(scopes), a, scopes, s, |a|);
          ghost var b := scopes;
          Explist(others, s, env);
          KeptTwice(old(scopes), b, scopes, s, |b|);
        }
        case CallStat(callee) => Expr(callee, s, env);
        case LocalVars(names, values) => {
          Explist(values, s, env);
          ghost var a := scopes;
          env1 := Namelist(names, s, env);
          KeptTwice(old(scopes), a, scopes, s, s);
        }
        case LocalFunc(name, params, body) => {
          env1 := env + [(name, |things|)];
          Declare(name, s, env);
          ghost var a := scopes;
          Funcbody(params, body, s, env1);
          KeptTwice(old(scopes), a, scopes, s, |a|);
        }
        case ForStat(names, exps, body) => Forstat(st, s, env);
        case Compound(parts) => Parts(parts, s, env);
      }
    }

    /** A for statement: its names are declared in a new scope, its expressions are looked up outside of it. */
    method Forstat(st: Stat, s: nat, ghost env: Env)
      requires In(s, env) && st.ForStat?
      modifies this
      ensures In(s, env) && Kept(old(scopes), scopes, |old(scopes)|) && (env, State()) == RefStat(st, env, old(State()))
      decreases st, 0, 0
    {
      hide RefExp, RefExps, RefDeclare, RefStats, Valid, Matches;
      var b := Open(s, env);
      ghost var entered := scopes;
      ghost var inner := Namelist(st.names, b, env);
      ghost var named := scopes;
      MatchesKept(entered, named, b, s, env);
      Explist(st.exps, s, env);
      ghost var looked := scopes;
      MatchesKept(named, looked, |named|, b, inner);
      Chunk(st.body, b, inner);
      KeptTwice(entered, named, looked, b, |named|);
      KeptTwice(entered, looked, scopes, b, b);
      MatchesKept(entered, scopes, b, s, env);
    }

    method Parts(ps: seq<Part>, s: nat, ghost env: Env)
      requires In(s, env)
      modifies this
      ensures In(s, env) && Kept(old(scopes), scopes, |old(scopes)|) && State() == RefParts(ps, env, old(State()))
      decreases ps, 1
    {
      hide In, RefExp, RefStats;
      for i := 0 to |ps|
        invariant In(s, env) && Kept(old(scopes), scopes, |old(scopes)|)
        invariant RefParts(ps[i..], env, State()) == RefParts(ps, env, old(State()))
      {
        assert ps[i..][1..] == ps[i + 1..];
        assert ps decreases to ps[i];
        ghost var before := scopes;
        if ps[i].Cond? {
          Expr(ps[i].e, s, env);
        } else {
          InnerBlock(ps[i].body, s, env);
        }
        KeptTwice(old(scopes), before, scopes, |old(scopes)|, |before|);
      }
    }
  }

  /** The declaration lists a use if and only if the use points to it. */
  predicate ListsExactly(t: Thing, uses: seq<Use>, d: nat) {
    && (forall i :: i in t.uses ==> i < |uses| && uses[i].sym == d)
    && (forall i :: 0 <= i < |uses| && uses[i].sym == d ==> i in t.uses)
  }

  /** Analyses a program. Every use is resolved as the reference says, and it is listed with exactly the declaration
      it stands for. */
  method Analyze(program: seq<Stat>) returns (m: Module)
    ensures fresh(m) && m.State() == RefStats(program, [], Known(0, map[], []))
    ensures forall d :: 0 <= d < |m.things| ==> ListsExactly(m.things[d], m.uses, d)
  {
    m := new Module();
    m.scopes := [Scope(map[], None)];
    m.Chunk(program, 0, []);
    forall d | 0 <= d < |m.things|
      ensures ListsExactly(m.things[d], m.uses, d)
    {
      UsesAreListed(m.things[d], m.uses, d);
    }
  }

  lemma UsesAreListed(t: Thing, uses: seq<Use>, d: nat)
    requires t.uses == UsesOf(uses, d)
    ensures ListsExactly(t, uses, d)
  {
    hide UsesOf;
    forall i: nat
      ensures i in t.uses <==> i < |uses| && uses[i].sym == d
    {
      UsesOfExactly(uses, d, i);
    }
  }

  // ---------------------------------------------------------------- what the reference means

  predicate LastAt(env: Env, name: string, i: nat) {
    i < |env| && env[i].0 == name && forall j :: i < j < |env| ==> env[j].0 != name
  }

  /** A name stands for the last declaration of that name which is in force. */
  lemma {:induction false} LatestIsMostRecent(env: Env, name: string)
    ensures Latest(env, name) == None ==> forall i :: 0 <= i < |env| ==> env[i].0 != name
    ensures Latest(env, name).Some? ==> exists i: nat :: LastAt(env, name, i) && env[i].1 == Latest(env, name).value
  {
    if env != [] {
      var n := |env| - 1;
      if env[n].0 == name {
        assert LastAt(env, name, n);
      } else {
        LatestIsMostRecent(env[..n], name);
        if Latest(env[..n], name).Some? {
          var i: nat :| LastAt(env[..n], name, i) && env[..n][i].1 == Latest(env[..n], name).value;
          assert LastAt(env, name, i);
        }
      }
    }
  }

  // ---------------------------------------------------------------- no name is missed

  /** The names of a program with their sides of assignments, in the order in which the analyser meets them. */
  function NamesIn(e: Exp): seq<(string, bool)>
    decreases e, 0
  {
    match e
    case Name(name, lhs) => [(name, lhs)]
    case Lambda(_, body) => NamesInAll(body)
    case Group(parts) => NamesInList(parts)
  }

  function NamesInList(es: seq<Exp>): seq<(string, bool)>
    decreases es, 1
  {
    if es == [] then [] else NamesIn(es[0]) + NamesInList(es[1..])
  }

  function NamesInStat(s: Stat): seq<(string, bool)>
    decreases s, 0
  {
    match s
    case Assign(first, values, others) => NamesIn(first) + NamesInList(values) + NamesInList(others)
    case CallStat(callee) => NamesIn(callee)
    case LocalVars(_, values) => NamesInList(values)
    case LocalFunc(_, _, body) => NamesInAll(body)
    case ForStat(_, exps, body) => NamesInList(exps) + NamesInAll(body)
    case Compound(parts) => NamesInParts(parts)
  }

  function NamesInAll(ss: seq<Stat>): seq<(string, bool)>
    decreases ss, 1
  {
    if ss == [] then [] else NamesInStat(ss[0]) + NamesInAll(ss[1..])
  }

  function NamesInPart(p: Part): seq<(string, bool)>
    decreases p, 0
  {
    match p
    case Cond(e) => NamesIn(e)
    case Inner(body) => NamesInAll(body)
  }

  function NamesInParts(ps: seq<Part>): seq<(string, bool)>
    decreases ps, 1
  {
    if ps == [] then [] else NamesInPart(ps[0]) + NamesInParts(ps[1..])
  }

  /** The uses are those of the names, in order, with `missing` names left out. */
  ghost predicate UsesNames(uses: seq<Use>, names: seq<(string, bool)>, missing: nat)
    decreases |names|
  {
    if names == [] then uses == [] && missing == 0
    else
      || (uses != [] && (uses[0].name, uses[0].lhs) == names[0] && UsesNames(uses[1..], names[1..], missing))
      || (missing > 0 && UsesNames(uses, names[1..], missing - 1))
  }

  lemma {:induction false} UsesNamesJoin(a: seq<Use>, b: seq<Use>, m: seq<(string, bool)>, n: seq<(string, bool)>,
          i: nat, j: nat)
    requires UsesNames(a, m, i) && UsesNames(b, n, j)
    ensures UsesNames(a + b, m + n, i + j)
    decreases |m|
  {
    if m == [] {
      assert a + b == b && m + n == n;
    } else {
      assert (m + n)[1..] == m[1..] + n;
      if a != [] && (a[0].name, a[0].lhs) == m[0] && UsesNames(a[1..], m[1..], i) {
        UsesNamesJoin(a[1..], b, m[1..], n, i, j);
        assert (a + b)[1..] == a[1..] + b;
      } else {
        UsesNamesJoin(a, b, m[1..], n, i - 1, j);
      }
    }
  }

  /** From `k` to `k1` the names have been met: each one is recorded as a use, or declared as a new global one. */
  ghost predicate Met(k: Known, k1: Known, names: seq<(string, bool)>) {
    && k.uses <= k1.uses && |k.globals| <= |k1.globals|
    && UsesNames(k1.uses[|k.uses|..], names, |k1.globals| - |k.globals|)
  }

  lemma MetTwice(k: Known, k1: Known, k2: Known, m: seq<(string, bool)>, n: seq<(string, bool)>)
    requires Met(k, k1, m) && Met(k1, k2, n)
    ensures Met(k, k2, m + n)
  {
    hide UsesNames;
    UsesNamesJoin(k1.uses[|k.uses|..], k2.uses[|k1.uses|..], m, n, |k1.globals| - |k.globals|,
                  |k2.globals| - |k1.globals|);
    assert k2.uses[|k.uses|..] == k1.uses[|k.uses|..] + k2.uses[|k1.uses|..];
  }

  lemma NothingMet(k: Known, k1: Known)
    requires k1.uses == k.uses && k1.globals == k.globals
    ensures Met(k, k1, [])
  {
  }

  lemma UseMet(name: string, lhs: bool, env: Env, k: Known)
    ensures Met(k, RefUse(name, lhs, env, k), [(name, lhs)])
  {
    hide Latest;
    var k1 := RefUse(name, lhs, env, k);
    assert [(name, lhs)][1..] == [] && UsesNames([], [], 0);
    if k1.uses == k.uses {
      assert k1.uses[|k.uses|..] == [];
      assert |k1.globals| == |k.globals| + 1;
    } else {
      assert k1.uses[|k.uses|..][1..] == [];
    }
  }

  lemma {:induction false} ExpMet(e: Exp, env: Env, k: Known)
    ensures Met(k, RefExp(e, env, k), NamesIn(e))
    decreases e, 0
  {
    hide RefUse, Met;
    match e {
      case Name(name, lhs) => UseMet(name, lhs, env, k);
      case Lambda(params, body) => FuncMet(params, body, env, k);
      case Group(parts) => ExpsMet(parts, env, k);
    }
  }

  lemma {:induction false} ExpsMet(es: seq<Exp>, env: Env, k: Known)
    ensures Met(k, RefExps(es, env, k), NamesInList(es))
    decreases es, 1
  {
    hide RefExp, NamesIn, Met;
    if es == [] {
      NothingMet(k, k);
    } else {
      var k1 := RefExp(es[0], env, k);
      ExpMet(es[0], env, k);
      ExpsMet(es[1..], env, k1);
      MetTwice(k, k1, RefExps(es[1..], env, k1), NamesIn(es[0]), NamesInList(es[1..]));
    }
  }

  lemma {:induction false} DeclareMeets(names: seq<string>, env: Env, k: Known)
    ensures var k1 := RefDeclare(names, env, k).1;
            k1.uses == k.uses && k1.globals == k.globals && k1.next == k.next + |names|
    decreases |names|
  {
    if names != [] {
      DeclareMeets(names[1..], env + [(names[0], k.next)], k.(next := k.next + 1));
    }
  }

  lemma {:induction false} FuncMet(params: seq<string>, body: seq<Stat>, env: Env, k: Known)
    ensures Met(k, RefFunc(params, body, env, k), NamesInAll(body))
    decreases body, 2
  {
    hide RefStats, RefDeclare, NamesInAll, UsesNames;
    var (inner, k1) := RefDeclare(params, env, k);
    DeclareMeets(params, env, k);
    StatsMet(body, inner, k1);
  }

  lemma {:induction false} StatsMet(ss: seq<Stat>, env: Env, k: Known)
    ensures Met(k, RefStats(ss, env, k), NamesInAll(ss))
    decreases ss, 1
  {
    hide RefStat, NamesInStat, Met;
    if ss == [] {
      NothingMet(k, k);
    } else {
      var (env1, k1) := RefStat(ss[0], env, k);
      StatMet(ss[0], env, k);
      StatsMet(ss[1..], env1, k1);
      MetTwice(k, k1, RefStats(ss[1..], env1, k1), NamesInStat(ss[0]), NamesInAll(ss[1..]));
    }
  }

  lemma {:induction false} StatMet(s: Stat, env: Env, k: Known)
    ensures Met(k, RefStat(s, env, k).1, NamesInStat(s))
    decreases s, 0
  {
    hide RefExp, RefExps, RefStats, RefDeclare, RefFunc, RefParts, UsesNames;
    hide NamesIn, NamesInList, NamesInAll, NamesInParts;
    match s {
      case Assign(first, values, others) => {
        var k1 := RefExp(first, env, k);
        var k2 := RefExps(values, env, k1);
        ExpMet(first, env, k);
        ExpsMet(values, env, k1);
        ExpsMet(others, env, k2);
        MetTwice(k, k1, k2, NamesIn(first), NamesInList(values));
        MetTwice(k, k2, RefExps(others, env, k2), NamesIn(first) + NamesInList(values), NamesInList(others));
      }
      case CallStat(callee) => ExpMet(callee, env, k);
      case LocalVars(names, values) => {
        ExpsMet(values, env, k);
        DeclareMeets(names, env, RefExps(values, env, k));
      }
      case LocalFunc(name, params, body) =>
        FuncMet(params, body, env + [(name, k.next)], k.(next := k.next + 1));
      case ForStat(names, exps, body) => {
        var (inner, k1) := RefDeclare(names, env, k);
        var k2 := RefExps(exps, env, k1);
        DeclareMeets(names, env, k);
        ExpsMet(exps, env, k1);
        StatsMet(body, inner, k2);
        MetTwice(k1, k2, RefStats(body, inner, k2), NamesInList(exps), NamesInAll(body));
      }
      case Compound(parts) => PartsMet(parts, env, k);
    }
  }

  lemma {:induction false} PartsMet(ps: seq<Part>, env: Env, k: Known)
    ensures Met(k, RefParts(ps, env, k), NamesInParts(ps))
    decreases ps, 1
  {
    hide RefPart, NamesInPart, Met;
    if ps == [] {
      NothingMet(k, k);
    } else {
      var k1 := RefPart(ps[0], env, k);
      PartMet(ps[0], env, k);
      PartsMet(ps[1..], env, k1);
      MetTwice(k, k1, RefParts(ps[1..], env, k1), NamesInPart(ps[0]), NamesInParts(ps[1..]));
    }
  }

  lemma {:induction false} PartMet(p: Part, env: Env, k: Known)
    ensures Met(k, RefPart(p, env, k), NamesInPart(p))
    decreases p, 0
  {
    hide RefExp, RefStats, NamesIn, NamesInAll, Met;
    match p {
      case Cond(e) => ExpMet(e, env, k);
      case Inner(body) => StatsMet(body, env, k);
    }
  }

  /** In every program each name is met once and in order: it is recorded as a use, except for those that declare
      the global names. */
  lemma EveryNameIsMet(program: seq<Stat>)
    ensures var k := RefStats(program, [], Known(0, map[], []));
            UsesNames(k.uses, NamesInAll(program), |k.globals|)
  {
    hide RefStats, NamesInAll, UsesNames;
    var k := RefStats(program, [], Known(0, map[], []));
    StatsMet(program, [], Known(0, map[], []));
    assert k.uses[0..] == k.uses;
  }

  // ---------------------------------------------------------------- global declarations stay

  /** Every global name of `k` is still the same one in `k1`. */
  ghost predicate GlobalsStay(k: Known, k1: Known) {
    forall n :: n in k.globals ==> n in k1.globals && k1.globals[n] == k.globals[n]
  }

  lemma UseStays(name: string, lhs: bool, env: Env, k: Known)
    ensures GlobalsStay(k, RefUse(name, lhs, env, k))
  {
  }

  lemma {:induction false} DeclareStays(names: seq<string>, env: Env, k: Known)
    ensures RefDeclare(names, env, k).1.globals == k.globals
    decreases |names|
  {
    if names != [] {
      DeclareStays(names[1..], env + [(names[0], k.next)], k.(next := k.next + 1));
    }
  }

  lemma {:induction false} ExpStays(e: Exp, env: Env, k: Known)
    ensures GlobalsStay(k, RefExp(e, env, k))
    decreases e, 0
  {
    hide RefUse, GlobalsStay;
    match e {
      case Name(name, lhs) => UseStays(name, lhs, env, k);
      case Lambda(params, body) => FuncStays(params, body, env, k);
      case Group(parts) => ExpsStay(parts, env, k);
    }
  }

  lemma {:induction false} ExpsStay(es: seq<Exp>, env: Env, k: Known)
    ensures GlobalsStay(k, RefExps(es, env, k))
    decreases es, 1
  {
    hide RefExp;
    if es != [] {
      ExpStays(es[0], env, k);
      ExpsStay(es[1..], env, RefExp(es[0], env, k));
    }
  }

  lemma {:induction false} FuncStays(params: seq<string>, body: seq<Stat>, env: Env, k: Known)
    ensures GlobalsStay(k, RefFunc(params, body, env, k))
    decreases body, 2
  {
    hide RefStats, RefDeclare;
    DeclareStays(params, env, k);
    var (inner, k1) := RefDeclare(params, env, k);
    StatsStay(body, inner, k1);
  }

  lemma {:induction false} StatsStay(ss: seq<Stat>, env: Env, k: Known)
    ensures GlobalsStay(k, RefStats(ss, env, k))
    decreases ss, 1
  {
    hide RefStat;
    if ss != [] {
      StatStays(ss[0], env, k);
      var (env1, k1) := RefStat(ss[0], env, k);
      StatsStay(ss[1..], env1, k1);
    }
  }

  lemma {:induction false} StatStays(s: Stat, env: Env, k: Known)
    ensures GlobalsStay(k, RefStat(s, env, k).1)
    decreases s, 0
  {
    hide RefExp, RefExps, RefStats, RefDeclare, RefFunc, RefParts;
    match s {
      case Assign(first, values, others) => {
        ExpStays(first, env, k);
        ExpsStay(values, env, RefExp(first, env, k));
        ExpsStay(others, env, RefExps(values, env, RefExp(first, env, k)));
      }
      case CallStat(callee) => ExpStays(callee, env, k);
      case LocalVars(names, values) => {
        ExpsStay(values, env, k);
        DeclareStays(names, env, RefExps(values, env, k));
      }
      case LocalFunc(name, params, body) =>
        FuncStays(params, body, env + [(name, k.next)], k.(next := k.next + 1));
      case ForStat(names, exps, body) => {
        DeclareStays(names, env, k);
        var (inner, k1) := RefDeclare(names, env, k);
        ExpsStay(exps, env, k1);
        StatsStay(body, inner, RefExps(exps, env, k1));
      }
      case Compound(parts) => PartsStay(parts, env, k);
    }
  }

  lemma {:induction false} PartsStay(ps: seq<Part>, env: Env, k: Known)
    ensures GlobalsStay(k, RefParts(ps, env, k))
    decreases ps, 1
  {
    hide RefPart;
    if ps != [] {
      PartStays(ps[0], env, k);
      PartsStay(ps[1..], env, RefPart(ps[0], env, k));
    }
  }

  lemma {:induction false} PartStays(p: Part, env: Env, k: Known)
    ensures GlobalsStay(k, RefPart(p, env, k))
    decreases p, 0
  {
    hide RefExp, RefStats;
    match p {
      case Cond(e) => ExpStays(e, env, k);
      case Inner(body) => StatsStay(body, env, k);
    }
  }

  /** What a name stands for: its last declaration in force, or else the global one, if it is known. */
  function StandsFor(name: string, env: Env, k: Known): Option<nat> {
    if Latest(env, name).Some? then Latest(env, name)
    else if name in k.globals then Some(k.globals[name])
    else None
  }

  /** Declarations inside blocks, loops and function bodies never change what a later name stands for. A name that
      stood for nothing in front of the statement is global behind it, if the statement uses it globally. */
  lemma InnerDeclarationsStayInside(s: Stat, env: Env, k: Known, name: string, lhs: bool)
    requires !s.LocalVars? && !s.LocalFunc?
    ensures var k1 := RefStat(s, env, k).1;
            var uses := RefStats([s, CallStat(Name(name, lhs))], env, k).uses;
            && (StandsFor(name, env, k).Some? ==> StandsFor(name, env, k1) == StandsFor(name, env, k))
            && uses == k1.uses + if StandsFor(name, env, k1).Some? then [Use(StandsFor(name, env, k1).value, name, lhs)]
                                 else []
  {
    hide RefExps, RefParts, RefDeclare, RefFunc, RefUse, Latest;
    var use := CallStat(Name(name, lhs));
    assert [s, use][1..] == [use];
    assert RefStat(s, env, k).0 == env;
    var k1 := RefStat(s, env, k).1;
    StatStays(s, env, k);
    UseAlone(name, lhs, env, k1);
    UseRecorded(name, lhs, env, k1);
  }

  lemma UseAlone(name: string, lhs: bool, env: Env, k: Known)
    ensures RefStats([CallStat(Name(name, lhs))], env, k) == RefUse(name, lhs, env, k)
  {
    hide RefUse;
    var use := CallStat(Name(name, lhs));
    assert RefStat(use, env, k) == (env, RefExp(use.callee, env, k));
    assert [use][1..] == [];
  }

  lemma UseRecorded(name: string, lhs: bool, env: Env, k: Known)
    ensures RefUse(name, lhs, env, k).uses
            == k.uses + if StandsFor(name, env, k).Some? then [Use(StandsFor(name, env, k).value, name, lhs)] else []
  {
    hide Latest;
    assert k.uses + [] == k.uses;
  }

  // ---------------------------------------------------------------- what sees a declaration

  /** Position `i` is the last one with the name. */
  predicate LastNamed(names: seq<string>, x: string, i: nat) {
    i < |names| && names[i] == x && forall j :: i < j < |names| ==> names[j] != x
  }

  /** Of several names declared at once the last one with a name counts; names that are not declared stay. */
  lemma {:induction false} DeclaredAt(names: seq<string>, x: string, env: Env, k: Known)
    ensures forall i: nat :: LastNamed(names, x, i) ==> Latest(RefDeclare(names, env, k).0, x) == Some(k.next + i)
    ensures x !in names ==> Latest(RefDeclare(names, env, k).0, x) == Latest(env, x)
    decreases |names|
  {
    if names != [] {
      var env1, k1, tail := env + [(names[0], k.next)], k.(next := k.next + 1), names[1..];
      assert env1[..|env1| - 1] == env;
      DeclaredAt(tail, x, env1, k1);
      forall i: nat | LastNamed(names, x, i)
        ensures Latest(RefDeclare(names, env, k).0, x) == Some(k.next + i)
      {
        if i > 0 {
          assert LastNamed(tail, x, i - 1);
        } else {
          assert forall j :: 0 <= j < |tail| ==> tail[j] == names[j + 1];
        }
      }
    }
  }

  /** In the body of a function a parameter is seen; with several of a name, the last one. */
  lemma ParameterIsSeen(params: seq<string>, x: string, i: nat, lhs: bool, env: Env, k: Known)
    requires LastNamed(params, x, i)
    ensures RefFunc(params, [CallStat(Name(x, lhs))], env, k).uses == k.uses + [Use(k.next + i, x, lhs)]
  {
    hide Latest, RefUse, RefDeclare;
    var (inner, k1) := RefDeclare(params, env, k);
    DeclaredAt(params, x, env, k);
    DeclareMeets(params, env, k);
    UseAlone(x, lhs, inner, k1);
    UseRecorded(x, lhs, inner, k1);
  }

  /** A statement list of two; the second one sees what the first one leaves in force. */
  lemma ThenUse(s: Stat, x: string, lhs: bool, env: Env, k: Known)
    ensures var (env1, k1) := RefStat(s, env, k);
            RefStats([s, CallStat(Name(x, lhs))], env, k) == RefUse(x, lhs, env1, k1)
  {
    hide RefUse, RefStat;
    var use := CallStat(Name(x, lhs));
    assert [s, use][1..] == [use];
    var (env1, k1) := RefStat(s, env, k);
    UseAlone(x, lhs, env1, k1);
  }

  lemma ExpAlone(x: string, lhs: bool, env: Env, k: Known)
    ensures RefExps([Name(x, lhs)], env, k) == RefUse(x, lhs, env, k)
  {
    hide RefUse;
    assert [Name(x, lhs)][1..] == [];
    assert RefExp(Name(x, lhs), env, k) == RefUse(x, lhs, env, k);
  }

  /** A name without a declaration in force becomes global at its first use and is found there from then on. */
  lemma GlobalIsFound(x: string, lhs: bool, lhs2: bool, env: Env, k: Known)
    requires Latest(env, x) == None && x !in k.globals
    ensures var uses := RefStats([CallStat(Name(x, lhs)), CallStat(Name(x, lhs2))], env, k).uses;
            uses == k.uses + [Use(k.next, x, lhs2)]
    ensures RefUse(x, lhs, env, k).next == k.next + 1
  {
    hide Latest;
    ThenUse(CallStat(Name(x, lhs)), x, lhs2, env, k);
    assert RefExp(Name(x, lhs), env, k) == RefUse(x, lhs, env, k);
  }

  /** A function is left again: what follows it sees the outer declaration. */
  lemma ParameterIsGone(params: seq<string>, x: string, i: nat, lhs: bool, env: Env, k: Known)
    requires LastNamed(params, x, i) && Latest(env, x).Some?
    ensures var f := CallStat(Lambda(params, [CallStat(Name(x, lhs))]));
            RefStats([f, CallStat(Name(x, lhs))], env, k).uses
            == k.uses + [Use(k.next + i, x, lhs)] + [Use(Latest(env, x).value, x, lhs)]
  {
    hide Latest, RefUse, RefFunc;
    var body := [CallStat(Name(x, lhs))];
    var k1 := RefFunc(params, body, env, k);
    ParameterIsSeen(params, x, i, lhs, env, k);
    ThenUse(CallStat(Lambda(params, body)), x, lhs, env, k);
    assert RefExp(Lambda(params, body), env, k) == k1;
    UseRecorded(x, lhs, env, k1);
  }

  /** The limits of a loop see the outer declaration, its body the variable of the loop, and what follows it the outer
      declaration again. */
  lemma LoopVariableIsSeen(names: seq<string>, x: string, i: nat, lhs: bool, env: Env, k: Known)
    requires LastNamed(names, x, i) && Latest(env, x).Some?
    ensures var loop := ForStat(names, [Name(x, false)], [CallStat(Name(x, lhs))]);
            var d := Latest(env, x).value;
            RefStats([loop, CallStat(Name(x, lhs))], env, k).uses
            == k.uses + [Use(d, x, false)] + [Use(k.next + i, x, lhs)] + [Use(d, x, lhs)]
  {
    hide Latest, RefUse, RefDeclare;
    var loop := ForStat(names, [Name(x, false)], [CallStat(Name(x, lhs))]);
    var (inner, k1) := RefDeclare(names, env, k);
    var k2 := RefUse(x, false, env, k1);
    var k3 := RefUse(x, lhs, inner, k2);
    DeclaredAt(names, x, env, k);
    DeclareMeets(names, env, k);
    ExpAlone(x, false, env, k1);
    UseRecorded(x, false, env, k1);
    UseAlone(x, lhs, inner, k2);
    UseRecorded(x, lhs, inner, k2);
    assert RefStat(loop, env, k) == (env, k3);
    ThenUse(loop, x, lhs, env, k);
    UseRecorded(x, lhs, env, k3);
  }

  /** The values of a local statement see the outer declaration, and what follows it in the block the new one; the
      condition of the block and what follows it see the outer one. */
  lemma BlockIsLeft(names: seq<string>, x: string, i: nat, lhs: bool, env: Env, k: Known)
    requires LastNamed(names, x, i) && Latest(env, x).Some?
    ensures var body := [LocalVars(names, [Name(x, false)]), CallStat(Name(x, lhs))];
            var block := Compound([Cond(Name(x, false)), Inner(body)]);
            var d := Latest(env, x).value;
            RefStats([block, CallStat(Name(x, lhs))], env, k).uses
            == k.uses + [Use(d, x, false)] + [Use(d, x, false)] + [Use(k.next + i, x, lhs)] + [Use(d, x, lhs)]
  {
    hide Latest, RefUse, RefDeclare;
    var local := LocalVars(names, [Name(x, false)]);
    var body := [local, CallStat(Name(x, lhs))];
    var parts := [Cond(Name(x, false)), Inner(body)];
    var k1 := RefUse(x, false, env, k);
    var k2 := RefUse(x, false, env, k1);
    UseRecorded(x, false, env, k);
    UseRecorded(x, false, env, k1);
    UseKeepsNext(x, env, k);
    UseKeepsNext(x, env, k1);
    ExpAlone(x, false, env, k1);
    var (inner, k3) := RefDeclare(names, env, k2);
    DeclaredAt(names, x, env, k2);
    DeclareMeets(names, env, k2);
    ThenUse(local, x, lhs, env, k1);
    var k4 := RefUse(x, lhs, inner, k3);
    UseRecorded(x, lhs, inner, k3);
    assert RefStats(body, env, k1) == k4;
    assert parts[1..] == [Inner(body)] && [Inner(body)][1..] == [];
    TwoParts(parts[0], parts[1], env, k);
    assert RefPart(parts[0], env, k) == k1;
    ThenUse(Compound(parts), x, lhs, env, k);
    UseRecorded(x, lhs, env, k4);
  }

  lemma TwoParts(p: Part, q: Part, env: Env, k: Known)
    ensures RefParts([p, q], env, k) == RefPart(q, env, RefPart(p, env, k))
  {
    hide RefPart;
    assert [p, q][1..] == [q] && [q][1..] == [];
    assert RefParts([q], env, RefPart(p, env, k)) == RefPart(q, env, RefPart(p, env, k));
  }

  lemma LatestAdded(env: Env, name: string, d: nat)
    ensures Latest(env + [(name, d)], name) == Some(d)
  {
  }

  /** The initial value of a local variable sees the outer variable of the same name; what follows sees the new one. */
  lemma LocalSeesOuter(x: string, env: Env, k: Known)
    requires Latest(env, x).Some?
    ensures var (env1, k1) := RefStat(LocalVars([x], [Name(x, false)]), env, k);
            k1.uses == k.uses + [Use(Latest(env, x).value, x, false)] && Latest(env1, x) == Some(k.next)
  {
    hide Latest, RefUse;
    var value := Name(x, false);
    assert [value][1..] == [] && [x][1..] == [];
    assert RefExp(value, env, k) == RefUse(x, false, env, k);
    var k1 := RefUse(x, false, env, k);
    assert RefExps([value], env, k) == RefExps([], env, k1) == k1;
    UseRecorded(x, false, env, k);
    assert k1.next == k.next by { UseKeepsNext(x, env, k); }
    assert RefDeclare([x], env, k1).0 == RefDeclare([], env + [(x, k.next)], k1.(next := k1.next + 1)).0;
    LatestAdded(env, x, k.next);
  }

  lemma UseKeepsNext(name: string, env: Env, k: Known)
    requires Latest(env, name).Some?
    ensures RefUse(name, false, env, k).next == k.next
  {
  }

  /** The body of a local function sees the function itself, unless a parameter has its name. */
  lemma LocalFunctionSeesItself(f: string, params: seq<string>, env: Env, k: Known)
    requires f !in params
    ensures RefStat(LocalFunc(f, params, [CallStat(Name(f, false))]), env, k).1.uses
            == k.uses + [Use(k.next, f, false)]
  {
    hide Latest, RefUse, RefDeclare;
    var env1, k1 := env + [(f, k.next)], k.(next := k.next + 1);
    LatestAdded(env, f, k.next);
    OtherNames(params, f, env1, k1);
    var (inner, k2) := RefDeclare(params, env1, k1);
    UseAlone(f, false, inner, k2);
    UseRecorded(f, false, inner, k2);
    assert RefFunc(params, [CallStat(Name(f, false))], env1, k1) == RefUse(f, false, inner, k2);
  }

  lemma {:induction false} OtherNames(names: seq<string>, f: string, env: Env, k: Known)
    requires f !in names
    ensures var (env1, k1) := RefDeclare(names, env, k); Latest(env1, f) == Latest(env, f) && k1.uses == k.uses
    decreases |names|
  {
    if names != [] {
      var env1 := env + [(names[0], k.next)];
      assert env1[..|env1| - 1] == env;
      OtherNames(names[1..], f, env1, k.(next := k.next + 1));
    }
  }

  lemma {:induction false} FoundIsDeclared(scopes: seq<Scope>, s: nat, name: string, n: nat)
    requires Find(scopes, s, name).Some? && forall i :: 0 <= i < |scopes| ==> Module.TableValid(scopes[i], n)
    ensures Find(scopes, s, name).value < n
    decreases s
  {
    if name !in scopes[s].names {
      FoundIsDeclared(scopes, scopes[s].outer.value, name, n);
    }
  }

  lemma {:induction false} NoUses(uses: seq<Use>, d: nat)
    requires forall i :: 0 <= i < |uses| ==> uses[i].sym < d
    ensures UsesOf(uses, d) == []
  {
    if uses != [] {
      NoUses(uses[..|uses| - 1], d);
    }
  }

  lemma OneMoreUse(uses: seq<Use>, u: Use, d: nat)
    ensures UsesOf(uses + [u], d) == UsesOf(uses, d) + if u.sym == d then [|uses|] else []
  {
    assert (uses + [u])[..|uses|] == uses;
  }

  lemma TablesGrow(scopes: seq<Scope>, n: nat)
    requires forall s :: 0 <= s < |scopes| ==> Module.TableValid(scopes[s], n)
    ensures forall s :: 0 <= s < |scopes| ==> Module.TableValid(scopes[s], n + 1)
  {
  }
}
