/** From registered operand windows to consecutive slots: statements register windows on record variables, all
    overlaps are resolved, every surviving window is numbered, and the slot-order check accepts every
    registered window. */
module RecordSlots {
  import opened Windows
  import opened Records

  // ---------------------------------------------------------------- registering windows

  /** A statement at `pc` that needs `count` consecutive slots from position `p` of a record. */
  datatype Use = Use(p: nat, count: nat, pc: nat)

  function Touched(from: nat, upto: nat, pc: nat): (nat, nat) {
    if from == 0 && upto == 0 then (pc + 1, pc + 1)
    else if upto < pc + 1 then (from, pc + 1)
    else (from, upto)
  }

  method RegisterRange(v: Var, pc: nat)
    modifies v`from, v`upto
    ensures (v.from, v.upto) == Touched(old(v.from), old(v.upto), pc)
  {
    if v.from == 0 && v.upto == 0 {
      v.upto := pc + 1;
      v.from := pc + 1;
    } else if v.upto < pc + 1 {
      v.upto := pc + 1;
    }
  }

  ghost function Ranges(r: seq<Var>): (s: seq<(nat, nat)>)
    reads r`from, r`upto
    ensures |s| == |r| && forall i :: 0 <= i < |r| ==> s[i] == (r[i].from, r[i].upto)
  {
    if r == [] then [] else Ranges(r[..|r| - 1]) + [(r[|r| - 1].from, r[|r| - 1].upto)]
  }

  ghost function TouchedWindow(s: seq<(nat, nat)>, p: nat, count: nat, pc: nat): (t: seq<(nat, nat)>)
    ensures |t| == |s|
    ensures forall k :: 0 <= k < |s| ==> t[k] == if p <= k < p + count then Touched(s[k].0, s[k].1, pc) else s[k]
  {
    seq(|s|, k requires 0 <= k < |s| => if p <= k < p + count then Touched(s[k].0, s[k].1, pc) else s[k])
  }

  /** The number a header has after a request for `count` slots; it is kept in an 8-bit field. */
  function Raised(n: nat, count: nat): nat {
    if n < count then count % 256 else n
  }

  lemma TouchedNext(s: seq<(nat, nat)>, p: nat, count: nat, pc: nat)
    requires p + count < |s|
    ensures var t := TouchedWindow(s, p, count, pc);
            TouchedWindow(s, p, count + 1, pc) == t[p + count := Touched(t[p + count].0, t[p + count].1, pc)]
  {
  }

  lemma TouchedToTheEnd(s: seq<(nat, nat)>, p: nat, n: nat, count: nat, pc: nat)
    requires |s| <= p + n && n <= count
    ensures TouchedWindow(s, p, n, pc) == TouchedWindow(s, p, count, pc)
  {
  }

  /** The range of one variable of a record changes; the loop goes on with the variable after it. */
  method RegisterAt(x: Var, pc: nat, ghost r: seq<Var>, ghost q: nat) returns (next: Var?)
    requires Record(r) && q < |r| && r[q] == x
    modifies x`from, x`upto
    ensures var s := old(Ranges(r)); Ranges(r) == s[q := Touched(s[q].0, s[q].1, pc)]
    ensures next == if q + 1 < |r| then r[q + 1] else null
  {
    hide Ranges;
    ghost var s := Ranges(r);
    RegisterRange(x, pc);
    forall k: nat | k < |r|
      ensures Ranges(r)[k] == s[q := Touched(s[q].0, s[q].1, pc)][k]
    {
      DistinctAt(r, k, q);
      assert Ranges(r)[k] == (r[k].from, r[k].upto);
      assert k != q ==> (r[k].from, r[k].upto) == s[k];
    }
    next := x.next;
  }

  method RegisterWindow(v: Var, count: nat, pc: nat, ghost r: seq<Var>, ghost p: nat) returns (ok: bool)
    requires Record(r) && p < |r| && r[p] == v
    modifies (set x | x in r)`from, (set x | x in r)`upto
    ensures ok <==> p + count <= |r|
    ensures Ranges(r) == TouchedWindow(old(Ranges(r)), p, count, pc)
  {
    hide Ranges;
    ghost var s := Ranges(r);
    var left := count;
    var x: Var? := v;
    while left > 0
      invariant 0 <= left <= count && p + count - left <= |r|
      invariant x == if p + count - left < |r| then r[p + count - left] else null
      invariant Ranges(r) == TouchedWindow(s, p, count - left, pc)
    {
      if x == null {
        TouchedToTheEnd(s, p, count - left, count, pc);
        return false;
      }
      TouchedNext(s, p, count - left, pc);
      x := RegisterAt(x, pc, r, p + count - left);
      left := left - 1;
    }
    ok := true;
  }

  /** Registers a window; fails, after having raised the number, when the record ends too early. */
  method FetchV(v: Var, count: nat, pc: nat, ghost r: seq<Var>, ghost p: nat) returns (ok: bool)
    requires Record(r) && p < |r| && r[p] == v
    modifies (set x | x in r)`n, (set x | x in r)`from, (set x | x in r)`upto
    ensures ok <==> p + count <= |r|
    ensures Ns(r) == old(Ns(r))[p := Raised(old(v.n), count)]
    ensures Ranges(r) == TouchedWindow(old(Ranges(r)), p, count, pc)
  {
    hide Ns, Ranges;
    ghost var ns := Ns(r);
    if v.n < count {
      v.n := count % 256;
    }
    forall k: nat | k < |r|
      ensures r[k].n == ns[p := Raised(ns[p], count)][k]
    {
      DistinctAt(r, k, p);
      assert k != p ==> r[k].n == old(r[k].n) == ns[k];
    }
    ok := RegisterWindow(v, count, pc, r, p);
  }

  ghost predicate Fresh(r: seq<Var>)
    reads r
  {
    forall i :: 0 <= i < |r| ==> r[i].n == 1 && r[i].from == 0 && r[i].upto == 0 && r[i].slot == 0
  }

  /** The numbers of a record of `size` fresh variables after the statements, each in 8 bits. */
  ghost function Demand(size: nat, uses: seq<Use>): (ns: seq<nat>)
    requires forall i :: 0 <= i < |uses| ==> uses[i].p < size
    ensures |ns| == size
  {
    if uses == [] then seq(size, _ => 1)
    else
      var ns := Demand(size, uses[..|uses| - 1]);
      var u := uses[|uses| - 1];
      ns[u.p := Raised(ns[u.p], u.count)]
  }

  /** A single statement leaves the number of slots it asks for, in 8 bits, at its variable, and 1 at all others. */
  lemma OneStatement(size: nat, u: Use, k: nat)
    requires u.p < size && k < size
    ensures Demand(size, [u])[k] == if k != u.p || u.count <= 1 then 1 else u.count % 256
  {
    assert [u][..0] == [];
  }

  /** The live ranges of the variables after the statements. */
  ghost function Extents(size: nat, uses: seq<Use>): (s: seq<(nat, nat)>)
    ensures |s| == size
  {
    if uses == [] then seq(size, _ => (0, 0))
    else
      var u := uses[|uses| - 1];
      TouchedWindow(Extents(size, uses[..|uses| - 1]), u.p, u.count, u.pc)
  }

  /** The statements come in order, and each window ends inside the record and fits its 8-bit field. */
  ghost predicate InStatementOrder(uses: seq<Use>, size: nat) {
    && (forall i :: 0 <= i < |uses| ==> 0 < uses[i].count < 256 && uses[i].p + uses[i].count <= size)
    && (forall i, j :: 0 <= i < j < |uses| ==> uses[i].pc <= uses[j].pc)
  }

  /** The window is no wider than the number of its first variable, and its statement lies in the range of
      every variable in it. */
  ghost predicate Recorded(ns: seq<nat>, s: seq<(nat, nat)>, u: Use)
    requires |ns| == |s|
  {
    && 0 < u.count && u.p + u.count <= |ns|
    && u.count <= ns[u.p]
    && forall k :: u.p <= k < u.p + u.count ==> 0 < s[k].0 <= u.pc + 1 <= s[k].1
  }

  /** Numbers and ranges produced by statements up to position `last`. */
  ghost predicate Sane(ns: seq<nat>, s: seq<(nat, nat)>, last: nat) {
    && |ns| == |s| && Fitting(ns)
    && (forall k :: 0 <= k < |ns| ==> 1 <= ns[k] < 256)
    && (forall k :: 0 <= k < |s| ==> s[k] == (0, 0) || 0 < s[k].0 <= s[k].1 <= last + 1)
  }

  lemma FetchKeepsRecorded(ns: seq<nat>, s: seq<(nat, nat)>, u: Use, w: Use, last: nat)
    requires Sane(ns, s, last) && Recorded(ns, s, u) && last <= w.pc
    requires 0 < w.count < 256 && w.p + w.count <= |ns|
    ensures Recorded(ns[w.p := Raised(ns[w.p], w.count)], TouchedWindow(s, w.p, w.count, w.pc), u)
  {
  }

  lemma FetchRecords(ns: seq<nat>, s: seq<(nat, nat)>, w: Use, last: nat)
    requires Sane(ns, s, last) && last <= w.pc
    requires 0 < w.count < 256 && w.p + w.count <= |ns|
    ensures Recorded(ns[w.p := Raised(ns[w.p], w.count)], TouchedWindow(s, w.p, w.count, w.pc), w)
    ensures Sane(ns[w.p := Raised(ns[w.p], w.count)], TouchedWindow(s, w.p, w.count, w.pc), w.pc)
  {
    var ns' := ns[w.p := Raised(ns[w.p], w.count)];
    forall p: nat | Header(ns', p)
      ensures p + ns'[p] <= |ns'|
    {
      assert p != w.p ==> Header(ns, p);
      assert ns[p] > 1 ==> Header(ns, p);
    }
  }

  /** The first `n` statements are recorded. */
  ghost predicate Fetched(ns: seq<nat>, s: seq<(nat, nat)>, uses: seq<Use>, n: nat, last: nat) {
    && n <= |uses| && Sane(ns, s, last)
    && (n < |uses| ==> last <= uses[n].pc)
    && forall j :: 0 <= j < n ==> Recorded(ns, s, uses[j])
  }

  lemma FetchedNext(ns: seq<nat>, s: seq<(nat, nat)>, uses: seq<Use>, n: nat, last: nat)
    requires Fetched(ns, s, uses, n, last) && n < |uses| && InStatementOrder(uses, |ns|)
    ensures var w := uses[n];
            Fetched(ns[w.p := Raised(ns[w.p], w.count)], TouchedWindow(s, w.p, w.count, w.pc), uses, n + 1, w.pc)
  {
    var w := uses[n];
    FetchRecords(ns, s, w, last);
    forall j | 0 <= j < n
      ensures Recorded(ns[w.p := Raised(ns[w.p], w.count)], TouchedWindow(s, w.p, w.count, w.pc), uses[j])
    {
      FetchKeepsRecorded(ns, s, uses[j], w, last);
    }
  }

  /** Statements in order, whose windows end inside the record and fit the 8-bit field, are all recorded. */
  lemma {:induction false} StatementsRecorded(size: nat, uses: seq<Use>)
    requires InStatementOrder(uses, size)
    ensures forall i :: 0 <= i < |uses| ==> Recorded(Demand(size, uses), Extents(size, uses), uses[i])
  {
    var last := StatementsFetched(size, uses, |uses|);
    assert uses[..|uses|] == uses;
  }

  lemma {:induction false} StatementsFetched(size: nat, uses: seq<Use>, n: nat) returns (last: nat)
    requires InStatementOrder(uses, size) && n <= |uses|
    ensures Fetched(Demand(size, uses[..n]), Extents(size, uses[..n]), uses, n, last)
    decreases n
  {
    hide Fetched, TouchedWindow;
    if n == 0 {
      last := 0;
      NothingFetched(size, uses);
    } else {
      last := StatementsFetched(size, uses, n - 1);
      assert uses[..n][..n - 1] == uses[..n - 1];
      FetchedNext(Demand(size, uses[..n - 1]), Extents(size, uses[..n - 1]), uses, n - 1, last);
      last := uses[n - 1].pc;
    }
  }

  lemma NothingFetched(size: nat, uses: seq<Use>)
    ensures Fetched(Demand(size, uses[..0]), Extents(size, uses[..0]), uses, 0, 0)
  {
  }

  lemma NothingAsked(r: seq<Var>, uses: seq<Use>)
    requires Fresh(r)
    ensures Ns(r) == Demand(|r|, uses[..0]) && Ranges(r) == Extents(|r|, uses[..0])
  {
  }

  lemma OneMoreUse(size: nat, uses: seq<Use>, i: nat)
    requires i < |uses| && forall j :: 0 <= j < |uses| ==> uses[j].p < size
    ensures var (u, ns) := (uses[i], Demand(size, uses[..i]));
            Demand(size, uses[..i + 1]) == ns[u.p := Raised(ns[u.p], u.count)]
    ensures var u := uses[i];
            Extents(size, uses[..i + 1]) == TouchedWindow(Extents(size, uses[..i]), u.p, u.count, u.pc)
  {
    hide Raised, TouchedWindow;
    assert uses[..i + 1][..i] == uses[..i] && uses[..i + 1][i] == uses[i];
  }

  predicate Covers(u: Use, k: nat) { u.p <= k < u.p + u.count }

  /** Statement `i` is the first one with a window around variable `k`. */
  predicate FirstCover(uses: seq<Use>, k: nat, i: nat) {
    i < |uses| && Covers(uses[i], k) && forall j :: 0 <= j < i ==> !Covers(uses[j], k)
  }

  /** No statement with a window around variable `k` is later than statement `i`. */
  predicate LatestCover(uses: seq<Use>, k: nat, i: nat) {
    i < |uses| && Covers(uses[i], k)
    && forall j :: 0 <= j < |uses| && Covers(uses[j], k) ==> uses[j].pc <= uses[i].pc
  }

  ghost predicate Begins(uses: seq<Use>, k: nat, from: nat) {
    exists i: nat :: FirstCover(uses, k, i) && from == uses[i].pc + 1
  }

  ghost predicate EndsAt(uses: seq<Use>, k: nat, upto: nat) {
    exists i: nat :: LatestCover(uses, k, i) && upto == uses[i].pc + 1
  }

  /** The range of a variable without a statement is empty; any other one begins with the first of its statements and
      ends with the latest one, counted from 1. */
  lemma {:induction false} RangesAreTight(size: nat, uses: seq<Use>, k: nat)
    requires k < size
    ensures var r := Extents(size, uses)[k];
            if forall i :: 0 <= i < |uses| ==> !Covers(uses[i], k) then r == (0, 0)
            else Begins(uses, k, r.0) && EndsAt(uses, k, r.1)
    decreases |uses|
  {
    if uses != [] {
      var n := |uses| - 1;
      var before, u := uses[..n], uses[n];
      RangesAreTight(size, before, k);
      RangeGrows(before, u, k, Extents(size, before)[k]);
      assert uses == before + [u];
    }
  }

  /** What one more statement does to the range of one variable. */
  lemma RangeGrows(uses: seq<Use>, u: Use, k: nat, r: (nat, nat))
    requires if forall i :: 0 <= i < |uses| ==> !Covers(uses[i], k) then r == (0, 0)
             else Begins(uses, k, r.0) && EndsAt(uses, k, r.1)
    ensures var s := if Covers(u, k) then Touched(r.0, r.1, u.pc) else r;
            if forall i :: 0 <= i < |uses + [u]| ==> !Covers((uses + [u])[i], k) then s == (0, 0)
            else Begins(uses + [u], k, s.0) && EndsAt(uses + [u], k, s.1)
  {
    var l, n := uses + [u], |uses|;
    assert forall i :: 0 <= i < n ==> l[i] == uses[i];
    assert l[n] == u;
    if i :| 0 <= i < n && Covers(uses[i], k) {
      var first: nat :| FirstCover(uses, k, first) && r.0 == uses[first].pc + 1;
      var latest: nat :| LatestCover(uses, k, latest) && r.1 == uses[latest].pc + 1;
      assert FirstCover(l, k, first);
      if Covers(u, k) && uses[latest].pc < u.pc {
        assert LatestCover(l, k, n);
      } else {
        assert LatestCover(l, k, latest);
      }
    } else if Covers(u, k) {
      assert FirstCover(l, k, n) && LatestCover(l, k, n);
    }
  }

  /** For statements in order, the range goes from the first statement of a variable to its last one. */
  lemma RangesInOrder(size: nat, uses: seq<Use>, k: nat, first: nat, last: nat)
    requires k < size && first < |uses| && last < |uses| && Covers(uses[first], k) && Covers(uses[last], k)
    requires forall i :: 0 <= i < |uses| && Covers(uses[i], k) ==> first <= i <= last
    requires forall i, j :: 0 <= i < j < |uses| ==> uses[i].pc <= uses[j].pc
    ensures Extents(size, uses)[k] == (uses[first].pc + 1, uses[last].pc + 1)
  {
    hide Extents;
    RangesAreTight(size, uses, k);
    var r := Extents(size, uses)[k];
    var i: nat :| FirstCover(uses, k, i) && r.0 == uses[i].pc + 1;
    var j: nat :| LatestCover(uses, k, j) && r.1 == uses[j].pc + 1;
    assert i == first;
    assert j < last ==> uses[j].pc <= uses[last].pc;
  }

  /** The windows of one record, registered in statement order up to the first one that ends behind the record. */
  method FetchAll(r: seq<Var>, uses: seq<Use>) returns (ok: bool, ghost n: nat)
    requires Record(r) && Fresh(r) && forall i :: 0 <= i < |uses| ==> uses[i].p < |r|
    modifies (set x | x in r)`n, (set x | x in r)`from, (set x | x in r)`upto
    ensures n <= |uses| && Ns(r) == Demand(|r|, uses[..n]) && Ranges(r) == Extents(|r|, uses[..n])
    ensures ok <==> forall i :: 0 <= i < |uses| ==> uses[i].p + uses[i].count <= |r|
    ensures if ok then n == |uses| else n > 0 && uses[n - 1].p + uses[n - 1].count > |r|
  {
    hide Demand, Extents, Raised, TouchedWindow, Fresh, Ns, Ranges;
    NothingAsked(r, uses);
    n := 0;
    for i := 0 to |uses|
      invariant n == i && Ns(r) == Demand(|r|, uses[..i]) && Ranges(r) == Extents(|r|, uses[..i])
      invariant forall j :: 0 <= j < i ==> uses[j].p + uses[j].count <= |r|
    {
      var w := uses[i];
      OneMoreUse(|r|, uses, i);
      assert r[w.p].n == Ns(r)[w.p];
      ok := FetchV(r[w.p], w.count, w.pc, r, w.p);
      n := n + 1;
      if !ok {
        return;
      }
    }
    ok := true;
  }

  // ---------------------------------------------------------------- resolving every record

  /** `headers` lists, in some order, variables of all records; `at` says where each one is. */
  ghost predicate Listed(headers: seq<Var>, recs: seq<seq<Var>>, at: seq<(nat, nat)>, ns0: seq<seq<nat>>) {
    && |ns0| == |recs| && |at| == |headers|
    && (forall j :: 0 <= j < |recs| ==> |ns0[j]| == |recs[j]| && Fitting(ns0[j]))
    && (forall i :: 0 <= i < |at| ==> at[i].0 < |recs| && at[i].1 < |recs[at[i].0]|)
    && (forall i :: 0 <= i < |at| ==> headers[i] == recs[at[i].0][at[i].1])
  }

  /** The listed positions of record `j`, in order. */
  ghost function PositionsIn(at: seq<(nat, nat)>, j: nat): (ps: seq<nat>)
    ensures forall i :: 0 <= i < |ps| ==> (j, ps[i]) in at
  {
    if at == [] then []
    else PositionsIn(at[..|at| - 1], j) + if at[|at| - 1].0 == j then [at[|at| - 1].1] else []
  }

  /** The numbers of all records after the first `n` listed headers have been visited. */
  ghost predicate Resolving(at: seq<(nat, nat)>, ns0: seq<seq<nat>>, now: seq<seq<nat>>, n: nat) {
    && |now| == |ns0| && n <= |at|
    && (forall i :: 0 <= i < |at| ==> at[i].0 < |ns0| && at[i].1 < |ns0[at[i].0]|)
    && forall j :: 0 <= j < |now| ==> Fitting(ns0[j]) && now[j] == VisitedAll(ns0[j], PositionsIn(at[..n], j))
  }

  lemma ResolvingStep(at: seq<(nat, nat)>, ns0: seq<seq<nat>>, now: seq<seq<nat>>, n: nat)
    requires Resolving(at, ns0, now, n) && n < |at|
    ensures var (j, p) := at[n];
            j < |now| && Fitting(now[j]) && |now[j]| == |ns0[j]|
            && Resolving(at, ns0, now[j := Visited8(now[j], p)], n + 1)
  {
    hide Visited8, VisitedAll;
    var (j, p) := at[n];
    var next := now[j := Visited8(now[j], p)];
    forall k | 0 <= k < |now|
      ensures next[k] == VisitedAll(ns0[k], PositionsIn(at[..n + 1], k))
    {
      OneMorePosition(at, n, k);
      if k == j {
        VisitOneMore(ns0[j], PositionsIn(at[..n], j), p);
      } else {
        assert PositionsIn(at[..n], k) + [] == PositionsIn(at[..n], k);
      }
    }
  }

  lemma OneMorePosition(at: seq<(nat, nat)>, n: nat, j: nat)
    requires n < |at|
    ensures PositionsIn(at[..n + 1], j) == PositionsIn(at[..n], j) + if at[n].0 == j then [at[n].1] else []
  {
    assert at[..n + 1][..n] == at[..n] && at[..n + 1][n] == at[n];
  }

  lemma VisitOneMore(ns: seq<nat>, ps: seq<nat>, p: nat)
    requires Fitting(ns) && p < |ns| && forall i :: 0 <= i < |ps| ==> ps[i] < |ns|
    ensures VisitedAll(ns, ps + [p]) == Visited8(VisitedAll(ns, ps), p)
  {
    hide Visited8;
    assert (ps + [p])[..|ps|] == ps;
  }

  ghost function AllVars(recs: seq<seq<Var>>): (all: set<Var>)
    ensures forall j, v :: 0 <= j < |recs| && v in recs[j] ==> v in all
  {
    set j, v | 0 <= j < |recs| && v in recs[j] :: v
  }

  /** `now` are the numbers of all records. */
  ghost predicate Current(recs: seq<seq<Var>>, now: seq<seq<nat>>)
    reads AllVars(recs)
  {
    |now| == |recs| && forall j :: 0 <= j < |recs| ==> now[j] == Ns(recs[j])
  }

  lemma NotShared(recs: seq<seq<Var>>, m: nat, j: nat)
    requires Apart(recs) && m < |recs| && j < |recs| && m != j
    ensures forall x :: 0 <= x < |recs[m]| ==> recs[m][x] !in recs[j]
  {
  }

  /** Resolves one header; only the numbers of its own record change. */
  method ResolveOne(h: Var, ghost recs: seq<seq<Var>>, ghost now: seq<seq<nat>>, ghost j: nat, ghost p: nat)
    requires Apart(recs) && j < |recs| && Record(recs[j]) && p < |recs[j]| && recs[j][p] == h
    requires Current(recs, now) && Fitting(now[j])
    modifies (set v | v in recs[j])`n
    ensures Current(recs, now[j := Visited8(now[j], p)])
  {
    hide Visited8, Ns;
    ResolveHeader(h, recs[j], now[j], p);
    forall m | 0 <= m < |recs| && m != j
      ensures now[m] == Ns(recs[m])
    {
      NotShared(recs, m, j);
      assert forall x :: 0 <= x < |recs[m]| ==> recs[m][x].n == old(recs[m][x].n) == now[m][x];
    }
  }

  /** Resolves the overlaps of all headers, in whatever order they are listed. */
  method ResolveAll(headers: seq<Var>, ghost recs: seq<seq<Var>>, ghost at: seq<(nat, nat)>, ghost ns0: seq<seq<nat>>)
    requires Apart(recs) && Listed(headers, recs, at, ns0) && Current(recs, ns0)
    requires forall j :: 0 <= j < |recs| ==> Record(recs[j])
    modifies AllVars(recs)`n
    ensures forall j :: 0 <= j < |recs| ==> Ns(recs[j]) == VisitedAll(ns0[j], PositionsIn(at, j))
  {
    hide Visited8, VisitedAll, Apart, Current, Resolving, Ns;
    ghost var now := ns0;
    NothingVisited(headers, recs, at, ns0);
    for i := 0 to |headers|
      invariant Current(recs, now) && Resolving(at, ns0, now, i)
    {
      ghost var (j, p) := at[i];
      ResolvingStep(at, ns0, now, i);
      ResolveOne(headers[i], recs, now, j, p);
      now := now[j := Visited8(now[j], p)];
    }
    AllVisited(recs, at, ns0, now);
  }

  lemma NothingVisited(headers: seq<Var>, recs: seq<seq<Var>>, at: seq<(nat, nat)>, ns0: seq<seq<nat>>)
    requires Listed(headers, recs, at, ns0)
    ensures Resolving(at, ns0, ns0, 0)
  {
  }

  lemma AllVisited(recs: seq<seq<Var>>, at: seq<(nat, nat)>, ns0: seq<seq<nat>>, now: seq<seq<nat>>)
    requires Current(recs, now) && Resolving(at, ns0, now, |at|)
    ensures forall j :: 0 <= j < |recs| ==> Ns(recs[j]) == VisitedAll(ns0[j], PositionsIn(at, j))
  {
    assert at[..|at|] == at;
  }

  // ---------------------------------------------------------------- numbering and checking slots

  ghost function Slots(r: seq<Var>): (s: seq<nat>)
    reads r`slot
    ensures |s| == |r| && forall i :: 0 <= i < |r| ==> s[i] == r[i].slot
  {
    if r == [] then [] else Slots(r[..|r| - 1]) + [r[|r| - 1].slot]
  }

  /** The run at `base` numbers the window at `p`. */
  ghost predicate Numbered(slots: seq<nat>, p: nat, n: nat, base: nat) {
    p + n <= |slots| && forall k :: p <= k < p + n ==> slots[k] == base + (k - p)
  }

  ghost function NodeAt(r: seq<Var>, i: nat): Var? {
    if i < |r| then r[i] else null
  }

  /** Sets one slot and moves on to the next variable. */
  method SetSlot(v: Var, slot: nat, ghost r: seq<Var>, ghost q: nat) returns (next: Var?)
    requires Record(r) && q < |r| && r[q] == v
    modifies v`slot
    ensures Slots(r) == old(Slots(r))[q := slot]
    ensures next == NodeAt(r, q + 1)
  {
    hide Slots;
    ghost var before := Slots(r);
    v.slot := slot;
    forall k: nat | k < |r|
      ensures Slots(r)[k] == before[q := slot][k]
    {
      DistinctAt(r, k, q);
    }
    next := v.next;
  }

  ghost function Renumbered(s: seq<nat>, p: nat, n: nat, base: nat): (t: seq<nat>)
    requires p + n <= |s|
    ensures |t| == |s| && forall k :: 0 <= k < |s| ==> t[k] == if p <= k < p + n then base + (k - p) else s[k]
  {
    if n == 0 then s else Renumbered(s, p, n - 1, base)[p + n - 1 := base + (n - 1)]
  }

  method NumberWindow(h: Var, n: nat, base: nat, ghost r: seq<Var>, ghost p: nat)
    requires Record(r) && p + n <= |r| && n > 0 && r[p] == h
    modifies (set x | x in r)`slot
    ensures Slots(r) == Renumbered(old(Slots(r)), p, n, base)
  {
    hide Slots;
    var v: Var? := h;
    var left: int, slot := n, base;
    ghost var before := Slots(r);
    ghost var done: nat := 0;
    while left > 0
      invariant left + done == n && slot == base + done
      invariant v == NodeAt(r, p + done)
      invariant Slots(r) == Renumbered(before, p, done, base)
      decreases left
    {
      v := SetSlot(v, slot, r, p + done);
      slot := slot + 1;
      left := left - 1;
      done := done + 1;
    }
  }

  /** The windows at `ps` are not empty and end inside the record. */
  ghost predicate WindowsInside(ns: seq<nat>, ps: seq<nat>) {
    forall i :: 0 <= i < |ps| ==> ps[i] < |ns| && ns[ps[i]] > 0 && ps[i] + ns[ps[i]] <= |ns|
  }

  /** The slots after the windows at `ps` have been numbered from their bases, in this order. */
  ghost function NumberedAll(s: seq<nat>, ns: seq<nat>, ps: seq<nat>, bases: seq<nat>): (t: seq<nat>)
    requires |s| == |ns| && |ps| == |bases| && WindowsInside(ns, ps)
    ensures |t| == |s|
  {
    if ps == [] then s
    else
      var k := |ps| - 1;
      Renumbered(NumberedAll(s, ns, ps[..k], bases[..k]), ps[k], ns[ps[k]], bases[k])
  }

  /** Numbers the windows of a record from the bases the scan found for them. */
  method NumberAll(hs: seq<Var>, bases: seq<nat>, ghost r: seq<Var>, ghost ns: seq<nat>, ghost ps: seq<nat>)
    requires Record(r) && ns == Ns(r) && |hs| == |bases| == |ps| && WindowsInside(ns, ps)
    requires forall i :: 0 <= i < |ps| ==> hs[i] == r[ps[i]]
    modifies (set x | x in r)`slot
    ensures Slots(r) == NumberedAll(old(Slots(r)), ns, ps, bases)
  {
    hide Renumbered, Slots, Ns;
    ghost var before := Slots(r);
    for i := 0 to |hs|
      invariant Slots(r) == NumberedAll(before, ns, ps[..i], bases[..i])
    {
      assert ps[..i + 1][..i] == ps[..i] && bases[..i + 1][..i] == bases[..i];
      assert hs[i].n == Ns(r)[ps[i]] == ns[ps[i]];
      NumberWindow(hs[i], hs[i].n, bases[i], r, ps[i]);
    }
    assert ps[..|ps|] == ps && bases[..|bases|] == bases;
  }

  ghost predicate DisjointWindows(ns: seq<nat>, ps: seq<nat>)
    requires WindowsInside(ns, ps)
  {
    forall i, j :: 0 <= i < j < |ps| ==> ps[i] + ns[ps[i]] <= ps[j] || ps[j] + ns[ps[j]] <= ps[i]
  }

  /** Disjoint windows keep their numbers while others are numbered. */
  lemma {:induction false} NumbersStay(s: seq<nat>, ns: seq<nat>, ps: seq<nat>, bases: seq<nat>, i: nat)
    requires |s| == |ns| && |ps| == |bases| && WindowsInside(ns, ps) && DisjointWindows(ns, ps) && i < |ps|
    ensures Numbered(NumberedAll(s, ns, ps, bases), ps[i], ns[ps[i]], bases[i])
    decreases |ps|
  {
    var k := |ps| - 1;
    if i < k {
      NumbersStay(s, ns, ps[..k], bases[..k], i);
    }
  }

  /** Runs inside the pool give slots inside it. */
  lemma {:induction false} NumbersInPool(s: seq<nat>, ns: seq<nat>, ps: seq<nat>, bases: seq<nat>, size: nat)
    requires |s| == |ns| && |ps| == |bases| && WindowsInside(ns, ps)
    requires (forall k :: 0 <= k < |s| ==> s[k] < size)
    requires forall i :: 0 <= i < |ps| ==> bases[i] + ns[ps[i]] <= size
    ensures forall k :: 0 <= k < |s| ==> NumberedAll(s, ns, ps, bases)[k] < size
    decreases |ps|
  {
    if ps != [] {
      var k := |ps| - 1;
      NumbersInPool(s, ns, ps[..k], bases[..k], size);
    }
  }

  ghost predicate InOrder(slots: seq<nat>, p: nat, n: int)
    requires p < |slots|
  {
    p + n <= |slots| && forall k :: p < k < p + n ==> slots[k] == slots[p] + (k - p)
  }

  method CheckSlotOrder(v: Var, n: int, ghost r: seq<Var>, ghost p: nat) returns (ok: bool)
    requires Record(r) && p < |r| && r[p] == v
    ensures ok <==> InOrder(Slots(r), p, n)
  {
    hide Slots;
    ghost var slots := Slots(r);
    var lastSlot := v.slot;
    var x := v.next;
    var left := n - 1;
    ghost var q: nat := p + 1;
    while left > 0
      invariant (left == p + n - q && q <= p + n) || (n < 1 && q == p + 1 && left < 0)
      invariant x == if q < |r| then r[q] else null
      invariant p < q <= |r| && lastSlot == slots[p] + (q - 1 - p)
      invariant forall k :: p < k < q ==> slots[k] == slots[p] + (k - p)
    {
      if x == null || x.slot != lastSlot + 1 {
        assert q < |r| ==> slots[q] == x.slot;
        return false;
      }
      lastSlot := x.slot;
      x := x.next;
      left := left - 1;
      q := q + 1;
    }
    ok := true;
  }

  /** After overlap resolution and numbering, every registered window has consecutive slots: the slot-order
      check never rejects a statement. */
  lemma RegisteredWindowsAreInOrder(ns0: seq<nat>, slots: seq<nat>, base: nat -> nat, p: nat, count: nat)
    requires Fitting(ns0) && |slots| == |ns0| && p < |ns0|
    requires 0 < count <= ns0[p]
    requires forall a: nat :: Header(Resolved(ns0), a) ==> Numbered(slots, a, Resolved(ns0)[a], base(a))
    ensures InOrder(slots, p, count)
  {
    if count > 1 {
      var a := WindowSurvives(ns0, p);
      ResolvedWindows(ns0);
      ReachIs(ns0, a);
      ReachUnique(ns0, a, Reach(ns0, a), a + Resolved(ns0)[a]);
      assert Numbered(slots, a, Resolved(ns0)[a], base(a));
    }
  }

  // ---------------------------------------------------------------- live ranges of windows

  /** The hull of the ranges of the variables in the window of `h`. */
  method Bounds(h: Var, ghost r: seq<Var>, ghost p: nat) returns (from: nat, upto: nat)
    requires Record(r) && p < |r| && r[p] == h
    ensures forall k: nat :: p <= k < |r| && k < p + h.n ==> from <= Ranges(r)[k].0 && Ranges(r)[k].1 <= upto
    ensures exists k: nat :: p <= k < |r| && (k == p || k < p + h.n) && from == Ranges(r)[k].0
    ensures exists k: nat :: p <= k < |r| && (k == p || k < p + h.n) && upto == Ranges(r)[k].1
  {
    hide Ranges;
    from, upto := h.from, h.upto;
    ghost var kf, ku := p, p;
    var v := h.next;
    var n: int := h.n - 1;
    ghost var q: nat := p + 1;
    while v != null && n > 0
      invariant p < q <= |r| && n == p + h.n - q && v == if q < |r| then r[q] else null
      invariant n >= 0 || q == p + 1
      invariant p <= kf < q && p <= ku < q && (kf == p || kf < p + h.n) && (ku == p || ku < p + h.n)
      invariant from == Ranges(r)[kf].0 && upto == Ranges(r)[ku].1
      invariant forall k: nat :: p <= k < q ==> from <= Ranges(r)[k].0 && Ranges(r)[k].1 <= upto
      decreases n
    {
      if v.from < from {
        from := v.from;
        kf := q;
      }
      if v.upto > upto {
        upto := v.upto;
        ku := q;
      }
      n := n - 1;
      v := v.next;
      q := q + 1;
    }
  }
}
