/** Record variables of the assembler: doubly linked lists of variables, the operand windows that statements
    register on them, the resolution of overlapping windows, and the numbering of slots. */
module Records {
  import opened Windows

  class Var {
    var n: nat      // number of consecutive slots required, an 8-bit field
    var from: nat   // first and last use in the statement list, counted from 1; 0 when there is none
    var upto: nat
    var slot: nat   // an 8-bit field
    var next: Var?
    var prev: Var?

    constructor ()
      ensures n == 1 && from == 0 && upto == 0 && slot == 0 && next == null && prev == null
    {
      n, from, upto, slot, next, prev := 1, 0, 0, 0, null, null;
    }
  }

  ghost predicate Record(r: seq<Var>)
    reads r`next, r`prev
  {
    && (forall i {:trigger r[i].next} :: 0 <= i < |r| ==> r[i].next == if i + 1 < |r| then r[i + 1] else null)
    && (forall i {:trigger r[i].prev} :: 0 <= i < |r| ==> r[i].prev == if i > 0 then r[i - 1] else null)
    && Distinct(r)
  }

  ghost function Ns(r: seq<Var>): (ns: seq<nat>)
    reads r`n
    ensures |ns| == |r| && forall i :: 0 <= i < |r| ==> ns[i] == r[i].n
  {
    if r == [] then [] else Ns(r[..|r| - 1]) + [r[|r| - 1].n]
  }

  /** The headers of a record at positions `[a, b)`, in order. */
  ghost function HeadersIn(r: seq<Var>, ns: seq<nat>, a: nat, b: nat): seq<Var>
    requires b <= |r| == |ns|
  {
    if b <= a then []
    else HeadersIn(r, ns, a, b - 1) + (if Header(ns, b - 1) then [r[b - 1]] else [])
  }

  lemma {:induction false} HeaderListed(r: seq<Var>, ns: seq<nat>, a: nat, b: nat, k: nat)
    requires b <= |r| == |ns| && k < |r| && Distinct(r)
    ensures r[k] in HeadersIn(r, ns, a, b) <==> a <= k < b && Header(ns, k)
  {
    if a < b {
      HeaderListed(r, ns, a, b - 1, k);
      DistinctAt(r, k, b - 1);
    }
  }

  lemma {:induction false} NoHeaderNoList(r: seq<Var>, ns: seq<nat>, a: nat, b: nat, c: nat)
    requires a <= b <= c <= |r| == |ns|
    requires forall k: nat :: b <= k < c ==> !Header(ns, k)
    ensures HeadersIn(r, ns, a, c) == HeadersIn(r, ns, a, b)
  {
    if b < c {
      NoHeaderNoList(r, ns, a, b, c - 1);
    }
  }

  // ---------------------------------------------------------------- collecting a cluster

  /** When every cluster inside a window ends by `e`, so does the cluster of the window. */
  lemma InnerClustersBound(ns: seq<nat>, h: nat, e: nat)
    requires Fitting(ns) && Header(ns, h) && h + ns[h] <= e
    requires forall k: nat :: h < k < h + ns[h] && Header(ns, k) ==> Reach(ns, k) <= e
    ensures Reach(ns, h) <= e
  {
    ReachIs(ns, h);
    if e < Reach(ns, h) {
      assert Bridged(ns, h, e);
      var q: nat :| h <= q < e && Header(ns, q) && e < q + ns[q];
      var k := InnerOwner(ns, h, q);
      ReachIs(ns, k);
    }
  }

  /** A later header of a cluster belongs to the cluster of some header inside the first window. */
  lemma {:induction false} InnerOwner(ns: seq<nat>, h: nat, q: nat) returns (k: nat)
    requires Fitting(ns) && Header(ns, h) && Header(ns, q) && h < q < Reach(ns, h)
    ensures h < k < h + ns[h] && Header(ns, k) && k <= q < Reach(ns, k)
    decreases q
  {
    ReachIs(ns, h);
    if q < h + ns[h] {
      k := q;
      ReachIs(ns, q);
    } else {
      assert Bridged(ns, h, q);
      var p: nat :| h <= p < q && Header(ns, p) && q < p + ns[p];
      k := InnerOwner(ns, h, p);
      ReachIs(ns, k);
    }
  }

  /** `out` lists the headers from `root` up to `e`; before the first overlap is found it is empty. */
  ghost predicate Collected(r: seq<Var>, ns: seq<nat>, out: seq<Var>, root: nat, h: nat, e: nat) {
    && root <= h <= e <= |r| == |ns|
    && (h == e ==> root == h)
    && out == HeadersIn(r, ns, root, e)
  }

  ghost predicate NoInner(ns: seq<nat>, h: nat, q: nat) {
    forall k: nat :: h < k < q ==> !Header(ns, k)
  }

  /** What the search from header `h` appends to a list that reaches up to `e`. */
  ghost function WithCluster(r: seq<Var>, ns: seq<nat>, root: nat, h: nat, e: nat): seq<Var>
    requires e <= |r| == |ns| && Fitting(ns) && Header(ns, h)
  {
    ReachIs(ns, h);
    if h == e && NoInner(ns, h, h + ns[h]) then [] else HeadersIn(r, ns, root, Max(e, Reach(ns, h)))
  }

  /** The search from header `h` has looked at the positions below `q`; its list now reaches up to `end`. */
  ghost predicate Searching(ns: seq<nat>, h: nat, e: nat, q: nat, end: nat)
    requires Fitting(ns) && Header(ns, h)
  {
    && h < q <= h + ns[h]
    && (if end == h then e == h && NoInner(ns, h, q)
        else q <= end && e <= end <= Max(e, Reach(ns, h)) && (e == h ==> !NoInner(ns, h, q)))
    && (forall k: nat :: h < k < q && Header(ns, k) ==> Reach(ns, k) <= end)
  }

  /** How far the list reaches after position `q` and, for a header, its own cluster. */
  ghost function NextEnd(ns: seq<nat>, h: nat, q: nat, end: nat): nat
    requires Fitting(ns) && q < |ns|
  {
    if Header(ns, q) then (ReachIs(ns, q); Max(end, Reach(ns, q)))
    else if end == q then q + 1 else end
  }

  lemma SearchStep(ns: seq<nat>, h: nat, e: nat, q: nat, end: nat)
    requires Fitting(ns) && Header(ns, h) && Searching(ns, h, e, q, end) && q < h + ns[h] && h <= e <= |ns|
    ensures q < |ns| && NextEnd(ns, h, q, end) <= |ns|
    ensures Searching(ns, h, e, q + 1, NextEnd(ns, h, q, end))
  {
    ReachIs(ns, h);
    if Header(ns, q) {
      ReachIs(ns, q);
      InnerReach(ns, h, q);
    }
  }

  ghost function Registered(l: seq<Var>, header: Var, v: Var): seq<Var> {
    var l1 := if header in l then l else l + [header];
    if v in l1 then l1 else l1 + [v]
  }

  ghost predicate Differ(r: seq<Var>, i: nat, j: nat)
    requires i < |r| && j < |r|
  {
    r[i] != r[j]
  }

  ghost predicate Distinct(r: seq<Var>) {
    forall i: nat, j: nat {:trigger Differ(r, i, j)} :: i < j < |r| ==> Differ(r, i, j)
  }

  lemma DistinctAt(r: seq<Var>, i: nat, j: nat)
    requires Distinct(r) && i < |r| && j < |r|
    ensures r[i] == r[j] <==> i == j
  {
    assert i < j ==> Differ(r, i, j);
    assert j < i ==> Differ(r, j, i);
  }

  lemma OneListed(r: seq<Var>, ns: seq<nat>, h: nat, q: nat)
    requires |r| == |ns| && Header(ns, h) && h < q <= |ns| && NoInner(ns, h, q)
    ensures HeadersIn(r, ns, h, q) == [r[h]]
  {
    NoHeaderNoList(r, ns, h, h + 1, q);
  }

  /** The first overlap found: both headers are new. */
  lemma RegisterFirst(r: seq<Var>, ns: seq<nat>, h: nat, q: nat)
    requires Distinct(r) && |r| == |ns| && Header(ns, h) && Header(ns, q) && h < q && NoInner(ns, h, q)
    ensures Registered([], r[h], r[q]) == HeadersIn(r, ns, h, q + 1)
  {
    OneListed(r, ns, h, q);
    DistinctAt(r, h, q);
  }

  /** A later overlap: `h` is in the list already, and `q` goes to its end if it is new. */
  lemma RegisterNext(r: seq<Var>, ns: seq<nat>, root: nat, h: nat, q: nat, end: nat)
    requires Distinct(r) && |r| == |ns| && Header(ns, h) && Header(ns, q) && root <= h < q <= end <= |ns| && q < |ns|
    ensures r[h] in HeadersIn(r, ns, root, end)
    ensures Registered(HeadersIn(r, ns, root, end), r[h], r[q]) == HeadersIn(r, ns, root, Max(end, q + 1))
  {
    HeaderListed(r, ns, root, end, h);
    HeaderListed(r, ns, root, end, q);
  }

  lemma PlainStep(r: seq<Var>, ns: seq<nat>, root: nat, h: nat, q: nat, end: nat)
    requires |r| == |ns| && Fitting(ns) && q < |ns| && end <= |ns| && !Header(ns, q) && root <= q
    ensures HeadersIn(r, ns, root, NextEnd(ns, h, q, end)) == HeadersIn(r, ns, root, end)
  {
  }

  lemma InnerSearch(r: seq<Var>, ns: seq<nat>, root: nat, h: nat, e: nat, q: nat, end: nat)
    requires |r| == |ns| && Fitting(ns) && Header(ns, h) && Header(ns, q) && end <= |ns| && root <= h
    requires Searching(ns, h, e, q, end) && q < h + ns[h]
    ensures WithCluster(r, ns, root, q, Max(end, q + 1)) == HeadersIn(r, ns, root, NextEnd(ns, h, q, end))
  {
    ReachIs(ns, q);
  }

  lemma SearchDone(r: seq<Var>, ns: seq<nat>, root: nat, h: nat, e: nat, end: nat)
    requires |r| == |ns| && Fitting(ns) && Header(ns, h) && end <= |ns| && e <= |ns| && (h == e ==> root == h)
    requires Searching(ns, h, e, h + ns[h], end)
    ensures HeadersIn(r, ns, root, end) == WithCluster(r, ns, root, h, e)
  {
    ReachIs(ns, h);
    if end != h {
      InnerClustersBound(ns, h, end);
    }
  }

  ghost predicate SearchState(r: seq<Var>, ns: seq<nat>, found: seq<Var>, root: nat, h: nat, e: nat, q: nat, end: nat)
    requires Fitting(ns) && Header(ns, h)
  {
    && |r| == |ns| && Distinct(r) && root <= h && e <= |ns| && end <= |ns|
    && (h == e ==> root == h)
    && Searching(ns, h, e, q, end)
    && found == HeadersIn(r, ns, root, end)
  }

  lemma LookedAtPlain(r: seq<Var>, ns: seq<nat>, out: seq<Var>, root: nat, h: nat, e: nat, q: nat, end: nat)
    requires Fitting(ns) && Header(ns, h) && h <= e && SearchState(r, ns, out, root, h, e, q, end)
    requires q < h + ns[h] && !Header(ns, q)
    ensures q < |ns| && SearchState(r, ns, out, root, h, e, q + 1, NextEnd(ns, h, q, end))
  {
    SearchStep(ns, h, e, q, end);
    PlainStep(r, ns, root, h, q, end);
  }

  lemma LookedAtHeader(r: seq<Var>, ns: seq<nat>, out: seq<Var>, root: nat, h: nat, e: nat, q: nat, end: nat)
    requires Fitting(ns) && Header(ns, h) && h <= e && SearchState(r, ns, out, root, h, e, q, end)
    requires q < h + ns[h] && Header(ns, q)
    ensures (r[h] in out <==> end != h)
    ensures Collected(r, ns, Registered(out, r[h], r[q]), root, q, Max(end, q + 1))
    ensures SearchState(r, ns, WithCluster(r, ns, root, q, Max(end, q + 1)), root, h, e, q + 1, NextEnd(ns, h, q, end))
    ensures NextEnd(ns, h, q, end) != h
  {
    SearchStep(ns, h, e, q, end);
    InnerSearch(r, ns, root, h, e, q, end);
    ReachIs(ns, q);
    if end == h {
      RegisterFirst(r, ns, h, q);
    } else {
      RegisterNext(r, ns, root, h, q, end);
    }
  }

  /** The part of the search that looks at the variable at position `q` of the window of `header`. */
  method LookAt(out: seq<Var>, header: Var, registered: bool, v: Var,
                ghost r: seq<Var>, ghost ns: seq<nat>, ghost h: nat, ghost root: nat, ghost e: nat, ghost q: nat,
                ghost end: nat)
      returns (found: seq<Var>, registered': bool)
    requires Record(r) && ns == Ns(r) && h <= e && h < q < |r| && r[h] == header && r[q] == v
    requires Fitting(ns) && Header(ns, h) && q < h + ns[h]
    requires SearchState(r, ns, out, root, h, e, q, end) && (registered ==> end != h)
    ensures SearchState(r, ns, found, root, h, e, q + 1, NextEnd(ns, h, q, end))
    ensures registered' ==> NextEnd(ns, h, q, end) != h
    decreases |r| - h, 0
  {
    hide Ns;
    found, registered' := out, registered;
    assert v.n == ns[q];
    if v.n > 1 {
      LookedAtHeader(r, ns, out, root, h, e, q, end);
      if !registered && header !in found {
        registered' := true;
        found := found + [header];
      }
      if v !in found {
        found := found + [v];
      }
      found := FindOverlaps(found, v, r, ns, q, root, Max(end, q + 1));
    } else {
      LookedAtPlain(r, ns, out, root, h, e, q, end);
    }
  }

  /** Appends to `out` the headers of the cluster of `header` that are not in it yet, in order; nothing when
      its window contains no other header. */
  method FindOverlaps(out: seq<Var>, header: Var, ghost r: seq<Var>, ghost ns: seq<nat>, ghost h: nat,
          ghost root: nat, ghost e: nat)
      returns (found: seq<Var>)
    requires Record(r) && h < |r| && r[h] == header && ns == Ns(r)
    requires Fitting(ns) && Header(ns, h) && Collected(r, ns, out, root, h, e)
    ensures found == WithCluster(r, ns, root, h, e)
    decreases |r| - h, 1
  {
    hide Ns;
    ghost var q: nat, end: nat := h + 1, e;
    SearchStart(r, ns, out, root, h, e);
    found := out;
    var v := header.next;
    var n: int := header.n - 1;
    var headerRegistered := false;
    while v != null && n > 0
      invariant h < q && n == h + ns[h] - q && SearchState(r, ns, found, root, h, e, q, end)
      invariant v == if q < |r| then r[q] else null
      invariant headerRegistered ==> end != h
      decreases n
    {
      found, headerRegistered := LookAt(found, header, headerRegistered, v, r, ns, h, root, e, q, end);
      end := NextEnd(ns, h, q, end);
      v := v.next;
      n := n - 1;
      q := q + 1;
    }
    SearchDone(r, ns, root, h, e, end);
  }

  lemma SearchStart(r: seq<Var>, ns: seq<nat>, out: seq<Var>, root: nat, h: nat, e: nat)
    requires Distinct(r) && Fitting(ns) && Header(ns, h) && Collected(r, ns, out, root, h, e)
    ensures SearchState(r, ns, out, root, h, e, h + 1, e) && h + ns[h] <= |ns|
  {
    ReachIs(ns, h);
  }

  // ---------------------------------------------------------------- merging a collected cluster

  /** The number of a header after one at distance `off` with the number `w` has been merged into it, in 8 bits. */
  function Joined(n: nat, off: nat, w: nat): nat {
    (n + (if off + w > n then off + w - n else 0)) % 256
  }

  /** The number the header at `p` ends with when the headers of `[q, e)` are merged, from the last one to the
      first, each into the one before it. */
  ghost function Width8(ns: seq<nat>, p: nat, q: nat, e: nat): nat
    requires p < q && p < |ns| && e <= |ns|
    decreases e - q
  {
    if q >= e then ns[p]
    else if Header(ns, q) then Joined(ns[p], q - p, Width8(ns, q, q + 1, e))
    else Width8(ns, p, q + 1, e)
  }

  lemma {:induction false} NoHeaderNoWidth(ns: seq<nat>, p: nat, q: nat, q': nat, e: nat)
    requires p < q <= q' && p < |ns| && e <= |ns| && forall k: nat :: q <= k < q' ==> !Header(ns, k)
    ensures Width8(ns, p, q, e) == Width8(ns, p, q', e)
    decreases q' - q
  {
    if q < q' && q < e {
      NoHeaderNoWidth(ns, p, q + 1, q', e);
    }
  }

  /** The part of a cluster up to `e` with the headers above `p` merged into the one at `p`. */
  ghost function PartlyMerged(ns: seq<nat>, p: nat, e: nat): (r: seq<nat>)
    requires p < |ns| && e <= |ns|
    ensures |r| == |ns| && forall k :: 0 <= k < |ns| ==> r[k] == PartlyMergedAt(ns, p, e, k)
  {
    seq(|ns|, k requires 0 <= k < |ns| => PartlyMergedAt(ns, p, e, k))
  }

  ghost function PartlyMergedAt(ns: seq<nat>, p: nat, e: nat, k: nat): nat
    requires p < |ns| && e <= |ns| && k < |ns|
  {
    if k == p then Width8(ns, p, p + 1, e) else if p < k < e && Header(ns, k) then 0 else ns[k]
  }

  /** The numbers after the cluster of the header `a` has been merged into it, in 8 bits. */
  ghost function Merged8(ns: seq<nat>, a: nat): (r: seq<nat>)
    requires Fitting(ns) && Header(ns, a)
    ensures |r| == |ns|
  {
    ReachIs(ns, a);
    PartlyMerged(ns, a, Reach(ns, a))
  }

  lemma {:induction false} LastListed(r: seq<Var>, ns: seq<nat>, a: nat, b: nat) returns (p: nat)
    requires b <= |r| == |ns| && HeadersIn(r, ns, a, b) != []
    ensures a <= p < b && Header(ns, p) && NoInner(ns, p, b)
    ensures HeadersIn(r, ns, a, b) == HeadersIn(r, ns, a, p) + [r[p]]
  {
    if Header(ns, b - 1) {
      p := b - 1;
    } else {
      p := LastListed(r, ns, a, b - 1);
    }
  }

  /** The nearest variable before `v` with a window, and its distance. */
  method NearestHeader(v: Var, ghost r: seq<Var>, ghost p: nat, ghost q: nat) returns (h: Var, off: nat)
    requires Record(r) && q < p < |r| && r[p] == v && r[q].n > 1
    requires forall k :: q < k < p ==> r[k].n <= 1
    ensures h == r[q] && off == p - q
  {
    var h': Var? := v;
    off := 0;
    while h' != null
      invariant off <= p - q && h' == r[p - off]
      invariant off == p - q ==> off == 0
      decreases p - q - off
    {
      h' := h'.prev;
      off := off + 1;
      if h' != null && h'.n > 1 {
        break;
      }
    }
    h := h';
  }

  lemma NothingMerged(ns: seq<nat>, p: nat, e: nat)
    requires p < e <= |ns| && NoInner(ns, p, e)
    ensures PartlyMerged(ns, p, e) == ns
  {
    NoHeaderNoWidth(ns, p, p + 1, e, e);
  }

  lemma JoinWidth(ns: seq<nat>, p: nat, q: nat, e: nat)
    requires q < p < e <= |ns| && Header(ns, p) && NoInner(ns, q, p)
    ensures Width8(ns, q, q + 1, e) == Joined(ns[q], p - q, Width8(ns, p, p + 1, e))
  {
    NoHeaderNoWidth(ns, q, q + 1, p, e);
  }

  /** Moves the window of the header `v`, at `p`, into the nearest header before it, at `q`. */
  method MergeIntoPrevious(v: Var, ghost r: seq<Var>, ghost ns: seq<nat>, ghost p: nat, ghost q: nat, ghost e: nat)
      returns (h: Var)
    requires Record(r) && q < p < e <= |r| == |ns| && r[p] == v
    requires Header(ns, q) && Header(ns, p) && NoInner(ns, q, p) && Ns(r) == PartlyMerged(ns, p, e)
    modifies (set v | v in r)`n
    ensures h == r[q] && Ns(r) == PartlyMerged(ns, q, e)
  {
    hide Width8, Ns;
    ghost var now := Ns(r);
    assert now[q] == ns[q] && now[p] == Width8(ns, p, p + 1, e);
    forall k | q < k < p
      ensures r[k].n <= 1
    {
      assert now[k] == ns[k] && !Header(ns, k);
    }
    var off;
    h, off := NearestHeader(v, r, p, q);
    DistinctAt(r, p, q);
    JoinWidth(ns, p, q, e);
    var more: int := off + v.n - h.n;
    h.n := (h.n + (if more > 0 then more else 0)) % 256;
    v.n := 0;
    forall k: nat | k < |r|
      ensures r[k].n == PartlyMergedAt(ns, q, e, k)
    {
      DistinctAt(r, k, p);
      DistinctAt(r, k, q);
      if k != p && k != q {
        assert r[k].n == old(r[k].n) == now[k];
        assert q < k < p ==> !Header(ns, k);
      }
    }
  }

  ghost predicate Merging(r: seq<Var>, ns: seq<nat>, l: seq<Var>, i: nat, a: nat, p: nat, e: nat) {
    && |r| == |ns| && i < |l| && a <= p < e <= |ns| && Header(ns, p)
    && l[..i + 1] == HeadersIn(r, ns, a, p) + [r[p]]
  }

  lemma MergingStep(r: seq<Var>, ns: seq<nat>, l: seq<Var>, i: nat, a: nat, p: nat, e: nat) returns (q: nat)
    requires Header(ns, a) && Merging(r, ns, l, i, a, p, e) && i > 0
    ensures a <= q < p && Header(ns, q) && NoInner(ns, q, p) && l[i - 1] == r[q] && l[i] == r[p]
    ensures Merging(r, ns, l, i - 1, a, q, e)
  {
    assert l[..i + 1][i] == r[p] && l[..i] == HeadersIn(r, ns, a, p);
    q := LastListed(r, ns, a, p);
    assert l[..i][i - 1] == r[q];
  }

  /** One round of the merge; the asserted equality is the one the source asserts. */
  method ResolveStep(l: seq<Var>, i: nat, ghost r: seq<Var>, ghost ns: seq<nat>, ghost a: nat, ghost p: nat,
          ghost e: nat)
      returns (ghost q: nat)
    requires Record(r) && Header(ns, a)
    requires i > 0 && Merging(r, ns, l, i, a, p, e) && Ns(r) == PartlyMerged(ns, p, e)
    modifies (set v | v in r)`n
    ensures Merging(r, ns, l, i - 1, a, q, e) && Ns(r) == PartlyMerged(ns, q, e)
  {
    hide Ns;
    q := MergingStep(r, ns, l, i, a, p, e);
    var h := MergeIntoPrevious(l[i], r, ns, p, q, e);
    assert h == l[i - 1];
  }

  /** Merges the collected cluster of the header at `a`, from its last header to its first. The nearest
      header before each one is the one before it in the list. */
  method ResolveOverlaps(l: seq<Var>, ghost r: seq<Var>, ghost ns: seq<nat>, ghost a: nat)
    requires Record(r) && ns == Ns(r) && Fitting(ns) && Header(ns, a) && l == WithCluster(r, ns, a, a, a)
    modifies (set v | v in r)`n
    ensures Ns(r) == Merged8(ns, a)
  {
    hide Ns, WithCluster, HeadersIn, Merged8, PartlyMerged, Fitting;
    ReachIs(ns, a);
    ghost var e := Reach(ns, a);
    if l == [] {
      AloneIsMerged(r, ns, a);
      return;
    }
    var i := |l| - 1;
    ghost var p := MergingStart(r, ns, l, a);
    while i > 0
      invariant 0 <= i && Merging(r, ns, l, i, a, p, e)
      invariant Record(r) && Ns(r) == PartlyMerged(ns, p, e)
    {
      p := ResolveStep(l, i, r, ns, a, p, e);
      i := i - 1;
    }
    MergingEnd(r, ns, l, a, p);
  }

  lemma MergingEnd(r: seq<Var>, ns: seq<nat>, l: seq<Var>, a: nat, p: nat)
    requires Fitting(ns) && Header(ns, a) && Merging(r, ns, l, 0, a, p, Reach(ns, a))
    ensures Reach(ns, a) <= |ns| && PartlyMerged(ns, p, Reach(ns, a)) == Merged8(ns, a)
  {
    assert |l[..1]| == 1;
    FirstListed(r, ns, a, p);
  }

  lemma MergingStart(r: seq<Var>, ns: seq<nat>, l: seq<Var>, a: nat) returns (p: nat)
    requires |r| == |ns| && Fitting(ns) && Header(ns, a) && l != [] && l == WithCluster(r, ns, a, a, a)
    ensures p < |ns| && Reach(ns, a) <= |ns|
    ensures Merging(r, ns, l, |l| - 1, a, p, Reach(ns, a)) && PartlyMerged(ns, p, Reach(ns, a)) == ns
  {
    ReachIs(ns, a);
    var e := Reach(ns, a);
    p := LastListed(r, ns, a, e);
    assert l[..|l| - 1 + 1] == l;
    NothingMerged(ns, p, e);
  }

  lemma {:induction false} FirstListed(r: seq<Var>, ns: seq<nat>, a: nat, p: nat)
    requires p <= |r| == |ns| && a <= p && Header(ns, a) && HeadersIn(r, ns, a, p) == []
    ensures a == p
  {
    if a < p {
      FirstListed(r, ns, a, p - 1);
    }
  }

  lemma AloneIsMerged(r: seq<Var>, ns: seq<nat>, a: nat)
    requires Fitting(ns) && Header(ns, a) && |r| == |ns| && WithCluster(r, ns, a, a, a) == []
    ensures Merged8(ns, a) == ns
  {
    ReachIs(ns, a);
    if !NoInner(ns, a, a + ns[a]) {
      FirstListed(r, ns, a, Reach(ns, a));
    }
    assert IsReach(ns, a, a + ns[a]);
    ReachUnique(ns, a, Reach(ns, a), a + ns[a]);
    NothingMerged(ns, a, a + ns[a]);
  }

  // ---------------------------------------------------------------- clusters that fit the 8-bit field

  /** The largest end of the window of `p` and of those that start in `[q, e)`. */
  ghost function MaxEnd(ns: seq<nat>, p: nat, q: nat, e: nat): nat
    requires p < q && p < |ns| && e <= |ns|
    decreases e - q
  {
    if q >= e then p + ns[p]
    else if Header(ns, q) then Max(p + ns[p], MaxEnd(ns, q, q + 1, e))
    else MaxEnd(ns, p, q + 1, e)
  }

  lemma {:induction false} MaxEndIsLargest(ns: seq<nat>, p: nat, q: nat, e: nat, k: nat)
    requires p < q && p < |ns| && e <= |ns| && (k == p || (q <= k < e && Header(ns, k)))
    ensures k + ns[k] <= MaxEnd(ns, p, q, e)
    decreases e - q
  {
    if q < e {
      if Header(ns, q) {
        if k != p {
          MaxEndIsLargest(ns, q, q + 1, e, k);
        }
      } else {
        MaxEndIsLargest(ns, p, q + 1, e, k);
      }
    }
  }

  /** Widths are cut, never stretched. */
  lemma {:induction false} WidthFits(ns: seq<nat>, p: nat, q: nat, e: nat)
    requires Fitting(ns) && Header(ns, p) && p < q && e <= |ns|
    ensures p + Width8(ns, p, q, e) <= |ns|
    decreases e - q
  {
    if q < e {
      if Header(ns, q) {
        WidthFits(ns, q, q + 1, e);
      } else {
        WidthFits(ns, p, q + 1, e);
      }
    }
  }

  /** As long as a cluster is narrower than 256, a width reaches the largest end. */
  lemma {:induction false} WidthReaches(ns: seq<nat>, p: nat, q: nat, e: nat)
    requires Header(ns, p) && p < q && e <= |ns| && e - p < 256
    requires forall k: nat :: p <= k < e && Header(ns, k) ==> k + ns[k] <= e
    requires p + ns[p] <= e
    ensures MaxEnd(ns, p, q, e) <= e && p + Width8(ns, p, q, e) == MaxEnd(ns, p, q, e)
    decreases e - q
  {
    if q < e {
      if Header(ns, q) {
        WidthReaches(ns, q, q + 1, e);
      } else {
        WidthReaches(ns, p, q + 1, e);
      }
    }
  }

  /** A cluster narrower than 256 is merged without loss. */
  lemma NarrowMerge(ns: seq<nat>, a: nat)
    requires Fitting(ns) && Header(ns, a) && Reach(ns, a) - a < 256
    ensures Merged8(ns, a) == Merged(ns, a)
  {
    hide Width8, MaxEnd;
    ReachIs(ns, a);
    var e := Reach(ns, a);
    WidthReaches(ns, a, a + 1, e);
    assert Bridged(ns, a, e - 1);
    var k: nat :| a <= k < e - 1 && Header(ns, k) && e - 1 < k + ns[k];
    MaxEndIsLargest(ns, a, a + 1, e, k);
  }

  // ---------------------------------------------------------------- resolving all headers

  ghost predicate Apart(recs: seq<seq<Var>>) {
    forall i, j, x, y :: 0 <= i < |recs| && 0 <= j < |recs| && i != j && 0 <= x < |recs[i]| && 0 <= y < |recs[j]| ==>
      recs[i][x] != recs[j][y]
  }

  /** A state on the way from the numbers `ns0` to the resolved ones. */
  ghost predicate OnTheWay(ns0: seq<nat>, ns: seq<nat>) {
    && |ns| == |ns0| && Fitting(ns0) && Fitting(ns)
    && Resolved(ns) == Resolved(ns0)
    && (forall k: nat :: Header(ns, k) ==> Header(ns0, k))
    && (forall k: nat :: Header(ns0, k) ==> Header(ns, k) || ns[k] == 0)
  }

  /** Every resolved window fits the 8-bit field that holds its width. */
  ghost predicate Narrow(ns0: seq<nat>)
    requires Fitting(ns0)
  {
    forall p: nat :: p < |ns0| ==> Resolved(ns0)[p] < 256
  }

  lemma ClusterIsNarrow(ns0: seq<nat>, ns: seq<nat>, p: nat)
    requires OnTheWay(ns0, ns) && Narrow(ns0) && Header(ns, p)
    ensures Reach(ns, p) - p < 256
  {
    var a := WindowSurvives(ns, p);
    ReachIs(ns, a);
    ReachIs(ns, p);
    InnerReach(ns, a, p);
    assert Resolved(ns)[a] == Reach(ns, a) - a;
    assert Resolved(ns0)[a] < 256;
  }

  // ---------------------------------------------------------------- visiting the headers, in 8 bits

  lemma MergedFits(ns: seq<nat>, a: nat)
    requires Fitting(ns) && Header(ns, a)
    ensures Fitting(Merged8(ns, a))
  {
    ReachIs(ns, a);
    var m := Merged8(ns, a);
    forall p: nat | Header(m, p)
      ensures p + m[p] <= |m|
    {
      if p == a {
        WidthFits(ns, a, a + 1, Reach(ns, a));
      } else {
        assert m[p] == ns[p] && Header(ns, p);
      }
    }
  }

  /** The numbers after the header at `h` has been visited. */
  ghost function Visited8(ns: seq<nat>, h: nat): (r: seq<nat>)
    requires Fitting(ns) && h < |ns|
    ensures |r| == |ns| && Fitting(r)
  {
    if Header(ns, h) then (MergedFits(ns, h); Merged8(ns, h)) else ns
  }

  /** The numbers after the headers at `ps` have been visited in this order. */
  ghost function VisitedAll(ns: seq<nat>, ps: seq<nat>): (r: seq<nat>)
    requires Fitting(ns) && forall i :: 0 <= i < |ps| ==> ps[i] < |ns|
    ensures |r| == |ns| && Fitting(r)
  {
    if ps == [] then ns else Visited8(VisitedAll(ns, ps[..|ps| - 1]), ps[|ps| - 1])
  }

  /** Resolves the overlaps of the cluster that the header at `p` starts, unless it has been merged already; a
      number of 1, which only wrap-around leaves, stands for an empty search. */
  method ResolveHeader(h: Var, ghost r: seq<Var>, ghost ns: seq<nat>, ghost p: nat)
    requires Record(r) && p < |r| && r[p] == h && ns == Ns(r) && Fitting(ns)
    modifies (set v | v in r)`n
    ensures Ns(r) == Visited8(ns, p)
  {
    hide Ns;
    assert h.n == ns[p];
    if h.n <= 1 {
      return;
    }
    var found := FindOverlaps([], h, r, ns, p, p, p);
    ResolveOverlaps(found, r, ns, p);
  }

  lemma VisitOnTheWay(ns0: seq<nat>, ns: seq<nat>, p: nat)
    requires OnTheWay(ns0, ns) && Narrow(ns0) && Header(ns0, p)
    ensures OnTheWay(ns0, Visited8(ns, p)) && Settled(Visited8(ns, p), p)
    ensures forall k: nat :: Settled(ns, k) ==> Settled(Visited8(ns, p), k)
  {
    VisitSettles(ns, p);
    if Header(ns, p) {
      ClusterIsNarrow(ns0, ns, p);
      NarrowMerge(ns, p);
    }
  }

  /** When all clusters fit the 8-bit field, the order in which the headers are visited does not matter: each record
      ends with its resolved windows. */
  lemma AnyOrderResolves(ns: seq<nat>, ps: seq<nat>)
    requires Fitting(ns) && Narrow(ns)
    requires forall i :: 0 <= i < |ps| ==> Header(ns, ps[i])
    requires forall p: nat :: Header(ns, p) ==> p in ps
    ensures VisitedAll(ns, ps) == Resolved(ns)
  {
    hide VisitedAll, Resolved;
    VisitsSettle(ns, ps);
    SettledIsResolved(VisitedAll(ns, ps));
  }

  lemma {:induction false} VisitsSettle(ns: seq<nat>, ps: seq<nat>)
    requires Fitting(ns) && Narrow(ns) && forall i :: 0 <= i < |ps| ==> Header(ns, ps[i])
    ensures OnTheWay(ns, VisitedAll(ns, ps)) && forall p :: p in ps ==> Settled(VisitedAll(ns, ps), p)
    decreases |ps|
  {
    hide Visited8, Resolved;
    if ps != [] {
      var before := VisitedAll(ns, ps[..|ps| - 1]);
      VisitsSettle(ns, ps[..|ps| - 1]);
      VisitOnTheWay(ns, before, ps[|ps| - 1]);
    }
  }
}
