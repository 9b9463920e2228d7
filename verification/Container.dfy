/** The bytecode container: how a tree of prototypes becomes bytes, and what a reader with an explicit stack of
    prototypes makes of any bytes. */
module Container {
  import opened Basics
  import opened Uleb
  import opened Constants
  import opened DebugInfo

  // ---------------------------------------------------------------- what is written

  datatype Const = CStr(str: seq<byte>) | CTab(table: Table) | CChild(proto: Proto)

  datatype Proto = Proto(flags: byte, numparams: byte, framesize: byte, code: seq<u32>, upvals: seq<u16>,
                         consts: seq<Const>, nums: seq<Num>, debug: Debug)

  /** The settings of a writer: whether debug sections are left out, the byte order of the host, and which
      doubles have the value of an integer. */
  datatype Mode = Mode(stripped: bool, big: bool, narrow: Narrow)

  const KGC_CHILD: nat := 0
  const KGC_TAB: nat := 1
  const KGC_STR: nat := 5

  /** The fields in front of a prototype's body. */
  datatype Header = Header(flags: byte, numparams: byte, framesize: byte, sizeuv: byte,
                           sizekgc: u32, sizekn: u32, sizebc: u32, sizedbg: u32, firstline: u32, numline: u32)

  function EncHeader(h: Header, stripped: bool): seq<byte> {
    [h.flags, h.numparams, h.framesize, h.sizeuv] + (Enc(h.sizekgc) + (Enc(h.sizekn) + (Enc(h.sizebc)
    + EncDebugHeader(h, stripped))))
  }

  function EncDebugHeader(h: Header, stripped: bool): seq<byte> {
    if stripped then []
    else Enc(h.sizedbg) + if h.sizedbg == 0 then [] else Enc(h.firstline) + Enc(h.numline)
  }

  function DecHeader(s: seq<byte>, stripped: bool): (r: (Header, seq<byte>))
    ensures |r.1| <= |s|
  {
    var (flags, s1) := Head(s);
    var (numparams, s2) := Head(s1);
    var (framesize, s3) := Head(s2);
    var (sizeuv, s4) := Head(s3);
    var (sizekgc, s5) := DecWord(s4);
    var (sizekn, s6) := DecWord(s5);
    var (sizebc, s7) := DecWord(s6);
    var (sizedbg, firstline, numline, s8) := DecDebugHeader(s7, stripped);
    (Header(flags, numparams, framesize, sizeuv, sizekgc, sizekn, sizebc, sizedbg, firstline, numline), s8)
  }

  function DecDebugHeader(s: seq<byte>, stripped: bool): (r: (u32, u32, u32, seq<byte>))
    ensures |r.3| <= |s|
  {
    var (sizedbg, s1) := if stripped then (0, s) else DecWord(s);
    var (firstline, s2) := if sizedbg == 0 then (0, s1) else DecWord(s1);
    var (numline, s3) := if sizedbg == 0 then (0, s2) else DecWord(s2);
    (sizedbg, firstline, numline, s3)
  }

  /** A header as the writer makes it. */
  predicate Proper(h: Header, stripped: bool) {
    && (stripped ==> h.sizedbg == 0)
    && (h.sizedbg == 0 ==> h.firstline == 0 && h.numline == 0)
  }

  lemma DebugHeaderRoundTrip(h: Header, stripped: bool, rest: seq<byte>)
    requires Proper(h, stripped)
    ensures DecDebugHeader(EncDebugHeader(h, stripped) + rest, stripped) == (h.sizedbg, h.firstline, h.numline, rest)
  {
    hide Enc, DecWord;
    if stripped {
      assert [] + rest == rest;
    } else if h.sizedbg == 0 {
      assert Enc(h.sizedbg) + [] + rest == Enc(h.sizedbg) + rest;
      WordRoundTrip(h.sizedbg, rest);
    } else {
      var s1 := Enc(h.numline) + rest;
      assert EncDebugHeader(h, stripped) + rest == Enc(h.sizedbg) + (Enc(h.firstline) + s1);
      WordRoundTrip(h.sizedbg, Enc(h.firstline) + s1);
      WordRoundTrip(h.firstline, s1);
      WordRoundTrip(h.numline, rest);
    }
  }

  lemma HeaderRoundTrip(h: Header, stripped: bool, rest: seq<byte>)
    requires Proper(h, stripped)
    ensures DecHeader(EncHeader(h, stripped) + rest, stripped) == (h, rest)
  {
    hide Enc, DecWord, EncDebugHeader, DecDebugHeader;
    var s7 := EncDebugHeader(h, stripped) + rest;
    var s6 := Enc(h.sizebc) + s7;
    var s5 := Enc(h.sizekn) + s6;
    var s4 := Enc(h.sizekgc) + s5;
    assert EncHeader(h, stripped) + rest == [h.flags, h.numparams, h.framesize, h.sizeuv] + s4;
    DebugHeaderRoundTrip(h, stripped, rest);
    WordRoundTrip(h.sizebc, s7);
    WordRoundTrip(h.sizekn, s6);
    WordRoundTrip(h.sizekgc, s5);
  }

  // ---------------------------------------------------------------- code and upvalue words

  function EncCode(code: seq<u32>, big: bool): seq<byte> {
    if code == [] then [] else Bytes4(code[0], big) + EncCode(code[1..], big)
  }

  function EncUpvals(upvals: seq<u16>, big: bool): seq<byte> {
    if upvals == [] then [] else Bytes2(upvals[0], big) + EncUpvals(upvals[1..], big)
  }

  function Zeros(n: nat): (z: seq<int>)
    ensures |z| == n && forall i :: 0 <= i < n ==> z[i] == 0
  {
    seq(n, i => 0)
  }

  /** A list of `n` words; those missing at the end of the input are zero. */
  function DecCode(n: nat, s: seq<byte>, flag: bool): (r: (seq<u32>, seq<byte>))
    ensures |r.1| <= |s|
  {
    if n == 0 then ([], s)
    else if |s| < 4 then (Zeros(n), [])
    else
      var (l, rest) := DecCode(n - 1, s[4..], flag);
      ([Word4(s[..4], flag)] + l, rest)
  }

  /** The words of the input are read in order; where it ends, zeros follow. */
  lemma {:induction false} MissingWordsAreZero(n: nat, s: seq<byte>, flag: bool)
    ensures |DecCode(n, s, flag).0| == n
    ensures forall i :: 0 <= i < n ==>
              DecCode(n, s, flag).0[i] == if 4 * i + 4 <= |s| then Word4(s[4 * i..4 * i + 4], flag) else 0
    decreases n
  {
    hide Word4;
    if n > 0 && |s| >= 4 {
      var t := s[4..];
      MissingWordsAreZero(n - 1, t, flag);
      forall i | 0 < i < n && 4 * i + 4 <= |s|
        ensures s[4 * i..4 * i + 4] == t[4 * (i - 1)..4 * (i - 1) + 4]
      {
      }
    }
  }

  function DecUpvals(n: nat, s: seq<byte>, flag: bool): (r: (seq<u16>, seq<byte>))
    ensures |r.1| <= |s|
  {
    if n == 0 then ([], s)
    else if |s| < 2 then (Zeros(n), [])
    else
      var (l, rest) := DecUpvals(n - 1, s[2..], flag);
      ([Word2(s[..2], flag)] + l, rest)
  }

  lemma {:induction false} CodeRoundTrip(code: seq<u32>, big: bool, rest: seq<byte>)
    ensures DecCode(|code|, EncCode(code, big) + rest, big) == (code, rest)
  {
    hide Bytes4, Word4;
    if code == [] {
      assert [] + rest == rest;
    } else {
      var b, tail := Bytes4(code[0], big), EncCode(code[1..], big) + rest;
      var s := EncCode(code, big) + rest;
      assert s == b + tail;
      Word4RoundTrip(code[0], big);
      assert s[..4] == b && s[4..] == tail;
      CodeRoundTrip(code[1..], big, rest);
      assert [code[0]] + code[1..] == code;
    }
  }

  lemma {:induction false} UpvalsRoundTrip(upvals: seq<u16>, big: bool, rest: seq<byte>)
    ensures DecUpvals(|upvals|, EncUpvals(upvals, big) + rest, big) == (upvals, rest)
  {
    hide Bytes2, Word2;
    if upvals == [] {
      assert [] + rest == rest;
    } else {
      var b, tail := Bytes2(upvals[0], big), EncUpvals(upvals[1..], big) + rest;
      var s := EncUpvals(upvals, big) + rest;
      assert s == b + tail;
      Word2RoundTrip(upvals[0], big);
      assert s[..2] == b && s[2..] == tail;
      UpvalsRoundTrip(upvals[1..], big, rest);
      assert [upvals[0]] + upvals[1..] == upvals;
    }
  }

  // ---------------------------------------------------------------- what is read

  /** A constant as it is read; a nested prototype is known by its number. */
  datatype Item = Nothing | IStr(str: seq<byte>) | ITab(table: Loaded) | IChild(id: nat)

  datatype Func = Func(id: nat, flags: byte, numparams: byte, framesize: byte, code: seq<u32>, upvals: seq<u16>,
                       consts: seq<Item>, nums: seq<Num>, debug: Debug, outer: Option<nat>)

  /** All prototypes read so far, numbered by position, and the stack of those without an enclosing one. */
  datatype Reader = Reader(funcs: seq<Func>, fstack: seq<nat>)

  ghost predicate Sound(r: Reader) {
    forall i :: 0 <= i < |r.fstack| ==> r.fstack[i] < |r.funcs|
  }

  /** A reference to a nested prototype takes the top of the stack and becomes its enclosing function, unless
      it has one already. */
  function TakeChild(r: Reader, id: nat): (res: (Item, Reader))
    requires Sound(r)
    ensures Sound(res.1) && |res.1.funcs| == |r.funcs|
  {
    if r.fstack == [] then (Nothing, r)
    else
      var top := r.fstack[|r.fstack| - 1];
      var f := r.funcs[top];
      var funcs := if f.outer.Some? then r.funcs else r.funcs[top := f.(outer := Some(id))];
      (IChild(top), Reader(funcs, r.fstack[..|r.fstack| - 1]))
  }

  function DecItem(r: Reader, id: nat, s: seq<byte>): (res: (Item, Reader, seq<byte>))
    requires Sound(r)
    ensures Sound(res.1) && |res.1.funcs| == |r.funcs| && |res.2| <= |s|
  {
    var (tp, s1) := DecWord(s);
    if tp >= KGC_STR then
      var (str, s2) := Cut(tp - KGC_STR, s1);
      (IStr(str), r, s2)
    else if tp == KGC_TAB then
      var (t, s2) := DecTable(s1);
      (ITab(t), r, s2)
    else if tp != KGC_CHILD then (Nothing, r, s1)
    else
      var (item, r1) := TakeChild(r, id);
      (item, r1, s1)
  }

  function DecItems(n: nat, r: Reader, id: nat, s: seq<byte>): (res: (seq<Item>, Reader, seq<byte>))
    requires Sound(r)
    ensures Sound(res.1) && |res.1.funcs| == |r.funcs| && |res.2| <= |s|
    decreases n
  {
    if n == 0 then ([], r, s)
    else
      var (item, r1, s1) := DecItem(r, id, s);
      var (items, r2, s2) := DecItems(n - 1, r1, id, s1);
      ([item] + items, r2, s2)
  }

  /** The debug section of a prototype. */
  function DecDebug(h: Header, s: seq<byte>, flag: bool): (r: (Debug, seq<byte>))
    ensures |r.1| <= |s|
  {
    if h.sizedbg == 0 then (Debug(h.firstline, h.numline, [], [], []), s)
    else
      var sizeli := h.sizebc * Width(h.numline);
      var (lines, s1) := DecLineTable(s, sizeli, h.sizebc, h.numline, h.firstline, flag);
      var len := if h.sizedbg > sizeli then h.sizedbg - sizeli else 0;
      var (buf, s2) := Cut(len, s1);
      var (ups, vars) := if len == 0 then ([], []) else DecNames(buf, h.sizeuv);
      (Debug(h.firstline, h.numline, lines, ups, vars), s2)
  }

  /** The body of a prototype after its header; the prototype joins the list and the stack. */
  function DecBody(h: Header, r: Reader, s: seq<byte>, flag: bool): (res: (Reader, seq<byte>))
    requires Sound(r)
    ensures Sound(res.0) && |res.1| <= |s|
  {
    var id := |r.funcs|;
    var (code, s1) := DecCode(h.sizebc, s, flag);
    var (upvals, s2) := DecUpvals(h.sizeuv, s1, flag);
    var (items, r1, s3) := DecItems(h.sizekgc, r, id, s2);
    var (nums, s4) := DecNums(h.sizekn, s3);
    var (debug, s5) := DecDebug(h, s4, flag);
    var f := Func(id, h.flags, h.numparams, h.framesize, code, upvals, items, nums, debug, None);
    (Reader(r1.funcs + [f], r1.fstack + [id]), s5)
  }

  /** One prototype; a length of zero ends the input. The length is not used otherwise. */
  function DecFunction(r: Reader, s: seq<byte>, stripped: bool, flag: bool): (res: (bool, Reader, seq<byte>))
    requires Sound(r)
    ensures Sound(res.1) && (s != [] ==> |res.2| < |s|)
  {
    var (len, s0) := DecWord(s);
    if len == 0 then (false, r, s0)
    else
      var (h, s1) := DecHeader(s0, stripped);
      var (r1, s2) := DecBody(h, r, s1, flag);
      (true, r1, s2)
  }

  /** Prototypes up to the end of the input or a length of zero. */
  function DecAll(r: Reader, s: seq<byte>, stripped: bool, flag: bool): (res: (Reader, seq<byte>))
    requires Sound(r)
    ensures Sound(res.0)
    decreases |s|
  {
    if s == [] then (r, [])
    else
      var (ok, r1, s1) := DecFunction(r, s, stripped, flag);
      if ok then DecAll(r1, s1, stripped, flag) else (r1, s1)
  }

  // ---------------------------------------------------------------- the writer

  function EncConst(c: Const, narrow: Narrow): seq<byte> {
    match c
    case CStr(str) => Enc(KGC_STR + |str|) + str
    case CTab(table) => Enc(KGC_TAB) + EncTable(NarrowedTable(table, narrow))
    case CChild(_) => Enc(KGC_CHILD)
  }

  function EncConsts(l: seq<Const>, narrow: Narrow): seq<byte> {
    if l == [] then [] else EncConst(l[0], narrow) + EncConsts(l[1..], narrow)
  }

  predicate HasChild(l: seq<Const>) {
    l != [] && (l[0].CChild? || HasChild(l[1..]))
  }

  /** The flags a file can hold, with the one for nested prototypes set as needed. */
  function FlagsOf(p: Proto): byte {
    var known := p.flags % 8;
    if HasChild(p.consts) && known % 2 == 0 then known + 1 else known
  }

  function DebugBytes(p: Proto, m: Mode): seq<byte> {
    if m.stripped then [] else EncDebug(p.debug, m.big)
  }

  function EncBody(p: Proto, m: Mode): seq<byte> {
    EncCode(p.code, m.big) + (EncUpvals(p.upvals, m.big) + (EncConsts(p.consts, m.narrow)
    + (EncNums(NarrowedAll(p.nums, m.narrow)) + DebugBytes(p, m))))
  }

  /** The sizes fit into the fields of the header. */
  predicate FitSizes(p: Proto, m: Mode) {
    && |p.upvals| < 0x100 && |p.consts| < WORD && |p.nums| < WORD && |p.code| < WORD && |DebugBytes(p, m)| < WORD
  }

  function HeaderOf(p: Proto, m: Mode): (h: Header)
    requires FitSizes(p, m)
    ensures Proper(h, m.stripped)
  {
    Header(FlagsOf(p), p.numparams, p.framesize, |p.upvals|, |p.consts|, |p.nums|, |p.code|, |DebugBytes(p, m)|,
           if m.stripped then 0 else p.debug.firstline, if m.stripped then 0 else p.debug.numline)
  }

  function EncRecord(p: Proto, m: Mode): seq<byte>
    requires FitSizes(p, m)
  {
    EncHeader(HeaderOf(p, m), m.stripped) + EncBody(p, m)
  }

  predicate FitConst(c: Const) {
    match c
    case CStr(str) => Short(str)
    case CTab(table) => FitTable(table)
    case CChild(_) => true
  }

  /** A prototype the format can hold, apart from nested ones: one line for every instruction and one name for
      every upvalue if there is debug information. */
  predicate FitHere(p: Proto, m: Mode) {
    && FitSizes(p, m) && |EncRecord(p, m)| < WORD
    && (forall c :: c in p.consts ==> FitConst(c))
    && (!m.stripped ==> FitDebug(p.debug) && |p.debug.lines| == |p.code| && |p.debug.upNames| == |p.upvals|)
  }

  predicate FitInside(c: Const, m: Mode)
    decreases c, 0
  {
    c.CChild? ==> Fit(c.proto, m)
  }

  predicate Fit(p: Proto, m: Mode)
    decreases p, 1
  {
    FitHere(p, m) && FitAll(p.consts, m)
  }

  predicate FitAll(l: seq<Const>, m: Mode)
    decreases l, 2
  {
    l != [] ==> FitInside(l[0], m) && FitAll(l[1..], m)
  }

  /** Nested prototypes come first, from the last constant to the first one. */
  function EncProto(p: Proto, m: Mode): seq<byte>
    requires Fit(p, m)
    decreases p, 1
  {
    EncNested(p.consts, m) + (Enc(|EncRecord(p, m)|) + EncRecord(p, m))
  }

  function EncChild(c: Const, m: Mode): seq<byte>
    requires FitInside(c, m)
    decreases c, 0
  {
    if c.CChild? then EncProto(c.proto, m) else []
  }

  function EncNested(l: seq<Const>, m: Mode): seq<byte>
    requires FitAll(l, m)
    decreases l, 2
  {
    if l == [] then [] else EncNested(l[1..], m) + EncChild(l[0], m)
  }

  // ---------------------------------------------------------------- the file

  const HEAD1: byte := 0x1b
  const HEAD2: byte := 0x4c
  const HEAD3: byte := 0x4a
  const VERSION: byte := 1
  const F_BE: nat := 1
  const F_STRIP: nat := 2
  const F_FFI: nat := 4

  function FileFlags(m: Mode): byte {
    (if m.stripped then F_STRIP else 0) + (if m.big then F_BE else 0)
  }

  function EncFileHeader(name: seq<byte>, m: Mode): seq<byte> {
    [HEAD1, HEAD2, HEAD3, VERSION, FileFlags(m)] + if m.stripped then [] else Enc(|name|) + name
  }

  function EncFile(name: seq<byte>, p: Proto, m: Mode): seq<byte>
    requires Fit(p, m)
  {
    EncFileHeader(name, m) + EncProto(p, m) + [0]
  }

  /** What is known after the header of a file. */
  datatype FileHeader = FileHeader(stripped: bool, flag: bool, name: seq<byte>)

  function DecFileHeader(s: seq<byte>): (Option<FileHeader>, seq<byte>) {
    var (magic, s1) := Cut(4, s);
    if magic != [HEAD1, HEAD2, HEAD3, VERSION] then (None, s1)
    else
      var (flags, s2) := DecWord(s1);
      var stripped := flags / F_STRIP % 2 == 1;
      if flags >= 2 * F_FFI || flags / F_FFI % 2 == 1 then (None, s2)
      else if stripped then (Some(FileHeader(true, flags % 2 == 1, [])), s2)
      else
        var (len, s3) := DecWord(s2);
        var (name, s4) := Cut(len, s3);
        (Some(FileHeader(false, flags % 2 == 1, name)), s4)
  }

  /** The prototypes of a file, or nothing if its header is refused. */
  function DecFile(s: seq<byte>): (Option<(FileHeader, Reader)>, seq<byte>) {
    var (h, s1) := DecFileHeader(s);
    if h.None? then (None, s1)
    else
      var (r, s2) := DecAll(Reader([], []), s1, h.value.stripped, h.value.flag);
      (Some((h.value, r)), s2)
  }

  /** A file is accepted if and only if it starts with the signature and version 1 of the format and has no flags
      but those for the byte order and for left out debug information. */
  lemma HeaderAcceptedExactly(s: seq<byte>)
    ensures DecFileHeader(s).0.Some? <==>
            |s| >= 4 && s[0] == 0x1b && s[1] == 0x4c && s[2] == 0x4a && s[3] == 1 && DecWord(s[4..]).0 < 4
  {
    hide DecWord;
    if |s| >= 4 {
      assert s[..4] == [s[0], s[1], s[2], s[3]];
    }
  }

  /** What is no constant: an unknown type, of which nothing is read, or a nested prototype that is not there. */
  lemma NoConstant(r: Reader, id: nat, s: seq<byte>)
    requires Sound(r)
    ensures var (tp, rest) := DecWord(s);
            && (1 < tp < 5 ==> DecItem(r, id, s) == (Nothing, r, rest))
            && (tp == 0 && r.fstack == [] ==> DecItem(r, id, s) == (Nothing, r, rest))
            && (DecItem(r, id, s).0 == Nothing ==> 1 < tp < 5 || (tp == 0 && r.fstack == []))
  {
    hide DecWord, DecTable;
  }
}
