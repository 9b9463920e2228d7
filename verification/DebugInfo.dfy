/** Machine words in the byte order of a host, and the debug section of a prototype: a line table in one of
    three widths, the upvalue names, and the delta-coded ranges of the local variables. */
module DebugInfo {
  import opened Basics
  import opened Uleb
  import opened Constants

  // ---------------------------------------------------------------- words of two and four bytes

  function Bytes2(w: u16, big: bool): (b: seq<byte>)
    ensures |b| == 2
  {
    var high: int, low: int := w / 0x100, w % 0x100;
    if big then [high, low] else [low, high]
  }

  function Bytes4(w: u32, big: bool): (b: seq<byte>)
    ensures |b| == 4
  {
    if big then Bytes2(w / 0x1_0000, big) + Bytes2(w % 0x1_0000, big)
    else Bytes2(w % 0x1_0000, big) + Bytes2(w / 0x1_0000, big)
  }

  /** The word that a host of the given byte order finds in memory. */
  function Word2(b: seq<byte>, big: bool): u16
    requires |b| == 2
  {
    var first: int, second: int := b[0], b[1];
    if big then 0x100 * first + second else first + 0x100 * second
  }

  function Word4(b: seq<byte>, big: bool): u32
    requires |b| == 4
  {
    if big then 0x1_0000 * Word2(b[..2], big) + Word2(b[2..], big)
    else Word2(b[..2], big) + 0x1_0000 * Word2(b[2..], big)
  }

  function Swapped2(w: u16): u16 { Word2(Bytes2(w, true), false) }

  function Swapped4(w: u32): u32 { Word4(Bytes4(w, true), false) }

  lemma Word2RoundTrip(w: u16, big: bool)
    ensures Word2(Bytes2(w, big), big) == w
  {
  }

  lemma Word4RoundTrip(w: u32, big: bool)
    ensures Word4(Bytes4(w, big), big) == w
  {
    var b := Bytes4(w, big);
    var first, second := if big then w / 0x1_0000 else w % 0x1_0000, if big then w % 0x1_0000 else w / 0x1_0000;
    assert b[..2] == Bytes2(first, big) && b[2..] == Bytes2(second, big);
    Word2RoundTrip(first, big);
    Word2RoundTrip(second, big);
  }

  lemma Bytes2RoundTrip(b: seq<byte>, big: bool)
    requires |b| == 2
    ensures Bytes2(Word2(b, big), big) == b
  {
  }

  /** Reading in host order and swapping is reading in the other order. */
  lemma SwapIsOtherOrder2(b: seq<byte>, host: bool)
    requires |b| == 2
    ensures Swapped2(Word2(b, host)) == Word2(b, !host)
  {
    Bytes2RoundTrip(b, host);
    var w := Word2(b, host);
  }

  lemma SwapIsOtherOrder4(b: seq<byte>, host: bool)
    requires |b| == 4
    ensures Swapped4(Word4(b, host)) == Word4(b, !host)
  {
    var x, y := Word2(b[..2], host), Word2(b[2..], host);
    var high: u16 := if host then x else y;
    var low: u16 := if host then y else x;
    var w := Word4(b, host);
    assert w == 0x1_0000 * high + low;
    Halves(w, high, low);
    assert Bytes4(w, true)[..2] == Bytes2(high, true) && Bytes4(w, true)[2..] == Bytes2(low, true);
    SwapIsOtherOrder2(b[..2], host);
    SwapIsOtherOrder2(b[2..], host);
  }

  lemma Halves(w: u32, high: u16, low: u16)
    requires w == 0x1_0000 * high + low
    ensures w / 0x1_0000 == high && w % 0x1_0000 == low
  {
  }

  /** A stored word: `flag` is the byte order of the file, `host` that of the reader. */
  method LoadWord2(b: seq<byte>, host: bool, flag: bool) returns (w: u16)
    requires |b| == 2
    ensures w == Word2(b, flag)
  {
    w := Word2(b, host);
    if flag != host {
      SwapIsOtherOrder2(b, host);
      w := Swapped2(w);
    }
  }

  method LoadWord4(b: seq<byte>, host: bool, flag: bool) returns (w: u32)
    requires |b| == 4
    ensures w == Word4(b, flag)
  {
    w := Word4(b, host);
    if flag != host {
      SwapIsOtherOrder4(b, host);
      w := Swapped4(w);
    }
  }

  // ---------------------------------------------------------------- line tables

  /** The bytes of one entry of a line table, by the number of lines of the function. */
  function Width(numline: u32): nat {
    if numline < 0x100 then 1 else if numline < 0x1_0000 then 2 else 4
  }

  /** The reader passes the number of lines as a signed value. */
  function ReaderWidth(numline: u32): nat {
    if numline >= TOP then 1 else Width(numline)
  }

  /** A table has the smallest of the three widths in which the number of lines itself fits. */
  lemma WidthIsLeast(numline: u32, w: nat)
    ensures Width(numline) == w <==>
            || (w == 1 && numline < Pow2(8))
            || (w == 2 && Pow2(8) <= numline < Pow2(16))
            || (w == 4 && Pow2(16) <= numline < Pow2(32))
  {
    Powers();
  }

  lemma Powers()
    ensures Pow2(8) == 0x100 && Pow2(16) == 0x1_0000 && Pow2(32) == 0x1_0000_0000
  {
    assert Pow2(0) == 1;
    hide Pow2;
    FourMore(0);
    FourMore(4);
    FourMore(8);
    FourMore(12);
    FourMore(16);
    FourMore(20);
    FourMore(24);
    FourMore(28);
  }

  lemma FourMore(n: nat)
    ensures Pow2(n + 4) == 0x10 * Pow2(n)
  {
    assert Pow2(n + 4) == 2 * Pow2(n + 3) == 4 * Pow2(n + 2) == 8 * Pow2(n + 1);
  }

  function Offset(line: u32, firstline: u32): u32 {
    if line == 0 then 0 else (line - firstline) % WORD
  }

  function EncEntry(v: u32, width: nat, big: bool): seq<byte> {
    if width == 1 then [v % 0x100] else if width == 2 then Bytes2(v % 0x1_0000, big) else Bytes4(v, big)
  }

  function EncLines(lines: seq<u32>, firstline: u32, width: nat, big: bool): seq<byte> {
    if lines == [] then []
    else EncEntry(Offset(lines[0], firstline), width, big) + EncLines(lines[1..], firstline, width, big)
  }

  function DecEntry(b: seq<byte>, width: nat, flag: bool): u32
    requires |b| == width && width in {1, 2, 4}
  {
    if width == 1 then b[0] else if width == 2 then Word2(b, flag) else Word4(b, flag)
  }

  /** The size of a table. */
  function TableSize(n: nat, width: nat): nat { n * width }

  function DecLines(n: nat, buf: seq<byte>, firstline: u32, width: nat, flag: bool): (lines: seq<u32>)
    requires |buf| >= TableSize(n, width) && width in {1, 2, 4}
    ensures |lines| == n
  {
    if n == 0 then []
    else
      assert n * width == (n - 1) * width + width;
      [(DecEntry(buf[..width], width, flag) + firstline) % WORD] + DecLines(n - 1, buf[width..], firstline, width, flag)
  }

  /** The line table that is read from a section, and the bytes after it. */
  function DecLineTable(s: seq<byte>, sizeli: nat, sizebc: nat, numline: u32, firstline: u32, flag: bool):
      (r: (seq<u32>, seq<byte>))
    requires sizeli == 0 || sizeli == sizebc * Width(numline)
    ensures |r.1| <= |s|
  {
    if sizeli == 0 then ([], s)
    else
      var (buf, rest) := Cut(sizeli, s);
      (if |buf| < sizeli then [] else DecLines(sizebc, buf, firstline, ReaderWidth(numline), flag), rest)
  }

  predicate LinesInRange(lines: seq<u32>, firstline: u32, numline: u32) {
    forall i :: 0 <= i < |lines| ==> firstline <= lines[i] < firstline + numline
  }

  lemma OffsetBack(line: u32, firstline: u32)
    requires firstline <= line
    ensures Offset(line, firstline) == line - firstline && (Offset(line, firstline) + firstline) % WORD == line
  {
  }

  lemma EntryRoundTrip(v: u32, numline: u32, big: bool)
    requires v < numline
    ensures var w := Width(numline);
            |EncEntry(v, w, big)| == w && DecEntry(EncEntry(v, w, big), w, big) == v
  {
    hide Word2, Word4, Bytes2, Bytes4;
    if Width(numline) == 2 {
      Word2RoundTrip(v, big);
    } else if Width(numline) == 4 {
      Word4RoundTrip(v, big);
    }
  }

  lemma {:induction false} LinesRoundTrip(lines: seq<u32>, firstline: u32, numline: u32, big: bool)
    requires LinesInRange(lines, firstline, numline)
    ensures var w := Width(numline);
            |EncLines(lines, firstline, w, big)| == |lines| * w &&
            DecLines(|lines|, EncLines(lines, firstline, w, big), firstline, w, big) == lines
  {
    hide Offset, DecEntry, EncEntry;
    var w := Width(numline);
    if lines != [] {
      var e := EncEntry(Offset(lines[0], firstline), w, big);
      var s := EncLines(lines, firstline, w, big);
      OffsetBack(lines[0], firstline);
      EntryRoundTrip(lines[0] - firstline, numline, big);
      LinesRoundTrip(lines[1..], firstline, numline, big);
      assert s[..w] == e && s[w..] == EncLines(lines[1..], firstline, w, big);
    }
  }

  /** The reader gets the lines back from a table at the head of a section, and leaves the rest. */
  predicate TableSurvives(lines: seq<u32>, firstline: u32, numline: u32, big: bool, rest: seq<byte>) {
    var w := Width(numline);
    var size := TableSize(|lines|, w);
    DecLineTable(EncLines(lines, firstline, w, big) + rest, size, |lines|, numline, firstline, big) == (lines, rest)
  }

  /** The line table at the head of a section is recovered in all three widths. */
  lemma LineTableRoundTrip(lines: seq<u32>, firstline: u32, numline: u32, big: bool, rest: seq<byte>)
    requires LinesInRange(lines, firstline, numline) && numline < TOP
    ensures TableSurvives(lines, firstline, numline, big, rest)
  {
    var w := Width(numline);
    LinesRoundTrip(lines, firstline, numline, big);
    CutApart(EncLines(lines, firstline, w, big), rest);
    if lines != [] {
      assert |lines| * w > 0;
    }
  }

  /** With 2^31 or more lines the signed comparison takes the table of words for one of bytes. */
  lemma HugeFunctionMisread(numline: u32)
    requires numline >= TOP
    ensures LinesInRange([256], 0, numline) && !TableSurvives([256], 0, numline, false, [])
  {
    assert EncLines([256], 0, 4, false) == Bytes4(256, false) + EncLines([], 0, 4, false) == [0, 1, 0, 0];
    assert Cut(4, [0, 1, 0, 0]).0 == [0, 1, 0, 0];
    assert DecLines(1, [0, 1, 0, 0], 0, 1, false) == [0] + DecLines(0, [0, 1, 0, 0][1..], 0, 1, false);
  }

  /** The number of lines of a function decides it: all its line tables are recovered if and only if it has less than
      2^31 lines. */
  lemma LineTablesExactly(numline: u32)
    ensures (forall lines, firstline, big, rest ::
               LinesInRange(lines, firstline, numline) ==> TableSurvives(lines, firstline, numline, big, rest))
            <==> numline < TOP
  {
    hide TableSurvives, LinesInRange;
    if numline < TOP {
      forall lines, firstline, big, rest | LinesInRange(lines, firstline, numline)
        ensures TableSurvives(lines, firstline, numline, big, rest)
      {
        LineTableRoundTrip(lines, firstline, numline, big, rest);
      }
    } else {
      HugeFunctionMisread(numline);
    }
  }

  // ---------------------------------------------------------------- names

  /** The range of instructions in which a named local variable is live. */
  datatype Var = Var(name: seq<byte>, startpc: u32, endpc: u32)

  const PAREN: byte := 40

  /** The six names of loop variables, which are stored as a code. */
  const FOR_NAMES: seq<seq<byte>> := [
    [],
    [40, 102, 111, 114, 32, 105, 110, 100, 101, 120, 41],
    [40, 102, 111, 114, 32, 108, 105, 109, 105, 116, 41],
    [40, 102, 111, 114, 32, 115, 116, 101, 112, 41],
    [40, 102, 111, 114, 32, 103, 101, 110, 101, 114, 97, 116, 111, 114, 41],
    [40, 102, 111, 114, 32, 115, 116, 97, 116, 101, 41],
    [40, 102, 111, 114, 32, 99, 111, 110, 116, 114, 111, 108, 41]
  ]

  const VARNAME_MAX: nat := 7

  /** The code of a name from `j` on, 0 if it has none. */
  function CodeFrom(name: seq<byte>, j: nat): (code: nat)
    requires j <= VARNAME_MAX
    ensures code < VARNAME_MAX
    ensures code > 0 ==> FOR_NAMES[code] == name
    decreases VARNAME_MAX - j
  {
    if j == VARNAME_MAX then 0
    else if j > 0 && FOR_NAMES[j] == name then j
    else CodeFrom(name, j + 1)
  }

  predicate StartsWithParen(name: seq<byte>) { name != [] && name[0] == PAREN }

  /** Names in brackets can only be written if they have a code. */
  predicate Writable(name: seq<byte>) { StartsWithParen(name) ==> CodeFrom(name, 1) > 0 }

  /** Names the format can hold: those of loop variables, and others that cannot be taken for a code. */
  predicate FitName(name: seq<byte>) {
    if StartsWithParen(name) then Writable(name)
    else name != [] && VARNAME_MAX < name[0] < 0x80 && 0 !in name
  }

  function EncName(name: seq<byte>): seq<byte> {
    if StartsWithParen(name) then [CodeFrom(name, 1)] else name + [0]
  }

  function EncUps(names: seq<seq<byte>>): seq<byte> {
    if names == [] then [] else names[0] + [0] + EncUps(names[1..])
  }

  /** The distance between two positions, modulo the word size, and the way back. */
  function Delta(a: u32, b: u32): u32 { (b - a) % WORD }

  function Later(a: u32, d: u32): u32 { (a + d) % WORD }

  function EncVars(vars: seq<Var>, lastpc: u32): seq<byte>
    decreases |vars|
  {
    if vars == [] then []
    else
      var v := vars[0];
      EncName(v.name) + Enc(Delta(lastpc, v.startpc)) + Enc(Delta(v.startpc, v.endpc)) + EncVars(vars[1..], v.startpc)
  }

  /** Splits at the first zero byte. */
  function Split(s: seq<byte>): (r: Option<(seq<byte>, seq<byte>)>)
    ensures r.Some? ==> |r.value.1| < |s|
  {
    if s == [] then None
    else if s[0] == 0 then Some(([], s[1..]))
    else
      match Split(s[1..])
      case None => None
      case Some((name, rest)) => Some(([s[0]] + name, rest))
  }

  function DecUps(n: nat, s: seq<byte>): (seq<seq<byte>>, Option<seq<byte>>) {
    if n == 0 then ([], Some(s))
    else
      match Split(s)
      case None => ([], None)
      case Some((name, rest)) =>
        var (names, end) := DecUps(n - 1, rest);
        ([name] + names, end)
  }

  /** A name or a code; codes outside the table stand for no name. */
  function DecName(s: seq<byte>): (r: Option<(seq<byte>, seq<byte>)>)
    requires s != []
    ensures r.Some? ==> |r.value.1| < |s|
  {
    if VARNAME_MAX < s[0] < 0x80 then Split(s)
    else Some((if s[0] < VARNAME_MAX then FOR_NAMES[s[0]] else [], s[1..]))
  }

  function DecVars(lastpc: u32, s: seq<byte>): seq<Var>
    decreases |s|
  {
    if s == [] || s[0] == 0 then []
    else
      match DecName(s)
      case None => []
      case Some((name, s1)) =>
        var (d, s2) := DecWord(s1);
        var (e, s3) := DecWord(s2);
        var startpc := Later(lastpc, d);
        [Var(name, startpc, Later(startpc, e))] + DecVars(startpc, s3)
  }

  /** The names in the rest of a debug section of `len` bytes. */
  function DecNames(s: seq<byte>, sizeuv: nat): (seq<seq<byte>>, seq<Var>) {
    var (ups, end) := DecUps(sizeuv, s);
    (ups, if end.None? then [] else DecVars(0, end.value))
  }

  lemma {:induction false} SplitFinds(name: seq<byte>, rest: seq<byte>)
    requires 0 !in name
    ensures Split(name + [0] + rest) == Some((name, rest))
  {
    var s := name + [0] + rest;
    if name == [] {
      assert s == [0] + rest;
    } else {
      SplitFinds(name[1..], rest);
      assert s[1..] == name[1..] + [0] + rest;
      assert [name[0]] + name[1..] == name;
    }
  }

  lemma {:induction false} UpsRoundTrip(names: seq<seq<byte>>, rest: seq<byte>)
    requires forall n :: n in names ==> 0 !in n
    ensures DecUps(|names|, EncUps(names) + rest) == (names, Some(rest))
  {
    if names == [] {
      assert [] + rest == rest;
    } else {
      var tail := EncUps(names[1..]) + rest;
      assert EncUps(names) + rest == names[0] + [0] + tail;
      SplitFinds(names[0], tail);
      UpsRoundTrip(names[1..], rest);
      assert [names[0]] + names[1..] == names;
    }
  }

  lemma NameRoundTrip(name: seq<byte>, rest: seq<byte>)
    requires FitName(name)
    ensures var s := EncName(name) + rest; s != [] && s[0] != 0 && DecName(s) == Some((name, rest))
  {
    hide Split, CodeFrom;
    if !StartsWithParen(name) {
      SplitFinds(name, rest);
      assert name[0] in name;
      assert (EncName(name) + rest)[0] == name[0];
    }
  }

  /** Adding the difference back yields the later position, whether or not it is larger. */
  lemma DeltaRoundTrip(a: u32, b: u32)
    ensures Later(a, Delta(a, b)) == b
  {
  }

  lemma {:induction false} VarsRoundTrip(vars: seq<Var>, lastpc: u32)
    requires forall v :: v in vars ==> FitName(v.name)
    ensures DecVars(lastpc, EncVars(vars, lastpc) + [0]) == vars
    decreases |vars|
  {
    hide Enc, EncName, DecName, DecWord, FitName, Delta, Later;
    if vars != [] {
      var v, tail := vars[0], EncVars(vars[1..], vars[0].startpc) + [0];
      var d, e := Delta(lastpc, v.startpc), Delta(v.startpc, v.endpc);
      assert EncVars(vars, lastpc) + [0] == EncName(v.name) + (Enc(d) + (Enc(e) + tail));
      assert v in vars;
      NameRoundTrip(v.name, Enc(d) + (Enc(e) + tail));
      WordRoundTrip(d, Enc(e) + tail);
      WordRoundTrip(e, tail);
      DeltaRoundTrip(lastpc, v.startpc);
      DeltaRoundTrip(v.startpc, v.endpc);
      VarsRoundTrip(vars[1..], v.startpc);
      assert [v] + vars[1..] == vars;
    }
  }

  // ---------------------------------------------------------------- the whole section

  datatype Debug = Debug(firstline: u32, numline: u32, lines: seq<u32>, upNames: seq<seq<byte>>, vars: seq<Var>)

  predicate FitDebug(d: Debug) {
    && LinesInRange(d.lines, d.firstline, d.numline) && d.numline < TOP
    && (forall n :: n in d.upNames ==> 0 !in n)
    && (forall v :: v in d.vars ==> FitName(v.name))
  }

  function EncDebug(d: Debug, big: bool): seq<byte> {
    EncLines(d.lines, d.firstline, Width(d.numline), big) + EncUps(d.upNames) + EncVars(d.vars, 0) + [0]
  }

  /** The debug section is recovered from any surrounding stream; its parts are found by its size and the
      numbers of instructions and upvalues. */
  lemma DebugRoundTrip(d: Debug, big: bool, rest: seq<byte>)
    requires FitDebug(d)
    ensures var s := EncDebug(d, big);
            var sizeli := |d.lines| * Width(d.numline);
            var (lines, s1) := DecLineTable(s + rest, sizeli, |d.lines|, d.numline, d.firstline, big);
            lines == d.lines && sizeli < |s| && Cut(|s| - sizeli, s1).1 == rest &&
            DecNames(Cut(|s| - sizeli, s1).0, |d.upNames|) == (d.upNames, d.vars)
  {
    hide EncLines, EncUps, EncVars, DecLineTable, DecUps, DecVars;
    var lines := EncLines(d.lines, d.firstline, Width(d.numline), big);
    var names := EncUps(d.upNames) + (EncVars(d.vars, 0) + [0]);
    assert EncDebug(d, big) + rest == lines + (names + rest);
    LinesRoundTrip(d.lines, d.firstline, d.numline, big);
    LineTableRoundTrip(d.lines, d.firstline, d.numline, big, names + rest);
    CutApart(names, rest);
    UpsRoundTrip(d.upNames, EncVars(d.vars, 0) + [0]);
    VarsRoundTrip(d.vars, 0);
  }

  // ---------------------------------------------------------------- writing and reading it

  method WriteEntry(buf: Output, len: u32, numline: u32, big: bool)
    modifies buf
    ensures buf.data == old(buf.data) + EncEntry(len, Width(numline), big)
  {
    if numline < 0x100 {
      buf.PutChar(len % 0x100);
    } else if numline < 0x1_0000 {
      buf.Write(Bytes2(len % 0x1_0000, big));
    } else {
      buf.Write(Bytes4(len, big));
    }
  }

  method WriteLines(buf: Output, d: Debug, big: bool)
    modifies buf
    ensures buf.data == old(buf.data) + EncLines(d.lines, d.firstline, Width(d.numline), big)
  {
    hide EncEntry, Offset, Width;
    for i := 0 to |d.lines|
      invariant buf.data + EncLines(d.lines[i..], d.firstline, Width(d.numline), big)
                == old(buf.data) + EncLines(d.lines, d.firstline, Width(d.numline), big)
    {
      assert d.lines[i..][1..] == d.lines[i + 1..];
      WriteEntry(buf, Offset(d.lines[i], d.firstline), d.numline, big);
    }
  }

  method WriteUpNames(buf: Output, names: seq<seq<byte>>)
    modifies buf
    ensures buf.data == old(buf.data) + EncUps(names)
  {
    for i := 0 to |names|
      invariant buf.data + EncUps(names[i..]) == old(buf.data) + EncUps(names)
    {
      assert names[i..][1..] == names[i + 1..];
      buf.Write(names[i]);
      buf.PutChar(0);
    }
  }

  method WriteName(buf: Output, name: seq<byte>)
    requires Writable(name)
    modifies buf
    ensures buf.data == old(buf.data) + EncName(name)
  {
    if StartsWithParen(name) {
      var code, j := 0, 1;
      while j < VARNAME_MAX
        invariant 1 <= j <= VARNAME_MAX && code == 0 && CodeFrom(name, j) == CodeFrom(name, 1)
      {
        if FOR_NAMES[j] == name {
          code := j;
          break;
        }
        j := j + 1;
      }
      buf.PutChar(code);
    } else {
      buf.Write(name);
      buf.PutChar(0);
    }
  }

  method WriteVars(buf: Output, vars: seq<Var>)
    requires forall v :: v in vars ==> Writable(v.name)
    modifies buf
    ensures buf.data == old(buf.data) + EncVars(vars, 0)
  {
    hide EncName, Writable, Delta, Enc;
    var lastpc := 0;
    for i := 0 to |vars|
      invariant buf.data + EncVars(vars[i..], lastpc) == old(buf.data) + EncVars(vars, 0)
    {
      assert vars[i..][1..] == vars[i + 1..];
      WriteName(buf, vars[i].name);
      WriteUleb(buf, Delta(lastpc, vars[i].startpc));
      lastpc := vars[i].startpc;
      WriteUleb(buf, Delta(vars[i].startpc, vars[i].endpc));
    }
  }

  method WriteDbgInfo(d: Debug, big: bool) returns (bytes: seq<byte>)
    requires forall v :: v in d.vars ==> Writable(v.name)
    ensures bytes == EncDebug(d, big)
  {
    hide EncLines, EncUps, EncVars, Writable;
    var buf := new Output();
    WriteLines(buf, d, big);
    WriteUpNames(buf, d.upNames);
    WriteVars(buf, d.vars);
    buf.PutChar(0);
    bytes := buf.data;
  }

  method ReadLineNumbers(input: Input, host: bool, flag: bool, sizeli: nat, sizebc: nat, numline: u32, firstline: u32)
    returns (lines: seq<u32>)
    requires sizeli == 0 || sizeli == sizebc * Width(numline)
    modifies input
    ensures (lines, input.rest) == DecLineTable(old(input.rest), sizeli, sizebc, numline, firstline, flag)
  {
    if sizeli == 0 {
      return [];
    }
    var buf := input.Read(sizeli);
    if |buf| < sizeli {
      return [];
    }
    lines := DecodeLines(buf, host, flag, sizebc, ReaderWidth(numline), firstline);
  }

  method DecodeLines(buf: seq<byte>, host: bool, flag: bool, sizebc: nat, width: nat, firstline: u32)
    returns (lines: seq<u32>)
    requires width in {1, 2, 4} && |buf| >= TableSize(sizebc, width)
    ensures lines == DecLines(sizebc, buf, firstline, width, flag)
  {
    hide DecEntry, DecLines, TableSize;
    lines := [];
    var j := 0;
    for i := 0 to sizebc
      invariant 0 <= j <= |buf| && |buf| - j >= TableSize(sizebc - i, width)
      invariant lines + DecLines(sizebc - i, buf[j..], firstline, width, flag)
                == DecLines(sizebc, buf, firstline, width, flag)
    {
      NextLine(lines, sizebc - i, buf[j..], firstline, width, flag);
      assert buf[j..][..width] == buf[j..j + width] && buf[j..][width..] == buf[j + width..];
      var tmp := LoadEntry(buf[j..j + width], host, flag, width);
      lines := lines + [(tmp + firstline) % WORD];
      j := j + width;
    }
    assert lines + [] == lines;
  }

  method LoadEntry(b: seq<byte>, host: bool, flag: bool, width: nat) returns (v: u32)
    requires |b| == width && width in {1, 2, 4}
    ensures v == DecEntry(b, width, flag)
  {
    if width == 1 {
      v := b[0];
    } else if width == 2 {
      v := LoadWord2(b, host, flag);
    } else {
      v := LoadWord4(b, host, flag);
    }
  }

  lemma NextLine(before: seq<u32>, n: nat, buf: seq<byte>, firstline: u32, width: nat, flag: bool)
    requires n > 0 && width in {1, 2, 4} && |buf| >= TableSize(n, width)
    ensures width <= |buf| && TableSize(n - 1, width) <= |buf| - width
    ensures before + DecLines(n, buf, firstline, width, flag)
            == before + [(DecEntry(buf[..width], width, flag) + firstline) % WORD]
               + DecLines(n - 1, buf[width..], firstline, width, flag)
  {
    hide DecEntry;
    assert n * width == (n - 1) * width + width;
  }

  function Prefixed(name: seq<byte>, r: Option<(seq<byte>, seq<byte>)>): Option<(seq<byte>, seq<byte>)> {
    if r.None? then None else Some((name + r.value.0, r.value.1))
  }

  lemma SplitStep(name: seq<byte>, s: seq<byte>)
    requires s != []
    ensures Prefixed(name, Split(s))
            == if s[0] == 0 then Some((name, s[1..])) else Prefixed(name + [s[0]], Split(s[1..]))
  {
    assert name + [] == name;
    if s[0] != 0 && Split(s[1..]).Some? {
      assert name + ([s[0]] + Split(s[1..]).value.0) == name + [s[0]] + Split(s[1..]).value.0;
    }
  }

  lemma SplitAt(p: seq<byte>, pos: nat, name: seq<byte>)
    requires pos < |p|
    ensures Prefixed(name, Split(From(p, pos)))
            == if p[pos] == 0 then Some((name, From(p, pos + 1)))
               else Prefixed(name + [p[pos]], Split(From(p, pos + 1)))
  {
    hide Split, Prefixed;
    NextByte(p, pos);
    SplitStep(name, From(p, pos));
  }

  /** The position of the first zero byte from `start` on, -1 if there is none. */
  method IndexOfNul(p: seq<byte>, start: nat) returns (pos: int)
    ensures Split(From(p, start)) == if start <= pos < |p| then Some((p[start..pos], From(p, pos + 1))) else None
    ensures start <= pos < |p| || pos == -1
  {
    hide Split, Prefixed, From;
    pos := start;
    if start > |p| {
      NothingThere(p, start, []);
      return -1;
    }
    assert [] == p[start..pos];
    PrefixNothing(Split(From(p, start)));
    while pos < |p|
      invariant start <= pos <= |p| && Prefixed(p[start..pos], Split(From(p, pos))) == Split(From(p, start))
    {
      SplitAt(p, pos, p[start..pos]);
      if p[pos] == 0 {
        return;
      }
      assert p[start..pos] + [p[pos]] == p[start..pos + 1];
      pos := pos + 1;
    }
    NothingThere(p, pos, p[start..pos]);
    pos := -1;
  }

  lemma NothingThere(p: seq<byte>, pos: nat, name: seq<byte>)
    requires pos >= |p|
    ensures Split(From(p, pos)) == None == Prefixed(name, Split(From(p, pos)))
  {
  }

  lemma PrefixNothing(r: Option<(seq<byte>, seq<byte>)>)
    ensures Prefixed([], r) == r
  {
    if r.Some? {
      assert [] + r.value.0 == r.value.0;
    }
  }

  method ReadUpNames(tmp: seq<byte>, sizeuv: nat) returns (ups: seq<seq<byte>>, pos: int)
    ensures ups == DecUps(sizeuv, tmp).0
    ensures DecUps(sizeuv, tmp).1 == if pos >= 0 then Some(From(tmp, pos)) else None
  {
    hide DecUps, Split, From;
    ups, pos := [], 0;
    WholeBuffer(tmp);
    for i := 0 to sizeuv
      invariant 0 <= pos && ups + DecUps(sizeuv - i, From(tmp, pos)).0 == DecUps(sizeuv, tmp).0
      invariant DecUps(sizeuv - i, From(tmp, pos)).1 == DecUps(sizeuv, tmp).1
    {
      var first := pos;
      NextUp(ups, sizeuv - i, From(tmp, pos));
      pos := IndexOfNul(tmp, pos);
      if pos == -1 {
        return;
      }
      ups := ups + [tmp[first..pos]];
      pos := pos + 1;
    }
    NoUps(ups, From(tmp, pos));
  }

  lemma WholeBuffer(tmp: seq<byte>)
    ensures From(tmp, 0) == tmp
  {
  }

  lemma NoUps(before: seq<seq<byte>>, s: seq<byte>)
    ensures before + DecUps(0, s).0 == before && DecUps(0, s).1 == Some(s)
  {
  }

  lemma NextUp(before: seq<seq<byte>>, n: nat, s: seq<byte>)
    requires n > 0
    ensures Split(s).None? ==> before + DecUps(n, s).0 == before && DecUps(n, s).1 == None
    ensures Split(s).Some? ==>
              && before + DecUps(n, s).0 == before + [Split(s).value.0] + DecUps(n - 1, Split(s).value.1).0
              && DecUps(n, s).1 == DecUps(n - 1, Split(s).value.1).1
  {
    hide Split;
  }

  /** A name or code at a position inside the buffer; the position is -1 for a name without end. */
  method ReadName(tmp: seq<byte>, start: nat) returns (name: seq<byte>, pos: int)
    requires start < |tmp|
    ensures DecName(From(tmp, start)) == if pos > start then Some((name, From(tmp, pos))) else None
    ensures pos > start || pos == -1
  {
    hide Split;
    name, pos := [], start;
    NextByte(tmp, start);
    if VARNAME_MAX < tmp[pos] < 0x80 {
      pos := IndexOfNul(tmp, pos);
      if pos == -1 {
        return;
      }
      name := tmp[start..pos];
    } else if tmp[pos] < VARNAME_MAX {
      name := FOR_NAMES[tmp[pos]];
    }
    pos := pos + 1;
  }

  method ReadVars(tmp: seq<byte>, start: nat) returns (vars: seq<Var>)
    ensures vars == DecVars(0, From(tmp, start))
  {
    hide DecName, DecWord, Later;
    vars := [];
    var pos := start;
    var lastpc := 0;
    while pos < |tmp| && tmp[pos] != 0
      invariant 0 <= pos && vars + DecVars(lastpc, From(tmp, pos)) == DecVars(0, From(tmp, start))
      decreases |tmp| - pos
    {
      NextVar(vars, lastpc, From(tmp, pos));
      ghost var here := pos;
      var name, next := ReadName(tmp, pos);
      if next == -1 {
        return;
      }
      var d, e;
      d, pos := DebugReadUleb(tmp, next);
      lastpc := Later(lastpc, d);
      e, pos := DebugReadUleb(tmp, pos);
      vars := vars + [Var(name, lastpc, Later(lastpc, e))];
    }
    if pos < |tmp| {
      NextByte(tmp, pos);
    }
    assert vars + [] == vars;
  }

  lemma NextVar(before: seq<Var>, lastpc: u32, s: seq<byte>)
    requires s != [] && s[0] != 0
    ensures DecName(s).None? ==> before + DecVars(lastpc, s) == before
    ensures DecName(s).Some? ==>
              var (name, s1) := DecName(s).value;
              var (d, s2) := DecWord(s1);
              var (e, s3) := DecWord(s2);
              var startpc := Later(lastpc, d);
              before + DecVars(lastpc, s) == before + [Var(name, startpc, Later(startpc, e))] + DecVars(startpc, s3)
  {
    hide DecName, DecWord, Later;
    assert before + [] == before;
  }

  method ReadNames(input: Input, len: nat, sizeuv: nat) returns (ups: seq<seq<byte>>, vars: seq<Var>)
    modifies input
    ensures input.rest == Cut(len, old(input.rest)).1
    ensures (ups, vars) == if len == 0 then ([], []) else DecNames(Cut(len, old(input.rest)).0, sizeuv)
  {
    if len == 0 {
      return [], [];
    }
    hide DecUps, DecVars;
    var tmp := input.Read(len);
    vars := [];
    var pos;
    ups, pos := ReadUpNames(tmp, sizeuv);
    if pos >= 0 {
      vars := ReadVars(tmp, pos);
    }
  }
}
