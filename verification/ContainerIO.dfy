/** Writing and reading bytecode files, with the reader's list and stack of prototypes as mutable state. */
module ContainerIO {
  import opened Basics
  import opened Uleb
  import opened Constants
  import opened DebugInfo
  import opened Container
  import opened ContainerRoundTrip

  // ---------------------------------------------------------------- writing

  method WriteByteCodes(out: Output, l: seq<u32>, big: bool)
    modifies out
    ensures out.data == old(out.data) + EncCode(l, big)
  {
    hide Bytes4;
    for i := 0 to |l|
      invariant out.data + EncCode(l[i..], big) == old(out.data) + EncCode(l, big)
    {
      assert l[i..][1..] == l[i + 1..];
      out.Write(Bytes4(l[i], big));
    }
  }

  method WriteUpval(out: Output, l: seq<u16>, big: bool)
    modifies out
    ensures out.data == old(out.data) + EncUpvals(l, big)
  {
    hide Bytes2;
    for i := 0 to |l|
      invariant out.data + EncUpvals(l[i..], big) == old(out.data) + EncUpvals(l, big)
    {
      assert l[i..][1..] == l[i + 1..];
      out.Write(Bytes2(l[i], big));
    }
  }

  method WriteConst(out: Output, c: Const, narrow: Narrow)
    modifies out
    ensures out.data == old(out.data) + EncConst(c, narrow)
  {
    hide Enc, EncTable, NarrowedTable;
    match c {
      case CStr(str) => {
        WriteUleb(out, KGC_STR + |str|);
        out.Write(str);
      }
      case CChild(_) => {
        WriteUleb(out, KGC_CHILD);
      }
      case CTab(table) => {
        WriteUleb(out, KGC_TAB);
        WriteTable(out, table, narrow);
      }
    }
  }

  method WriteObjConsts(out: Output, l: seq<Const>, narrow: Narrow)
    modifies out
    ensures out.data == old(out.data) + EncConsts(l, narrow)
  {
    hide EncConst;
    for i := 0 to |l|
      invariant out.data + EncConsts(l[i..], narrow) == old(out.data) + EncConsts(l, narrow)
    {
      assert l[i..][1..] == l[i + 1..];
      WriteConst(out, l[i], narrow);
    }
  }

  method WriteHeaderFields(out: Output, h: Header, stripped: bool)
    modifies out
    ensures out.data == old(out.data) + EncHeader(h, stripped)
  {
    hide Enc, EncDebugHeader;
    out.PutChar(h.flags);
    out.PutChar(h.numparams);
    out.PutChar(h.framesize);
    out.PutChar(h.sizeuv);
    WriteUleb(out, h.sizekgc);
    WriteUleb(out, h.sizekn);
    WriteUleb(out, h.sizebc);
    WriteDebugHeader(out, h, stripped);
  }

  method WriteDebugHeader(out: Output, h: Header, stripped: bool)
    modifies out
    ensures out.data == old(out.data) + EncDebugHeader(h, stripped)
  {
    hide Enc;
    if !stripped {
      WriteUleb(out, h.sizedbg);
      if h.sizedbg != 0 {
        WriteUleb(out, h.firstline);
        WriteUleb(out, h.numline);
      }
    }
  }

  /** One prototype without the nested ones, behind its length. */
  method WriteRecord(out: Output, p: Proto, m: Mode, flags: byte)
    requires FitHere(p, m) && flags == FlagsOf(p)
    modifies out
    ensures out.data == old(out.data) + (Enc(|EncRecord(p, m)|) + EncRecord(p, m))
  {
    hide Enc, EncHeader, EncCode, EncUpvals, EncConsts, EncNums, NarrowedAll, FitDebug, FitConst, FlagsOf, EncDebug;
    var record := WriteFields(p, m, flags);
    WriteUleb(out, |record|);
    out.Write(record);
  }

  lemma NamesFit(d: Debug)
    requires FitDebug(d)
    ensures forall v :: v in d.vars ==> Writable(v.name)
  {
    assert forall v :: v in d.vars ==> FitName(v.name);
  }

  method WriteFields(p: Proto, m: Mode, flags: byte) returns (data: seq<byte>)
    requires FitHere(p, m) && flags == FlagsOf(p)
    ensures data == EncRecord(p, m)
  {
    hide Enc, EncHeader, EncCode, EncUpvals, EncConsts, EncNums, NarrowedAll, FitDebug, FitConst, FlagsOf, EncDebug;
    var tmp := new Output();
    var dbgInfo := [];
    if !m.stripped {
      NamesFit(p.debug);
      dbgInfo := WriteDbgInfo(p.debug, m.big);
    }
    var h := Header(flags, p.numparams, p.framesize, |p.upvals|, |p.consts|, |p.nums|, |p.code|, |dbgInfo|,
                    if m.stripped then 0 else p.debug.firstline, if m.stripped then 0 else p.debug.numline);
    WriteHeaderFields(tmp, h, m.stripped);
    WriteByteCodes(tmp, p.code, m.big);
    WriteUpval(tmp, p.upvals, m.big);
    WriteObjConsts(tmp, p.consts, m.narrow);
    WriteNumConsts(tmp, p.nums, m.narrow);
    tmp.Write(dbgInfo);
    data := tmp.data;
  }

  /** A prototype after its nested ones. */
  method WriteFunction(out: Output, p: Proto, m: Mode)
    requires Fit(p, m)
    modifies out
    ensures out.data == old(out.data) + EncProto(p, m)
    decreases p, 1
  {
    hide EncRecord, FitHere, EncNested, FitAll, HasChild;
    var flags := WriteNested(out, p.consts, m, p.flags % 8);
    WriteRecord(out, p, m, flags);
  }

  /** The nested prototypes, from the last constant to the first one; each of them sets the flag for them. */
  method WriteNested(out: Output, l: seq<Const>, m: Mode, known: byte) returns (flags: byte)
    requires FitAll(l, m) && known < 8
    modifies out
    ensures out.data == old(out.data) + EncNested(l, m)
    ensures flags == if HasChild(l) && known % 2 == 0 then known + 1 else known
    decreases l, 2
  {
    hide FitInside, EncChild;
    flags := known;
    var i := |l|;
    FitSuffix(l, m);
    while i > 0
      invariant 0 <= i <= |l| && out.data == old(out.data) + EncNested(l[i..], m)
      invariant flags == if HasChild(l[i..]) && known % 2 == 0 then known + 1 else known
    {
      i := i - 1;
      assert l[i..][1..] == l[i + 1..];
      flags := WriteChild(out, l, i, m, flags);
    }
    assert l[0..] == l;
  }

  method WriteChild(out: Output, l: seq<Const>, i: nat, m: Mode, flags: byte) returns (newFlags: byte)
    requires i < |l| && FitInside(l[i], m) && flags < 8
    modifies out
    ensures out.data == old(out.data) + EncChild(l[i], m)
    ensures newFlags == if l[i].CChild? && flags % 2 == 0 then flags + 1 else flags
    decreases l, 1
  {
    hide Fit, EncProto;
    newFlags := flags;
    if l[i].CChild? {
      if flags % 2 == 0 {
        newFlags := flags + 1;
      }
      assert l decreases to l[i];
      WriteFunction(out, l[i].proto, m);
    }
  }

  lemma {:induction false} FitSuffix(l: seq<Const>, m: Mode)
    requires FitAll(l, m)
    ensures forall i :: 0 <= i <= |l| ==> FitAll(l[i..], m)
    ensures forall i :: 0 <= i < |l| ==> FitInside(l[i], m)
  {
    if l != [] {
      FitSuffix(l[1..], m);
      assert forall i :: 0 < i <= |l| ==> l[i..] == l[1..][i - 1..];
      assert forall i :: 0 < i < |l| ==> l[i] == l[1..][i - 1];
      assert l[0..] == l;
    }
  }

  method WriteFileHeader(out: Output, name: seq<byte>, m: Mode)
    modifies out
    ensures out.data == old(out.data) + EncFileHeader(name, m)
  {
    out.PutChar(HEAD1);
    out.PutChar(HEAD2);
    out.PutChar(HEAD3);
    out.PutChar(VERSION);
    out.PutChar((if m.stripped then F_STRIP else 0) + (if m.big then F_BE else 0));
    if !m.stripped {
      WriteUleb(out, |name|);
      out.Write(name);
    }
  }

  method WriteFile(out: Output, name: seq<byte>, p: Proto, m: Mode)
    requires Fit(p, m)
    modifies out
    ensures out.data == old(out.data) + EncFile(name, p, m)
  {
    hide EncFileHeader, EncProto, Fit;
    WriteFileHeader(out, name, m);
    WriteFunction(out, p, m);
    out.PutChar(0);
  }

  // ---------------------------------------------------------------- reading

  method ReadCode(input: Input, host: bool, flag: bool, len: nat) returns (res: seq<u32>)
    modifies input
    ensures (res, input.rest) == DecCode(len, old(input.rest), flag)
  {
    hide Word4, DecCode, Zeros;
    res := [];
    for i := 0 to len
      invariant res + DecCode(len - i, input.rest, flag).0 == DecCode(len, old(input.rest), flag).0
      invariant DecCode(len - i, input.rest, flag).1 == DecCode(len, old(input.rest), flag).1
    {
      NextCode(res, len - i, input.rest, flag);
      var buf := input.Read(4);
      if |buf| < 4 {
        res := res + Zeros(len - i);
        return;
      }
      var tmp := LoadWord4(buf, host, flag);
      res := res + [tmp];
    }
    NoWords(input.rest, flag);
    assert res + [] == res;
  }

  lemma NoWords(s: seq<byte>, flag: bool)
    ensures DecCode(0, s, flag) == ([], s) && DecUpvals(0, s, flag) == ([], s)
  {
  }

  lemma NextCode(before: seq<u32>, n: nat, s: seq<byte>, flag: bool)
    requires n > 0
    ensures if |s| < 4 then DecCode(n, s, flag) == (Zeros(n), [])
            else before + DecCode(n, s, flag).0 == before + [Word4(s[..4], flag)] + DecCode(n - 1, s[4..], flag).0
                 && DecCode(n, s, flag).1 == DecCode(n - 1, s[4..], flag).1
  {
    hide Word4;
  }

  method ReadUpval(input: Input, host: bool, flag: bool, len: nat) returns (res: seq<u16>)
    modifies input
    ensures (res, input.rest) == DecUpvals(len, old(input.rest), flag)
  {
    hide Word2, DecUpvals, Zeros;
    res := [];
    for i := 0 to len
      invariant res + DecUpvals(len - i, input.rest, flag).0 == DecUpvals(len, old(input.rest), flag).0
      invariant DecUpvals(len - i, input.rest, flag).1 == DecUpvals(len, old(input.rest), flag).1
    {
      NextUpval(res, len - i, input.rest, flag);
      var buf := input.Read(2);
      if |buf| < 2 {
        res := res + Zeros(len - i);
        return;
      }
      var tmp := LoadWord2(buf, host, flag);
      res := res + [tmp];
    }
    NoWords(input.rest, flag);
    assert res + [] == res;
  }

  lemma NextUpval(before: seq<u16>, n: nat, s: seq<byte>, flag: bool)
    requires n > 0
    ensures if |s| < 2 then DecUpvals(n, s, flag) == (Zeros(n), [])
            else before + DecUpvals(n, s, flag).0 == before + [Word2(s[..2], flag)] + DecUpvals(n - 1, s[2..], flag).0
                 && DecUpvals(n, s, flag).1 == DecUpvals(n - 1, s[2..], flag).1
  {
    hide Word2;
  }

  method ReadHeader(input: Input, stripped: bool) returns (h: Header)
    modifies input
    ensures (h, input.rest) == DecHeader(old(input.rest), stripped)
  {
    hide DecWord;
    var flags := input.ReadByte();
    var numparams := input.ReadByte();
    var framesize := input.ReadByte();
    var sizeuv := input.ReadByte();
    var sizekgc := ReadUleb(input);
    var sizekn := ReadUleb(input);
    var sizebc := ReadUleb(input);
    var sizedbg, firstline, numline := 0, 0, 0;
    if !stripped {
      sizedbg := ReadUleb(input);
    }
    if sizedbg != 0 {
      firstline := ReadUleb(input);
      numline := ReadUleb(input);
    }
    h := Header(flags, numparams, framesize, sizeuv, sizekgc, sizekn, sizebc, sizedbg, firstline, numline);
  }

  method ReadDebug(input: Input, h: Header, host: bool, flag: bool) returns (d: Debug)
    modifies input
    ensures (d, input.rest) == DecDebug(h, old(input.rest), flag)
  {
    hide DecLineTable, DecNames;
    if h.sizedbg == 0 {
      return Debug(h.firstline, h.numline, [], [], []);
    }
    var sizeli := h.sizebc * Width(h.numline);
    var lines := ReadLineNumbers(input, host, flag, sizeli, h.sizebc, h.numline, h.firstline);
    var len := if h.sizedbg > sizeli then h.sizedbg - sizeli else 0;
    var ups, vars := ReadNames(input, len, h.sizeuv);
    d := Debug(h.firstline, h.numline, lines, ups, vars);
  }

  /** The prototypes read so far and the stack of those whose enclosing prototype is still to come. */
  class JitBytecode {
    var funcs: seq<Func>
    var fstack: seq<nat>
    var header: FileHeader

    constructor ()
      ensures State() == Reader([], [])
    {
      funcs, fstack, header := [], [], FileHeader(false, false, []);
    }

    ghost function State(): Reader
      reads this
    {
      Reader(funcs, fstack)
    }

    method ReadObjConst(id: nat, input: Input) returns (item: Item)
      requires Sound(State())
      modifies `funcs, `fstack, input
      ensures Sound(State()) && (item, State(), input.rest) == DecItem(old(State()), id, old(input.rest))
    {
      hide DecWord, DecTable;
      var tp := ReadUleb(input);
      if tp >= KGC_STR {
        var str := input.Read(tp - KGC_STR);
        item := IStr(str);
      } else if tp == KGC_TAB {
        var tbl := ReadTable(input);
        item := ITab(tbl);
      } else if tp != KGC_CHILD {
        item := Nothing;
      } else if fstack == [] {
        item := Nothing;
      } else {
        var r := fstack[|fstack| - 1];
        if funcs[r].outer.None? {
          funcs := funcs[r := funcs[r].(outer := Some(id))];
        }
        item := IChild(r);
        fstack := fstack[..|fstack| - 1];
      }
    }

    method ReadObjConsts(id: nat, input: Input, len: nat) returns (res: seq<Item>)
      requires Sound(State())
      modifies `funcs, `fstack, input
      ensures Sound(State()) && (res, State(), input.rest) == DecItems(len, old(State()), id, old(input.rest))
    {
      hide DecItem;
      res := [];
      for i := 0 to len
        invariant Sound(State())
        invariant var a := DecItems(len - i, State(), id, input.rest);
                  var b := DecItems(len, old(State()), id, old(input.rest));
                  res + a.0 == b.0 && a.1 == b.1 && a.2 == b.2
      {
        NextItem(res, len - i, State(), id, input.rest);
        var item := ReadObjConst(id, input);
        res := res + [item];
      }
      assert res + [] == res;
    }

    /** Reads one prototype; false at the end mark. */
    method ParseFunction(input: Input, host: bool) returns (ok: bool)
      requires Sound(State())
      modifies `funcs, `fstack, input
      ensures Sound(State())
      ensures (ok, State(), input.rest) == DecFunction(old(State()), old(input.rest), header.stripped, header.flag)
    {
      hide DecWord, DecHeader, DecCode, DecUpvals, DecItems, DecNums, DecDebug;
      var len := ReadUleb(input);
      if len == 0 {
        return false;
      }
      var id := |funcs|;
      var h := ReadHeader(input, header.stripped);
      var code := ReadCode(input, host, header.flag, h.sizebc);
      var upvals := ReadUpval(input, host, header.flag, h.sizeuv);
      var items := ReadObjConsts(id, input, h.sizekgc);
      var nums := ReadNumConsts(input, h.sizekn);
      var debug := ReadDebug(input, h, host, header.flag);
      funcs := funcs + [Func(id, h.flags, h.numparams, h.framesize, code, upvals, items, nums, debug, None)];
      fstack := fstack + [id];
      ok := true;
    }

    method ParseHeader(input: Input) returns (ok: bool)
      modifies `header, input
      ensures var (h, rest) := DecFileHeader(old(input.rest));
              ok == h.Some? && (ok ==> header == h.value) && input.rest == rest
    {
      hide DecWord;
      var buf := input.Read(4);
      if |buf| < 4 || buf[0] != HEAD1 || buf[1] != HEAD2 || buf[2] != HEAD3 || buf[3] != VERSION {
        return false;
      }
      var flags := ReadUleb(input);
      if flags >= 2 * F_FFI || flags / F_FFI % 2 == 1 {
        return false;
      }
      header := FileHeader(flags / F_STRIP % 2 == 1, flags % 2 == 1, []);
      if !header.stripped {
        var len := ReadUleb(input);
        var name := input.Read(len);
        header := header.(name := name);
      }
      ok := true;
    }

    /** Reads a whole file into an emptied object. */
    method Parse(input: Input, host: bool) returns (ok: bool)
      modifies this, input
      ensures Sound(State())
      ensures var (file, rest) := DecFile(old(input.rest));
              ok == file.Some? && input.rest == rest && (ok ==> (header, State()) == file.value)
    {
      hide DecFileHeader, DecFunction;
      funcs, fstack := [], [];
      ok := ParseHeader(input);
      if !ok {
        assert DecFileHeader(old(input.rest)).0 == None;
        assert DecFile(old(input.rest)) == (None, DecFileHeader(old(input.rest)).1);
        return;
      }
      label start:
      while input.rest != []
        invariant Sound(State()) && header == old@start(header)
        invariant DecAll(State(), input.rest, header.stripped, header.flag)
                  == DecAll(Reader([], []), old@start(input.rest), header.stripped, header.flag)
        decreases |input.rest|
      {
        var more := ParseFunction(input, host);
        if !more {
          break;
        }
      }
    }

    /** The root, if everything else has found its enclosing prototype. */
    function GetRoot(): (root: Option<nat>)
      reads this
    {
      if |fstack| == 1 then Some(fstack[0]) else None
    }
  }

  lemma NextItem(before: seq<Item>, n: nat, r: Reader, id: nat, s: seq<byte>)
    requires n > 0 && Sound(r)
    ensures var (item, r1, s1) := DecItem(r, id, s);
            var a, b := DecItems(n, r, id, s), DecItems(n - 1, r1, id, s1);
            before + a.0 == before + [item] + b.0 && a.1 == b.1 && a.2 == b.2
  {
    hide DecItem;
  }

  /** Writing a tree and reading the bytes, on hosts of any two byte orders, gives the tree back. */
  method WriteThenParse(name: seq<byte>, p: Proto, m: Mode, host: bool) returns (bc: JitBytecode, root: nat)
    requires Fit(p, m) && |name| < WORD
    ensures fresh(bc) && bc.GetRoot() == Some(root) && Rebuilt(bc.funcs, root, p, None, m)
    ensures |bc.funcs| == Size(p)
  {
    hide EncFile, DecFile, Fit, Rebuilt, Size;
    var out := new Output();
    WriteFile(out, name, p, m);
    assert out.data == EncFile(name, p, m);
    var input := new Input(out.data);
    bc := new JitBytecode();
    FileRoundTrip(name, p, m);
    var _ := bc.Parse(input, host);
    root := bc.fstack[0];
  }
}
