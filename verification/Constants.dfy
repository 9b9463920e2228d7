/** Constants of a prototype: numbers in the 33-bit form, and the values of template tables. */
module Constants {
  import opened Basics
  import opened Uleb

  /** A number constant: an integer by its 32-bit pattern, or the two words of a double. */
  datatype Num = Int(bits: u32) | Dbl(lo: u32, hi: u32)

  /** The integer with the same value as a double, if there is one; floating point is not part of this model. */
  type Narrow = (u32, u32) -> Option<u32>

  function Narrowed(c: Num, narrow: Narrow): Num {
    if c.Dbl? && narrow(c.lo, c.hi).Some? then Int(narrow(c.lo, c.hi).value) else c
  }

  function NarrowedAll(l: seq<Num>, narrow: Narrow): (r: seq<Num>)
    ensures |r| == |l|
  {
    if l == [] then [] else [Narrowed(l[0], narrow)] + NarrowedAll(l[1..], narrow)
  }

  /** What may come back for a number constant: the same one, except that a double with the value of an integer comes
      back as this integer. */
  predicate SameNum(c: Num, r: Num, narrow: Narrow) {
    match c
    case Int(bits) => r == Int(bits)
    case Dbl(lo, hi) => if narrow(lo, hi) == None then r == Dbl(lo, hi) else r.Int? && narrow(lo, hi) == Some(r.bits)
  }

  predicate SameNums(l: seq<Num>, r: seq<Num>, narrow: Narrow) {
    |r| == |l| && forall i :: 0 <= i < |l| ==> SameNum(l[i], r[i], narrow)
  }

  lemma {:induction false} NarrowedNums(l: seq<Num>, narrow: Narrow)
    ensures SameNums(l, NarrowedAll(l, narrow), narrow)
  {
    if l != [] {
      NarrowedNums(l[1..], narrow);
    }
  }

  // ---------------------------------------------------------------- number constants

  function EncNum(c: Num): seq<byte> {
    match c
    case Int(u) => Enc(2 * u)
    case Dbl(lo, hi) => Enc(2 * lo + 1) + Enc(hi)
  }

  function EncNums(l: seq<Num>): seq<byte> {
    if l == [] then [] else EncNum(l[0]) + EncNums(l[1..])
  }

  function DecNum(s: seq<byte>): (r: (Num, seq<byte>))
    ensures |r.1| <= |s|
  {
    var lo := Low32(Dec(s).0 / 2);
    if s != [] && s[0] % 2 == 1 then
      var (hi, rest) := DecWord(Dec(s).1);
      (Dbl(lo, hi), rest)
    else (Int(lo), Dec(s).1)
  }

  function DecNums(n: nat, s: seq<byte>): (r: (seq<Num>, seq<byte>))
    ensures |r.1| <= |s|
  {
    if n == 0 then ([], s)
    else
      var (c, rest) := DecNum(s);
      var (l, end) := DecNums(n - 1, rest);
      ([c] + l, end)
  }

  lemma EncParity(v: nat, rest: seq<byte>)
    ensures (Enc(v) + rest)[0] % 2 == v % 2
  {
    assert v % 0x80 % 2 == v % 2;
  }

  lemma NumRoundTrip(c: Num, rest: seq<byte>)
    ensures DecNum(EncNum(c) + rest) == (c, rest)
  {
    hide Enc, Dec, Low32;
    match c {
      case Int(u) => {
        LowIsSame(u);
        EncParity(2 * u, rest);
        DecUndoesEnc(2 * u, rest);
      }
      case Dbl(lo, hi) => {
        LowIsSame(lo);
        assert EncNum(c) + rest == Enc(2 * lo + 1) + (Enc(hi) + rest);
        EncParity(2 * lo + 1, Enc(hi) + rest);
        DecUndoesEnc(2 * lo + 1, Enc(hi) + rest);
        WordRoundTrip(hi, rest);
      }
    }
  }

  /** A list of number constants is read back from any surrounding stream, using exactly the written bytes. */
  lemma {:induction false} NumsRoundTrip(l: seq<Num>, rest: seq<byte>)
    ensures DecNums(|l|, EncNums(l) + rest) == (l, rest)
  {
    hide Enc, Dec, EncNum, DecNum;
    if l != [] {
      assert EncNums(l) + rest == EncNum(l[0]) + (EncNums(l[1..]) + rest);
      NumRoundTrip(l[0], EncNums(l[1..]) + rest);
      NumsRoundTrip(l[1..], rest);
      assert [l[0]] + l[1..] == l;
    } else {
      assert [] + rest == rest;
    }
  }

  /** Writes one number constant, as an integer where the double has the value of one. */
  method WriteNum(out: Output, c: Num, narrow: Narrow)
    modifies out
    ensures out.data == old(out.data) + EncNum(Narrowed(c, narrow))
  {
    hide Enc;
    match c {
      case Int(u) => {
        WriteUleb33(out, u, 0);
      }
      case Dbl(lo, hi) => {
        var k := narrow(lo, hi);
        if k.Some? {
          WriteUleb33(out, k.value, 0);
        } else {
          WriteUleb33(out, lo, 1);
          WriteUleb(out, hi);
        }
      }
    }
  }

  method WriteNumConsts(out: Output, l: seq<Num>, narrow: Narrow)
    modifies out
    ensures out.data == old(out.data) + EncNums(NarrowedAll(l, narrow))
  {
    hide Enc, EncNum, Narrowed;
    for i := 0 to |l|
      invariant out.data + EncNums(NarrowedAll(l[i..], narrow)) == old(out.data) + EncNums(NarrowedAll(l, narrow))
    {
      assert l[i..][1..] == l[i + 1..];
      WriteNum(out, l[i], narrow);
    }
  }

  lemma NextNum(before: seq<Num>, n: nat, s: seq<byte>)
    requires n > 0
    ensures var (c, rest) := DecNum(s);
            && before + DecNums(n, s).0 == before + [c] + DecNums(n - 1, rest).0
            && DecNums(n, s).1 == DecNums(n - 1, rest).1
  {
    hide DecNum;
  }

  method ReadNumConsts(input: Input, len: nat) returns (res: seq<Num>)
    modifies input
    ensures (res, input.rest) == DecNums(len, old(input.rest))
  {
    hide Dec, Low32, DecWord;
    res := [];
    for i := 0 to len
      invariant res + DecNums(len - i, input.rest).0 == DecNums(len, old(input.rest)).0
      invariant DecNums(len - i, input.rest).1 == DecNums(len, old(input.rest)).1
    {
      ghost var before := res;
      ghost var rest := input.rest;
      var isnum := input.rest != [] && input.rest[0] % 2 == 1;
      var lo := ReadUleb33(input);
      if isnum {
        var hi := ReadUleb(input);
        res := res + [Dbl(lo, hi)];
      } else {
        res := res + [Int(lo)];
      }
      NextNum(before, len - i, rest);
    }
    assert res + [] == res;
  }

  // ---------------------------------------------------------------- keys and values of tables

  datatype KVal = KNil | KFalse | KTrue | KNum(num: Num) | KStr(str: seq<byte>)

  const KTAB_INT: nat := 3
  const KTAB_NUM: nat := 4
  const KTAB_STR: nat := 5

  function NarrowedVal(v: KVal, narrow: Narrow): KVal {
    if v.KNum? then KNum(Narrowed(v.num, narrow)) else v
  }

  function EncVal(v: KVal): seq<byte> {
    match v
    case KNil => [0]
    case KFalse => [1]
    case KTrue => [2]
    case KNum(Int(u)) => [KTAB_INT] + Enc(u)
    case KNum(Dbl(lo, hi)) => [KTAB_NUM] + Enc(lo) + Enc(hi)
    case KStr(str) => Enc(KTAB_STR + |str|) + str
  }

  /** Type codes below those of strings that the writer never uses are read as nil. */
  function DecVal(s: seq<byte>): (r: (KVal, seq<byte>))
    ensures |r.1| <= |s|
  {
    var (tp, s1) := DecWord(s);
    if tp >= KTAB_STR then
      var (str, s2) := Cut(tp - KTAB_STR, s1);
      (KStr(str), s2)
    else if tp == KTAB_INT then
      var (u, s2) := DecWord(s1);
      (KNum(Int(u)), s2)
    else if tp == KTAB_NUM then
      var (lo, s2) := DecWord(s1);
      var (hi, s3) := DecWord(s2);
      (KNum(Dbl(lo, hi)), s3)
    else if tp == 2 then (KTrue, s1)
    else if tp == 1 then (KFalse, s1)
    else (KNil, s1)
  }

  /** The length of a string fits with its type code into a word. */
  predicate Short(str: seq<byte>) { KTAB_STR + |str| < WORD }

  predicate FitVal(v: KVal) { v.KStr? ==> Short(v.str) }

  lemma ValRoundTrip(v: KVal, rest: seq<byte>)
    requires FitVal(v)
    ensures DecVal(EncVal(v) + rest) == (v, rest)
  {
    hide Enc, Dec, DecWord;
    if v.KStr? {
      assert EncVal(v) + rest == Enc(KTAB_STR + |v.str|) + (v.str + rest);
      WordRoundTrip(KTAB_STR + |v.str|, v.str + rest);
      CutApart(v.str, rest);
    } else if v.KNum? {
      TableNumRoundTrip(v.num, rest);
    } else {
      SmallCode(if v.KNil? then 0 else if v.KFalse? then 1 else 2, rest);
    }
  }

  lemma SmallCode(tp: nat, rest: seq<byte>)
    requires tp < 0x80
    ensures Enc(tp) == [tp] && DecWord([tp] + rest) == (tp, rest)
  {
    WordRoundTrip(tp, rest);
  }

  lemma TableNumRoundTrip(c: Num, rest: seq<byte>)
    ensures DecVal(EncVal(KNum(c)) + rest) == (KNum(c), rest)
  {
    hide Enc, Dec, DecWord;
    match c {
      case Int(u) => {
        assert EncVal(KNum(c)) + rest == [KTAB_INT] + (Enc(u) + rest);
        SmallCode(KTAB_INT, Enc(u) + rest);
        WordRoundTrip(u, rest);
      }
      case Dbl(lo, hi) => {
        assert EncVal(KNum(c)) + rest == [KTAB_NUM] + (Enc(lo) + (Enc(hi) + rest));
        SmallCode(KTAB_NUM, Enc(lo) + (Enc(hi) + rest));
        WordRoundTrip(lo, Enc(hi) + rest);
        WordRoundTrip(hi, rest);
      }
    }
  }

  method WriteVal(out: Output, v: KVal, asInt: bool, narrow: Narrow)
    modifies out
    ensures out.data == old(out.data) + EncVal(if asInt then NarrowedVal(v, narrow) else v)
  {
    hide Enc;
    match v {
      case KStr(str) => {
        WriteUleb(out, KTAB_STR + |str|);
        out.Write(str);
      }
      case KNum(Int(u)) => {
        out.PutChar(KTAB_INT);
        WriteUleb(out, u);
      }
      case KTrue => {
        out.PutChar(2);
      }
      case KFalse => {
        out.PutChar(1);
      }
      case KNil => {
        out.PutChar(0);
      }
      case KNum(Dbl(lo, hi)) => {
        if asInt {
          var k := narrow(lo, hi);
          if k.Some? {
            out.PutChar(KTAB_INT);
            WriteUleb(out, k.value);
            assert out.data == old(out.data) + ([KTAB_INT] + Enc(k.value));
            return;
          }
        }
        out.PutChar(KTAB_NUM);
        WriteUleb(out, lo);
        WriteUleb(out, hi);
        assert out.data == old(out.data) + ([KTAB_NUM] + Enc(lo) + Enc(hi));
      }
    }
  }

  method ReadVal(input: Input) returns (v: KVal)
    modifies input
    ensures (v, input.rest) == DecVal(old(input.rest))
  {
    hide Dec, DecWord;
    var tp := ReadUleb(input);
    if tp >= KTAB_STR {
      var str := input.Read(tp - KTAB_STR);
      v := KStr(str);
    } else if tp == KTAB_INT {
      var u := ReadUleb(input);
      v := KNum(Int(u));
    } else if tp == KTAB_NUM {
      var lo := ReadUleb(input);
      var hi := ReadUleb(input);
      v := KNum(Dbl(lo, hi));
    } else if tp == 2 {
      v := KTrue;
    } else if tp == 1 {
      v := KFalse;
    } else {
      v := KNil;
    }
  }

  // ---------------------------------------------------------------- template tables

  /** A template table; the hash part lists its entries in the order in which they are visited. */
  datatype Table = Table(arr: seq<KVal>, hash: seq<(KVal, KVal)>)

  /** A table as it is read. */
  datatype Loaded = Loaded(arr: seq<KVal>, hash: map<KVal, KVal>)

  function NarrowedVals(l: seq<KVal>, narrow: Narrow): (r: seq<KVal>)
    ensures |r| == |l|
  {
    if l == [] then [] else [NarrowedVal(l[0], narrow)] + NarrowedVals(l[1..], narrow)
  }

  function NarrowedPairs(l: seq<(KVal, KVal)>, narrow: Narrow): (r: seq<(KVal, KVal)>)
    ensures |r| == |l|
  {
    if l == [] then [] else [(l[0].0, NarrowedVal(l[0].1, narrow))] + NarrowedPairs(l[1..], narrow)
  }

  /** The values of a table as they are written; its keys keep their form. */
  function NarrowedTable(t: Table, narrow: Narrow): Table {
    Table(NarrowedVals(t.arr, narrow), NarrowedPairs(t.hash, narrow))
  }

  function Inserted(m: map<KVal, KVal>, l: seq<(KVal, KVal)>): map<KVal, KVal>
    decreases |l|
  {
    if l == [] then m else Inserted(m[l[0].0 := l[0].1], l[1..])
  }

  function LoadedTable(t: Table): Loaded { Loaded(t.arr, Inserted(map[], t.hash)) }

  function EncVals(l: seq<KVal>): seq<byte> {
    if l == [] then [] else EncVal(l[0]) + EncVals(l[1..])
  }

  function EncPairs(l: seq<(KVal, KVal)>): seq<byte> {
    if l == [] then [] else EncVal(l[0].0) + EncVal(l[0].1) + EncPairs(l[1..])
  }

  /** The array part starts with a nil that stands for index 0. */
  function Slots(arr: seq<KVal>): seq<KVal> {
    if arr == [] then [] else [KNil] + arr
  }

  function EncTable(t: Table): seq<byte> {
    Enc(|Slots(t.arr)|) + Enc(|t.hash|) + EncVals(Slots(t.arr)) + EncPairs(t.hash)
  }

  function DecVals(n: nat, s: seq<byte>): (r: (seq<KVal>, seq<byte>))
    ensures |r.0| == n && |r.1| <= |s|
  {
    if n == 0 then ([], s)
    else
      var (v, rest) := DecVal(s);
      var (l, end) := DecVals(n - 1, rest);
      ([v] + l, end)
  }

  function DecPairs(n: nat, m: map<KVal, KVal>, s: seq<byte>): (r: (map<KVal, KVal>, seq<byte>))
    ensures |r.1| <= |s|
    decreases n
  {
    if n == 0 then (m, s)
    else
      var (k, s1) := DecVal(s);
      var (v, s2) := DecVal(s1);
      DecPairs(n - 1, m[k := v], s2)
  }

  function DecTable(s: seq<byte>): (r: (Loaded, seq<byte>))
    ensures |r.1| <= |s|
  {
    var (narray, s1) := DecWord(s);
    var (nhash, s2) := DecWord(s1);
    var (arr, s3) := DecVals(narray, s2);
    var (hash, s4) := DecPairs(nhash, map[], s3);
    (Loaded(if narray == 0 then [] else arr[1..], hash), s4)
  }

  predicate FitTable(t: Table) {
    && |t.arr| + 1 < WORD && |t.hash| < WORD
    && (forall v :: v in t.arr ==> FitVal(v))
    && (forall e :: e in t.hash ==> FitVal(e.0) && FitVal(e.1))
  }

  lemma {:induction false} ValsRoundTrip(l: seq<KVal>, rest: seq<byte>)
    requires forall v :: v in l ==> FitVal(v)
    ensures DecVals(|l|, EncVals(l) + rest) == (l, rest)
  {
    hide EncVal, DecVal, Enc;
    if l != [] {
      assert EncVals(l) + rest == EncVal(l[0]) + (EncVals(l[1..]) + rest);
      ValRoundTrip(l[0], EncVals(l[1..]) + rest);
      ValsRoundTrip(l[1..], rest);
      assert [l[0]] + l[1..] == l;
    } else {
      assert [] + rest == rest;
    }
  }

  lemma {:induction false} PairsRoundTrip(l: seq<(KVal, KVal)>, m: map<KVal, KVal>, rest: seq<byte>)
    requires forall e :: e in l ==> FitVal(e.0) && FitVal(e.1)
    ensures DecPairs(|l|, m, EncPairs(l) + rest) == (Inserted(m, l), rest)
    decreases |l|
  {
    hide EncVal, DecVal, Enc;
    if l != [] {
      var tail := EncPairs(l[1..]) + rest;
      assert EncPairs(l) + rest == EncVal(l[0].0) + (EncVal(l[0].1) + tail);
      assert l[0] in l;
      ValRoundTrip(l[0].0, EncVal(l[0].1) + tail);
      ValRoundTrip(l[0].1, tail);
      PairsRoundTrip(l[1..], m[l[0].0 := l[0].1], rest);
    } else {
      assert [] + rest == rest;
    }
  }

  lemma TableRoundTrip(t: Table, rest: seq<byte>)
    requires FitTable(t)
    ensures DecTable(EncTable(t) + rest) == (LoadedTable(t), rest)
  {
    hide Enc, Dec, DecWord, EncVals, DecVals, EncPairs, DecPairs;
    var slots := Slots(t.arr);
    var s3 := EncPairs(t.hash) + rest;
    var s2 := EncVals(slots) + s3;
    assert EncTable(t) + rest == Enc(|slots|) + (Enc(|t.hash|) + s2);
    WordRoundTrip(|slots|, Enc(|t.hash|) + s2);
    WordRoundTrip(|t.hash|, s2);
    ValsRoundTrip(slots, s3);
    PairsRoundTrip(t.hash, map[], rest);
  }

  /** With distinct keys, every entry of the hash part is found in the table that is read, and nothing else. */
  lemma {:induction false} InsertedEntries(m: map<KVal, KVal>, l: seq<(KVal, KVal)>)
    requires forall i, j :: 0 <= i < j < |l| ==> l[i].0 != l[j].0
    ensures forall i :: 0 <= i < |l| ==> l[i].0 in Inserted(m, l) && Inserted(m, l)[l[i].0] == l[i].1
    ensures forall k :: k in Inserted(m, l) ==> k in m || exists i :: 0 <= i < |l| && l[i].0 == k
    ensures forall k :: k in m && (forall i :: 0 <= i < |l| ==> l[i].0 != k) ==>
              k in Inserted(m, l) && Inserted(m, l)[k] == m[k]
    decreases |l|
  {
    if l != [] {
      var m1, tail := m[l[0].0 := l[0].1], l[1..];
      InsertedEntries(m1, tail);
      assert forall i :: 0 < i < |l| ==> l[i] == tail[i - 1];
      assert forall i :: 0 <= i < |tail| ==> tail[i].0 != l[0].0;
      forall k | k in Inserted(m, l) && k !in m
        ensures exists i :: 0 <= i < |l| && l[i].0 == k
      {
        if k != l[0].0 {
          var i :| 0 <= i < |tail| && tail[i].0 == k;
          assert l[i + 1].0 == k;
        }
      }
    }
  }

  /** What may come back for a value of a table: numbers as above, everything else unchanged. */
  predicate SameVal(v: KVal, r: KVal, narrow: Narrow) {
    match v
    case KNum(c) => r.KNum? && SameNum(c, r.num, narrow)
    case KNil => r == KNil
    case KTrue => r == KTrue
    case KFalse => r == KFalse
    case KStr(str) => r == KStr(str)
  }

  /** Entry `i` is the last one with the key. */
  predicate LastEntry(l: seq<(KVal, KVal)>, k: KVal, i: nat) {
    i < |l| && l[i].0 == k && forall j :: i < j < |l| ==> l[j].0 != k
  }

  ghost predicate EntryComesBack(l: seq<(KVal, KVal)>, k: KVal, v: KVal, narrow: Narrow) {
    exists i: nat :: LastEntry(l, k, i) && SameVal(l[i].1, v, narrow)
  }

  /** A table comes back: its array part position by position, and its hash part with the same keys, each with its
      last value. */
  ghost predicate SameTable(t: Table, r: Loaded, narrow: Narrow) {
    && |r.arr| == |t.arr| && (forall i :: 0 <= i < |t.arr| ==> SameVal(t.arr[i], r.arr[i], narrow))
    && (forall i :: 0 <= i < |t.hash| ==> t.hash[i].0 in r.hash)
    && (forall k :: k in r.hash ==> EntryComesBack(t.hash, k, r.hash[k], narrow))
  }

  lemma {:induction false} NarrowedValsSame(l: seq<KVal>, narrow: Narrow)
    ensures forall i :: 0 <= i < |l| ==> SameVal(l[i], NarrowedVals(l, narrow)[i], narrow)
  {
    if l != [] {
      NarrowedValsSame(l[1..], narrow);
    }
  }

  lemma {:induction false} NarrowedPairsSame(l: seq<(KVal, KVal)>, narrow: Narrow)
    ensures var n := NarrowedPairs(l, narrow);
            forall i :: 0 <= i < |l| ==> n[i].0 == l[i].0 && SameVal(l[i].1, n[i].1, narrow)
  {
    if l != [] {
      NarrowedPairsSame(l[1..], narrow);
    }
  }

  /** Inserting entries one after the other leaves every key with its last value. */
  lemma {:induction false} LastInserted(m: map<KVal, KVal>, l: seq<(KVal, KVal)>)
    ensures forall i :: 0 <= i < |l| ==> l[i].0 in Inserted(m, l)
    ensures forall k :: k in m ==> k in Inserted(m, l)
    ensures forall k :: k in Inserted(m, l) ==> InsertedFrom(m, l, k)
    decreases |l|
  {
    if l != [] {
      var m1, tail := m[l[0].0 := l[0].1], l[1..];
      LastInserted(m1, tail);
      forall k | k in Inserted(m, l)
        ensures InsertedFrom(m, l, k)
      {
        assert InsertedFrom(m1, tail, k);
        if i: nat :| LastEntry(tail, k, i) && Inserted(m1, tail)[k] == tail[i].1 {
          assert LastEntry(l, k, i + 1);
        } else if k == l[0].0 {
          assert LastEntry(l, k, 0);
        }
      }
      forall i | 0 <= i < |l|
        ensures l[i].0 in Inserted(m, l)
      {
        assert i > 0 ==> l[i] == tail[i - 1];
      }
    }
  }

  /** The value of a key is that of its last entry, or the one it had before if there is none. */
  ghost predicate InsertedFrom(m: map<KVal, KVal>, l: seq<(KVal, KVal)>, k: KVal)
    requires k in Inserted(m, l)
  {
    var v := Inserted(m, l)[k];
    || (exists i: nat :: LastEntry(l, k, i) && v == l[i].1)
    || ((forall i :: 0 <= i < |l| ==> l[i].0 != k) && k in m && v == m[k])
  }

  /** A table as it is written and read comes back. */
  lemma TableComesBack(t: Table, narrow: Narrow)
    ensures SameTable(t, LoadedTable(NarrowedTable(t, narrow)), narrow)
  {
    hide SameVal, NarrowedVals, NarrowedPairs, Inserted;
    var n := NarrowedPairs(t.hash, narrow);
    var hash := Inserted(map[], n);
    NarrowedValsSame(t.arr, narrow);
    NarrowedPairsSame(t.hash, narrow);
    LastInserted(map[], n);
    forall i | 0 <= i < |t.hash|
      ensures t.hash[i].0 in hash
    {
      assert n[i].0 in hash;
    }
    forall k | k in hash
      ensures EntryComesBack(t.hash, k, hash[k], narrow)
    {
      assert InsertedFrom(map[], n, k);
      var i: nat :| LastEntry(n, k, i) && hash[k] == n[i].1;
      assert LastEntry(t.hash, k, i);
    }
  }

  method WriteTable(out: Output, t: Table, narrow: Narrow)
    modifies out
    ensures out.data == old(out.data) + EncTable(NarrowedTable(t, narrow))
  {
    hide Enc, NarrowedVals, NarrowedPairs, EncPairs, EncVal;
    ghost var n := NarrowedTable(t, narrow);
    if t.arr != [] {
      WriteUleb(out, |t.arr| + 1);
    } else {
      WriteUleb(out, 0);
    }
    WriteUleb(out, |t.hash|);
    if t.arr != [] {
      WriteVal(out, KNil, true, narrow);
      WriteVals(out, t.arr, narrow);
      assert Slots(n.arr)[1..] == n.arr;
    }
    assert out.data == old(out.data) + (Enc(|Slots(n.arr)|) + Enc(|n.hash|) + EncVals(Slots(n.arr)));
    WritePairs(out, t.hash, narrow);
  }

  method WriteVals(out: Output, l: seq<KVal>, narrow: Narrow)
    modifies out
    ensures out.data == old(out.data) + EncVals(NarrowedVals(l, narrow))
  {
    hide EncVal, NarrowedVal;
    for i := 0 to |l|
      invariant out.data + EncVals(NarrowedVals(l[i..], narrow)) == old(out.data) + EncVals(NarrowedVals(l, narrow))
    {
      assert l[i..][1..] == l[i + 1..];
      WriteVal(out, l[i], true, narrow);
    }
  }

  method WritePairs(out: Output, l: seq<(KVal, KVal)>, narrow: Narrow)
    modifies out
    ensures out.data == old(out.data) + EncPairs(NarrowedPairs(l, narrow))
  {
    hide EncVal, NarrowedVal;
    for i := 0 to |l|
      invariant out.data + EncPairs(NarrowedPairs(l[i..], narrow)) == old(out.data) + EncPairs(NarrowedPairs(l, narrow))
    {
      assert l[i..][1..] == l[i + 1..];
      WriteVal(out, l[i].0, false, narrow);
      WriteVal(out, l[i].1, true, narrow);
    }
  }

  method ReadTable(input: Input) returns (t: Loaded)
    modifies input
    ensures (t, input.rest) == DecTable(old(input.rest))
  {
    hide Dec, DecWord, DecVals, DecPairs;
    var narray := ReadUleb(input);
    var nhash := ReadUleb(input);
    var arr := ReadVals(input, narray);
    if narray != 0 {
      arr := arr[1..];
    }
    var hash := ReadPairs(input, nhash);
    t := Loaded(arr, hash);
  }

  lemma NextVal(before: seq<KVal>, n: nat, s: seq<byte>)
    requires n > 0
    ensures var (v, rest) := DecVal(s);
            && before + DecVals(n, s).0 == before + [v] + DecVals(n - 1, rest).0
            && DecVals(n, s).1 == DecVals(n - 1, rest).1
  {
    hide DecVal;
  }

  method ReadVals(input: Input, n: nat) returns (arr: seq<KVal>)
    modifies input
    ensures (arr, input.rest) == DecVals(n, old(input.rest))
  {
    hide DecVal;
    arr := [];
    for j := 0 to n
      invariant arr + DecVals(n - j, input.rest).0 == DecVals(n, old(input.rest)).0
      invariant DecVals(n - j, input.rest).1 == DecVals(n, old(input.rest)).1
    {
      NextVal(arr, n - j, input.rest);
      var v := ReadVal(input);
      arr := arr + [v];
    }
    assert arr + [] == arr;
  }

  method ReadPairs(input: Input, n: nat) returns (hash: map<KVal, KVal>)
    modifies input
    ensures (hash, input.rest) == DecPairs(n, map[], old(input.rest))
  {
    hide DecVal;
    hash := map[];
    for j := 0 to n
      invariant DecPairs(n - j, hash, input.rest) == DecPairs(n, map[], old(input.rest))
    {
      var k := ReadVal(input);
      var v := ReadVal(input);
      hash := hash[k := v];
    }
  }
}
