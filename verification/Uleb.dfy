/** Byte streams and the variable-length numbers of the bytecode format: ULEB128 (section 7.6 of DWARF 4) and
    the 33-bit form for constants, whose last byte the writer patches by hand. */
module Uleb {
  import opened Basics

  const WORD: nat := 0x1_0000_0000
  const TOP: nat := 0x8000_0000

  /** A device open for reading, as the bytes not yet read. */
  class Input {
    var rest: seq<byte>

    constructor (data: seq<byte>)
      ensures rest == data
    {
      rest := data;
    }

    /** The next byte; fails at the end. */
    method GetChar() returns (ok: bool, b: byte)
      modifies this
      ensures if old(rest) == [] then !ok && rest == [] else ok && b == old(rest)[0] && rest == old(rest)[1..]
    {
      ok, b := rest != [], 0;
      if ok {
        b, rest := rest[0], rest[1..];
      }
    }

    /** The next byte, 0 at the end. */
    method ReadByte() returns (b: byte)
      modifies this
      ensures (b, rest) == Head(old(rest))
    {
      var ok, c := GetChar();
      b := if ok then c else 0;
    }

    /** Up to `n` bytes. */
    method Read(n: nat) returns (data: seq<byte>)
      modifies this
      ensures (data, rest) == Cut(n, old(rest))
    {
      data, rest := Cut(n, rest).0, Cut(n, rest).1;
    }
  }

  /** A buffer open for writing. */
  class Output {
    var data: seq<byte>

    constructor ()
      ensures data == []
    {
      data := [];
    }

    method PutChar(b: byte)
      modifies this
      ensures data == old(data) + [b]
    {
      data := data + [b];
    }

    method Write(bytes: seq<byte>)
      modifies this
      ensures data == old(data) + bytes
    {
      data := data + bytes;
    }
  }

  function Head(s: seq<byte>): (byte, seq<byte>) {
    if s == [] then (0, []) else (s[0], s[1..])
  }

  function Cut(n: nat, s: seq<byte>): (seq<byte>, seq<byte>) {
    if n <= |s| then (s[..n], s[n..]) else (s, [])
  }

  lemma CutApart(a: seq<byte>, rest: seq<byte>)
    ensures Cut(|a|, a + rest) == (a, rest)
  {
  }

  // ---------------------------------------------------------------- the number format

  function Enc(v: nat): (s: seq<byte>)
    ensures s != []
  {
    if v < 0x80 then [v] else [v % 0x80 + 0x80] + Enc(v / 0x80)
  }

  /** The unbounded number at the start of `s` and the bytes after it; a truncated number ends with the bytes. */
  function Dec(s: seq<byte>): (r: (nat, seq<byte>))
    ensures |r.1| <= |s| && (s != [] ==> |r.1| < |s|)
  {
    if s == [] then (0, [])
    else if s[0] < 0x80 then (s[0], s[1..])
    else
      var (v, rest) := Dec(s[1..]);
      (s[0] % 0x80 + 0x80 * v, rest)
  }

  /** What a reader with 32-bit arithmetic makes of it. */
  function DecWord(s: seq<byte>): (r: (u32, seq<byte>))
    ensures |r.1| <= |s| && (s != [] ==> |r.1| < |s|)
  {
    (Low32(Dec(s).0), Dec(s).1)
  }

  lemma {:induction false} DecUndoesEnc(v: nat, rest: seq<byte>)
    ensures Dec(Enc(v) + rest) == (v, rest)
  {
    if v < 0x80 {
      assert (Enc(v) + rest)[1..] == rest;
    } else {
      DecUndoesEnc(v / 0x80, rest);
      assert (Enc(v) + rest)[1..] == Enc(v / 0x80) + rest;
    }
  }

  /** Every 32-bit value takes at most five bytes and is read back in any surrounding stream. */
  lemma WordRoundTrip(v: u32, rest: seq<byte>)
    ensures |Enc(v)| <= 5 && DecWord(Enc(v) + rest) == (v, rest)
  {
    hide Enc, Dec;
    DecUndoesEnc(v, rest);
    FiveBytes(v);
  }

  lemma FiveBytes(v: nat)
    requires v < 0x8_0000_0000
    ensures |Enc(v)| <= 5
  {
    var n := 5;
    assert Pow128(n) == 0x80 * Pow128(n - 1) && Pow128(n - 1) == 0x80 * Pow128(n - 2);
    assert Pow128(n - 2) == 0x80 * Pow128(n - 3) && Pow128(n - 3) == 0x80 * Pow128(n - 4);
    EncSize(v, n);
  }

  function Pow128(n: nat): (p: nat)
    ensures p > 0
  {
    if n == 0 then 1 else 0x80 * Pow128(n - 1)
  }

  lemma {:induction false} EncSize(v: nat, n: nat)
    requires 0 < n && v < Pow128(n)
    ensures |Enc(v)| <= n
  {
    if v >= 0x80 {
      assert n > 1;
      EncSize(v / 0x80, n - 1);
    }
  }

  // ---------------------------------------------------------------- readers and writers

  function Pow2(n: nat): (p: nat)
    ensures p > 0
  {
    if n == 0 then 1 else 2 * Pow2(n - 1)
  }

  function Low32(n: nat): u32 { n % WORD }

  /** Reading on with `r` as the bits so far and the next seven bits at position `shift`. */
  function Accumulate(r: u32, shift: nat, s: seq<byte>): (u32, seq<byte>)
    decreases |s|
  {
    if s == [] then (r, [])
    else
      var joined := Low32(r + s[0] % 0x80 * Pow2(shift));
      if s[0] < 0x80 then (joined, s[1..]) else Accumulate(joined, shift + 7, s[1..])
  }

  lemma Pow2Seven(n: nat)
    ensures Pow2(n + 7) == 0x80 * Pow2(n)
  {
    assert Pow2(n + 7) == 2 * Pow2(n + 6) == 4 * Pow2(n + 5) == 8 * Pow2(n + 4);
    assert Pow2(n + 4) == 2 * Pow2(n + 3) == 4 * Pow2(n + 2) == 8 * Pow2(n + 1);
  }

  lemma Low32Add(a: nat, b: nat)
    ensures Low32(Low32(a) + b) == Low32(a + b)
  {
  }

  lemma Distribute(r: nat, b: nat, p: nat, q: nat, v: nat)
    requires q == 0x80 * p
    ensures r + p * (b + 0x80 * v) == r + b * p + q * v
  {
  }

  lemma JoinGroup(r: nat, b: nat, p: nat, q: nat, v: nat)
    requires q == 0x80 * p
    ensures Low32(Low32(r + b * p) + q * v) == Low32(r + p * (b + 0x80 * v))
  {
    Low32Add(r + b * p, q * v);
    Distribute(r, b, p, q, v);
  }

  /** Collecting bits from the lowest group on yields the number, modulo the word size. */
  lemma {:induction false} AccumulateIsDec(r: u32, shift: nat, s: seq<byte>)
    ensures Accumulate(r, shift, s) == (Low32(r + Pow2(shift) * Dec(s).0), Dec(s).1)
    decreases |s|
  {
    hide Low32, Pow2;
    if s == [] {
      assert Low32(r) == r by { LowIsSame(r); }
    } else if s[0] >= 0x80 {
      var v := Dec(s[1..]).0;
      AccumulateIsDec(Low32(r + s[0] % 0x80 * Pow2(shift)), shift + 7, s[1..]);
      Pow2Seven(shift);
      JoinGroup(r, s[0] % 0x80, Pow2(shift), Pow2(shift + 7), v);
    } else {
      Distribute(r, s[0], Pow2(shift), 0x80 * Pow2(shift), 0);
    }
  }

  lemma LowIsSame(r: u32)
    ensures Low32(r) == r
  {
  }

  method WriteUleb(out: Output, value: nat)
    modifies out
    ensures out.data == old(out.data) + Enc(value)
  {
    var v := value;
    while v >= 0x80
      invariant out.data + Enc(v) == old(out.data) + Enc(value)
    {
      out.PutChar(v % 0x80 + 0x80);
      v := v / 0x80;
    }
    out.PutChar(v);
  }

  /** Adds the groups of seven bits that follow to `start`, the first one at position `first`. */
  method ReadGroups(input: Input, start: u32, first: nat) returns (result: u32)
    modifies input
    ensures (result, input.rest) == Accumulate(start, first, old(input.rest))
  {
    var shift := first;
    result := start;
    while true
      invariant Accumulate(result, shift, input.rest) == Accumulate(start, first, old(input.rest))
      decreases |input.rest|
    {
      var ok, b := input.GetChar();
      if !ok {
        break;
      }
      result := Low32(result + b % 0x80 * Pow2(shift));
      if b < 0x80 {
        break;
      }
      shift := shift + 7;
    }
  }

  method ReadUleb(input: Input) returns (result: u32)
    modifies input
    ensures (result, input.rest) == DecWord(old(input.rest))
  {
    AccumulateIsDec(0, 0, input.rest);
    result := ReadGroups(input, 0, 0);
  }

  /** The byte at a position of a buffer; past its end stands a zero. */
  function At(p: seq<byte>, pos: nat): byte {
    if pos < |p| then p[pos] else 0
  }

  function From(p: seq<byte>, pos: nat): seq<byte> {
    if pos <= |p| then p[pos..] else []
  }

  lemma NextByte(p: seq<byte>, pos: nat)
    requires pos <= |p|
    ensures Head(From(p, pos)) == (At(p, pos), From(p, pos + 1))
    ensures From(p, pos) == [] <==> pos == |p|
  {
    if pos < |p| {
      assert p[pos..][1..] == p[pos + 1..];
    }
  }

  /** The bytes after the first one of a number, over a buffer and a position. */
  method DebugGroups(p: seq<byte>, first: u32, start: nat) returns (v: u32, pos: nat)
    requires start <= |p|
    ensures (v, From(p, pos)) == Accumulate(first, 7, From(p, start)) && start < pos
  {
    hide Accumulate, Low32, Pow2;
    v, pos := first, start;
    var sh := 0;
    var more := true;
    while more
      invariant start <= pos && if more then pos <= |p| else start < pos
      invariant (if more then Accumulate(v, sh + 7, From(p, pos)) else (v, From(p, pos)))
                == Accumulate(first, 7, From(p, start))
      decreases more, |p| - pos
    {
      sh := sh + 7;
      NextByte(p, pos);
      AccumulateStep(v, sh, From(p, pos));
      var b := At(p, pos);
      v := Low32(v + b % 0x80 * Pow2(sh));
      more := b >= 0x80;
      pos := pos + 1;
    }
  }

  lemma AccumulateStep(v: u32, shift: nat, s: seq<byte>)
    ensures var (b, rest) := Head(s);
            var joined := Low32(v + b % 0x80 * Pow2(shift));
            Accumulate(v, shift, s) == if b >= 0x80 then Accumulate(joined, shift + 7, rest) else (joined, rest)
  {
  }

  /** The second decoder. */
  method DebugReadUleb(p: seq<byte>, start: nat) returns (v: u32, pos: nat)
    ensures (v, From(p, pos)) == DecWord(From(p, start)) && start < pos
  {
    v, pos := At(p, start), start + 1;
    if v >= 0x80 {
      OneGroup(From(p, start));
      NextByte(p, start);
      v, pos := DebugGroups(p, v % 0x80, pos);
    }
  }

  lemma OneGroup(s: seq<byte>)
    requires s != [] && s[0] >= 0x80
    ensures Accumulate(s[0] % 0x80, 7, s[1..]) == DecWord(s)
    ensures Accumulate(s[0] / 2 % 0x40, 6, s[1..]) == (Low32(Dec(s).0 / 2), Dec(s).1)
  {
    var b, v := s[0], Dec(s[1..]).0;
    AccumulateIsDec(b % 0x80, 7, s[1..]);
    AccumulateIsDec(b / 2 % 0x40, 6, s[1..]);
    SmallPowers();
    Halved(b, v);
  }

  lemma SmallPowers()
    ensures Pow2(6) == 0x40 && Pow2(7) == 0x80
  {
  }

  lemma Halved(b: byte, v: nat)
    requires b >= 0x80
    ensures (b % 0x80 + 0x80 * v) / 2 == b / 2 % 0x40 + 0x40 * v
  {
    assert b % 0x80 == b - 0x80 && b / 2 % 0x40 == b / 2 - 0x40;
  }

  /** The upper 32 bits of a 33-bit number; the lowest bit is a flag that the caller has looked at. */
  method ReadUleb33(input: Input) returns (result: u32)
    modifies input
    ensures (result, input.rest) == (Low32(Dec(old(input.rest)).0 / 2), Dec(old(input.rest)).1)
  {
    var ok, b := input.GetChar();
    if !ok {
      return 0;
    }
    result := b / 2;
    if result >= 0x40 {
      OneGroup(old(input.rest));
      result := ReadGroups(input, result % 0x40, 6);
    }
  }

  // ---------------------------------------------------------------- the 33-bit writer

  /** `2 * u`, cut to 32 bits, with the top bit of `u` put in place of the lost one. */
  function Truncated(u: u32): u32 {
    var twice := 2 * u % WORD;
    if u >= TOP && twice < TOP then twice + TOP else twice
  }

  /** Corrects the last byte for numbers that need more than 32 bits. */
  function Patched(s: seq<byte>, u: u32): seq<byte>
    requires s != []
  {
    if u >= TOP then s[|s| - 1 := s[|s| - 1] % 8 + u / 0x4000_0000 * 8] else s
  }

  /** The first `n` bytes of a longer number. */
  function LowGroups(v: nat, n: nat): seq<byte> {
    if n == 0 then [] else [v % 0x80 + 0x80] + LowGroups(v / 0x80, n - 1)
  }

  lemma ScaleGroups(p: nat, high: nat)
    requires 0 < p && 0 < high
    ensures 0x80 * p * high == 0x80 * (p * high) && p * high >= 1
  {
  }

  lemma EncStep(low: nat, x: nat)
    requires x >= 1
    ensures Enc(low + 0x80 * x) == [low % 0x80 + 0x80] + Enc(low / 0x80 + x)
  {
    assert (low + 0x80 * x) / 0x80 == low / 0x80 + x && (low + 0x80 * x) % 0x80 == low % 0x80;
  }

  lemma {:induction false} EncSplits(low: nat, n: nat, high: nat)
    requires low < Pow128(n) && 0 < high < 0x80
    ensures Enc(low + Pow128(n) * high) == LowGroups(low, n) + [high]
  {
    if n > 0 {
      var x := Pow128(n - 1) * high;
      ScaleGroups(Pow128(n - 1), high);
      EncSplits(low / 0x80, n - 1, high);
      EncStep(low, x);
    }
  }

  /** The groups of five bytes: 28 low bits, then the rest. */
  lemma EncFive(v: nat)
    requires 0x1000_0000 <= v < 0x8_0000_0000
    ensures Enc(v) == LowGroups(v % 0x1000_0000, 4) + [v / 0x1000_0000]
  {
    assert Pow128(4) == 0x80 * Pow128(3) == 0x4000 * Pow128(2) == 0x20_0000 * Pow128(1) == 0x1000_0000;
    EncSplits(v % 0x1000_0000, 4, v / 0x1000_0000);
  }

  /** The top bits of the truncated number, corrected, are those of the whole number. */
  lemma TopBits(u: u32, flag: nat)
    requires flag <= 1 && u >= TOP
    ensures var t, w := flag + Truncated(u), 2 * u + flag;
            && 0x1000_0000 <= t < 0x8_0000_0000 && 0x1000_0000 <= w < 0x8_0000_0000
            && t % 0x1000_0000 == w % 0x1000_0000
            && t / 0x1000_0000 % 8 + u / 0x4000_0000 * 8 == w / 0x1000_0000
  {
    var y := 2 * (u - TOP) + flag;
    var q, r := y / 0x1000_0000, y % 0x1000_0000;
    assert y == 0x1000_0000 * q + r;
    assert 2 * u % WORD == 2 * (u - TOP);
    var t, w := flag + Truncated(u), 2 * u + flag;
    assert w == 0x1000_0000 * (16 + q) + r;
    if 2 * (u - TOP) < TOP {
      assert t == 0x1000_0000 * (8 + q) + r;
    } else {
      assert t == 0x1000_0000 * q + r;
    }
  }

  /** The hand-made patch yields exactly the encoding of the 33-bit number. */
  lemma PatchCompletes(u: u32, flag: nat)
    requires flag <= 1
    ensures Patched(Enc(flag + Truncated(u)), u) == Enc(2 * u + flag)
  {
    if u >= TOP {
      TopBits(u, flag);
      EncFive(flag + Truncated(u));
      EncFive(2 * u + flag);
      assert |LowGroups((2 * u + flag) % 0x1000_0000, 4)| == |Enc(2 * u + flag)| - 1;
    }
  }

  method WriteUleb33(out: Output, u: u32, flag: nat)
    requires flag <= 1
    modifies out
    ensures out.data == old(out.data) + Enc(2 * u + flag)
  {
    hide Enc, Truncated;
    var tmp := new Output();
    WriteUleb(tmp, flag + Truncated(u));
    var bytes := tmp.data;
    if u >= TOP {
      bytes := bytes[|bytes| - 1 := bytes[|bytes| - 1] % 8 + u / 0x4000_0000 * 8];
    }
    PatchCompletes(u, flag);
    out.Write(bytes);
  }
}
