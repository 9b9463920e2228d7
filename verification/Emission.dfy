/** Instruction words, jumps and constant slots: what the composer writes is what a reader of the finished function
    decodes. The operand format of an opcode is a parameter; its table is not part of this model. */
module Emission {
  import opened Basics
  import Uleb

  const JUMP_BIAS: int := 0x8000
  const OP_ISLT: byte := 0
  const OP_ISGE: byte := 1
  const OP_ISLE: byte := 2
  const OP_ISGT: byte := 3
  const OP_ISEQV: byte := 4
  const OP_ISNEV: byte := 5
  const OP_ISEQS: byte := 6
  const OP_ISNES: byte := 7
  const OP_ISEQN: byte := 8
  const OP_ISNEN: byte := 9
  const OP_ISEQP: byte := 10
  const OP_ISNEP: byte := 11
  const OP_ISTC: byte := 12
  const OP_ISFC: byte := 13
  const OP_IST: byte := 14
  const OP_ISF: byte := 15
  const OP_CAT: byte := 36
  const OP_KNIL: byte := 42
  const OP_UCLO: byte := 48
  const OP_CALL: byte := 62
  const OP_CALLT: byte := 64
  const OP_RETM: byte := 69
  const OP_RET: byte := 70
  const OP_RET0: byte := 71
  const OP_RET1: byte := 72
  const OP_FORI: byte := 73
  const OP_FORL: byte := 75
  const OP_LOOP: byte := 81
  const OP_JMP: byte := 84

  /** Whether an opcode has three operands; otherwise it has two, the second one of 16 bits. */
  type Format = byte -> bool

  /** The instructions whose second operand is a jump. */
  predicate IsPatchable(op: byte) { op in {OP_FORI, OP_FORL, OP_JMP, OP_LOOP, OP_UCLO} }

  predicate JumpsHaveTwo(abc: Format) { forall op :: IsPatchable(op) ==> !abc(op) }

  // ---------------------------------------------------------------- words

  function OpOf(w: u32): byte { w % 0x100 }

  function AOf(w: u32): byte { w / 0x100 % 0x100 }

  function BOf(w: u32): byte { w / 0x100_0000 }

  function COf(w: u32): byte { w / 0x1_0000 % 0x100 }

  function DOf(w: u32): u16 { w / 0x1_0000 }

  function Word(op: byte, a: byte, b: byte, cd: u16, three: bool): u32
    requires three ==> cd < 0x100
  {
    if three then op + 0x100 * a + 0x1_0000 * cd + 0x100_0000 * b else op + 0x100 * a + 0x1_0000 * cd
  }

  /** All operands are read back. */
  lemma WordRoundTrip(op: byte, a: byte, b: byte, cd: u16, three: bool)
    requires three ==> cd < 0x100
    ensures var w := Word(op, a, b, cd, three);
            OpOf(w) == op && AOf(w) == a && if three then BOf(w) == b && COf(w) == cd else DOf(w) == cd
  {
    var w := Word(op, a, b, cd, three);
    var high: int := if three then cd + 0x100 * b else cd;
    var middle := a + 0x100 * high;
    assert w == op + 0x100 * middle;
    assert w / 0x100 == middle && middle / 0x100 == high;
    assert w / 0x1_0000 == high by { DivTwice(w); }
    if three {
      assert high / 0x100 == b;
      assert w / 0x100_0000 == b by { DivThrice(w); }
    }
  }

  lemma DivTwice(w: u32)
    ensures w / 0x1_0000 == w / 0x100 / 0x100
  {
  }

  lemma DivThrice(w: u32)
    ensures w / 0x100_0000 == w / 0x1_0000 / 0x100
  {
  }

  // ---------------------------------------------------------------- jumps

  /** The operand of a jump by `offset`, biased and cut to 16 bits. */
  function Biased(offset: int): u16 { (offset + JUMP_BIAS) % 0x1_0000 }

  /** The statement a jump at `pc` leads to, as the instruction decoder sees it. */
  function Target(code: seq<u32>, pc: nat): int
    requires pc < |code|
  {
    pc + 1 + (DOf(code[pc]) - JUMP_BIAS)
  }

  /** A jump survives encoding if and only if it spans less than 2^15 instructions. */
  lemma JumpDecodes(pc: nat, dest: int)
    ensures pc + 1 + (Biased(dest - (pc + 1)) - JUMP_BIAS) == dest <==> -0x8000 <= dest - (pc + 1) < 0x8000
  {
    var off := dest - (pc + 1);
    if -0x8000 <= off < 0x8000 {
      assert off + JUMP_BIAS == Biased(off);
    }
  }

  // ---------------------------------------------------------------- rows and columns

  /** A row and a column in one number of `bits` bits, the lowest `colBits` of which hold the column; what is too large
      for its part is cut to the largest value. */
  function PackRowCol(row: nat, col: nat, bits: nat, colBits: nat): nat
    requires colBits <= bits
  {
    var maxRow, maxCol := Uleb.Pow2(bits - colBits) - 1, Uleb.Pow2(colBits) - 1;
    (if row > maxRow then maxRow else row) * Uleb.Pow2(colBits) + if col > maxCol then maxCol else col
  }

  /** The row is shifted out, the column masked. */
  function UnpackRow(rowCol: nat, colBits: nat): nat {
    if colBits == 0 then rowCol else UnpackRow(rowCol / 2, colBits - 1)
  }

  function UnpackCol(rowCol: nat, colBits: nat): nat {
    if colBits == 0 then 0 else rowCol % 2 + 2 * UnpackCol(rowCol / 2, colBits - 1)
  }

  /** Row and column are read back exactly if they fit their parts; the number always fits its bits. */
  lemma PackRoundTrip(row: nat, col: nat, bits: nat, colBits: nat)
    requires colBits <= bits
    ensures var p := PackRowCol(row, col, bits, colBits);
            && p < Uleb.Pow2(bits)
            && (UnpackRow(p, colBits) == row <==> row < Uleb.Pow2(bits - colBits))
            && (UnpackCol(p, colBits) == col <==> col < Uleb.Pow2(colBits))
  {
    hide Uleb.Pow2;
    var r, c := Uleb.Pow2(bits - colBits), Uleb.Pow2(colBits);
    PowersMultiply(bits - colBits, colBits);
    var kept, rest := if row > r - 1 then r - 1 else row, if col > c - 1 then c - 1 else col;
    Parts(kept, rest, colBits);
    NextMultiple(kept, r, c);
  }

  lemma Halves(row: nat, h: nat, col: nat)
    ensures var p := row * (2 * h) + col; p / 2 == row * h + col / 2 && p % 2 == col % 2
  {
    var half := row * h;
    assert row * (2 * h) == 2 * half;
    assert (2 * half + col) / 2 == half + col / 2 && (2 * half + col) % 2 == col % 2;
  }

  lemma Doubled(n: nat)
    requires n > 0
    ensures Uleb.Pow2(n) == 2 * Uleb.Pow2(n - 1)
  {
  }

  lemma {:induction false} Parts(row: nat, col: nat, n: nat)
    requires col < Uleb.Pow2(n)
    ensures var p := row * Uleb.Pow2(n) + col; UnpackRow(p, n) == row && UnpackCol(p, n) == col
  {
    if n == 0 {
      assert row * Uleb.Pow2(0) == row;
    } else {
      hide Uleb.Pow2;
      Doubled(n);
      Halves(row, Uleb.Pow2(n - 1), col);
      Parts(row, col / 2, n - 1);
      UnpackStep(row * Uleb.Pow2(n) + col, n);
    }
  }

  lemma UnpackStep(p: nat, n: nat)
    requires n > 0
    ensures UnpackRow(p, n) == UnpackRow(p / 2, n - 1) && UnpackCol(p, n) == p % 2 + 2 * UnpackCol(p / 2, n - 1)
  {
  }

  lemma NextMultiple(q: nat, k: nat, c: nat)
    requires q < k
    ensures q * c + c <= k * c
  {
    assert (q + 1) * c <= k * c;
  }

  lemma {:induction false} PowersMultiply(a: nat, b: nat)
    ensures Uleb.Pow2(a) * Uleb.Pow2(b) == Uleb.Pow2(a + b)
  {
    if a > 0 {
      PowersMultiply(a - 1, b);
    }
  }

  // ---------------------------------------------------------------- short functions

  /** In functions of up to 32768 statements all jumps do. */
  lemma ShortJumps(n: nat, pc: nat, dest: nat)
    requires n <= 0x8000 && pc < n && dest <= n
    ensures -0x8000 <= dest - (pc + 1) < 0x8000
  {
  }

  // ---------------------------------------------------------------- the composer

  /** A constant: a number, or an object with its value. */
  datatype Const = Number(n: int) | Object(s: string)

  /** The constants used so far with their slots, which count up from 0. */
  ghost predicate Dense(m: map<Const, nat>) {
    && (forall c :: c in m ==> m[c] < |m|)
    && (forall c, d :: c in m && d in m && m[c] == m[d] ==> c == d)
  }

  class Composer {
    const abc: Format
    const hasDebugInfo: bool
    const useRowCol: bool               // rows and columns are kept in one number instead of lines
    const colBits: nat                  // the bits of the column, 0 when there are no columns
    var byteCodes: seq<u32>
    var lines: seq<nat>
    var numConst: map<Const, nat>
    var gcConst: map<Const, nat>
    var constNums: seq<Const>
    var constObjs: seq<Const>

    constructor (abc: Format, hasDebugInfo: bool, useRowCol: bool, colBits: nat)
      requires JumpsHaveTwo(abc)
      ensures Valid() && byteCodes == [] && this.abc == abc && this.hasDebugInfo == hasDebugInfo
      ensures this.useRowCol == useRowCol && this.colBits == colBits
      ensures numConst == map[] && gcConst == map[]
    {
      this.abc, this.hasDebugInfo, this.useRowCol, this.colBits := abc, hasDebugInfo, useRowCol, colBits;
      byteCodes, lines, numConst, gcConst, constNums, constObjs := [], [], map[], map[], [], [];
    }

    /** Slots are numbered without gaps, and with debug information there is a line for every instruction. */
    ghost predicate Valid()
      reads this
    {
      && JumpsHaveTwo(abc) && Dense(numConst) && Dense(gcConst)
      && |lines| == if hasDebugInfo then |byteCodes| else 0
    }

    /** What is kept of a line number: only the row, unless rows and columns are asked for. */
    function Kept(line: u32): nat {
      if useRowCol || colBits == 0 then line else UnpackRow(line, colBits)
    }

    /** Appends an instruction; fails if a three-operand instruction has a last operand over 255. */
    method AddOp(op: byte, a: byte, b: byte, cd: u16, line: u32) returns (ok: bool)
      requires Valid()
      modifies `byteCodes, `lines
      ensures Valid() && ok == (abc(op) ==> cd < 0x100)
      ensures byteCodes == if ok then old(byteCodes) + [Word(op, a, b, cd, abc(op))] else old(byteCodes)
      ensures lines == if ok && hasDebugInfo then old(lines) + [Kept(line)] else old(lines)
    {
      hide Word;
      if abc(op) && cd > 255 {
        return false;
      }
      if line > 0 {
        if hasDebugInfo {
          if !useRowCol && colBits != 0 {
            lines := lines + [UnpackRow(line, colBits)];
          } else {
            lines := lines + [line];
          }
        }
      } else if hasDebugInfo {
        NoRow(colBits);
        lines := lines + [0];
      }
      byteCodes := byteCodes + [Word(op, a, b, cd, abc(op))];
      ok := true;
    }

    /** The index of the last instruction, -1 if there is none. */
    function CurPc(): int
      reads this
    {
      |byteCodes| - 1
    }

    /** Sets the jump at `pc`; everything else stays, in the instruction and in the function. Other instructions are
        refused. */
    method Patch(pc: nat, off: int) returns (ok: bool)
      requires Valid()
      modifies `byteCodes
      ensures Valid() && ok == (pc < |old(byteCodes)| && IsPatchable(OpOf(old(byteCodes)[pc])))
      ensures !ok ==> byteCodes == old(byteCodes)
      ensures ok ==> |byteCodes| == |old(byteCodes)| && byteCodes == old(byteCodes)[pc := byteCodes[pc]]
                     && OpOf(byteCodes[pc]) == OpOf(old(byteCodes)[pc]) && AOf(byteCodes[pc]) == AOf(old(byteCodes)[pc])
                     && DOf(byteCodes[pc]) == Biased(off)
    {
      if pc >= |byteCodes| || !IsPatchable(OpOf(byteCodes[pc])) {
        return false;
      }
      var w := byteCodes[pc];
      var low := w % 0x1_0000;
      PatchedWord(w, Biased(off));
      byteCodes := byteCodes[pc := low + 0x1_0000 * Biased(off)];
      ok := true;
    }

    /** Makes the jump at `dest` lead to the instruction that comes next, if this is less than 2^15 instructions
        away. */
    method PatchHere(dest: nat) returns (ok: bool)
      requires Valid() && dest < |byteCodes|
      modifies `byteCodes
      ensures Valid() && |byteCodes| == |old(byteCodes)| && ok == IsPatchable(OpOf(old(byteCodes)[dest]))
      ensures ok ==> (Target(byteCodes, dest) == |byteCodes| <==> |byteCodes| - (dest + 1) < 0x8000)
    {
      hide Biased, OpOf, AOf, DOf, IsPatchable, Dense;
      JumpDecodes(dest, |byteCodes|);
      assert CurPc() - dest == |byteCodes| - (dest + 1);
      ok := Patch(dest, CurPc() - dest);
    }

    /** Closes a loop: jumps back to `loopLabel`, and makes the jump there lead to this jump; each of the two arrives
        if it spans no more than a jump can. */
    method JumpToLoop(loopLabel: nat, base: byte, line: u32) returns (ok: bool)
      requires Valid() && loopLabel < |byteCodes|
      modifies `byteCodes, `lines
      ensures Valid() && |byteCodes| == |old(byteCodes)| + 1 && ok == IsPatchable(OpOf(old(byteCodes)[loopLabel]))
      ensures OpOf(byteCodes[|old(byteCodes)|]) == OP_JMP
      ensures Target(byteCodes, |old(byteCodes)|) == loopLabel <==> |byteCodes| - loopLabel <= 0x8000
      ensures ok ==> (Target(byteCodes, loopLabel) == |old(byteCodes)| <==> |old(byteCodes)| - (loopLabel + 1) < 0x8000)
    {
      hide Biased, OpOf, AOf, DOf, Word, Dense;
      var n := |byteCodes|;
      JumpDecodes(n, loopLabel);
      JumpDecodes(loopLabel, n);
      assert !abc(OP_JMP);
      assert loopLabel - CurPc() - 2 == loopLabel - (n + 1);
      WordRoundTrip(OP_JMP, base, 0, Biased(loopLabel - (n + 1)), false);
      var _ := AddOp(OP_JMP, base, 0, Biased(loopLabel - CurPc() - 2), line);
      assert CurPc() - loopLabel - 1 == n - (loopLabel + 1);
      ok := Patch(loopLabel, CurPc() - loopLabel - 1);
    }

    /** The slot of a constant in its pool; a new constant gets the next slot, known ones keep theirs. */
    method GetConstSlot(v: Const) returns (slot: nat)
      requires Valid()
      modifies `numConst, `gcConst
      ensures Valid()
      ensures if v.Number? then v in numConst && numConst[v] == slot else v in gcConst && gcConst[v] == slot
      ensures forall c :: c in old(numConst) ==> c in numConst && numConst[c] == old(numConst)[c]
      ensures forall c :: c in old(gcConst) ==> c in gcConst && gcConst[c] == old(gcConst)[c]
    {
      var p := if v.Number? then numConst else gcConst;
      if v !in p {
        slot := |p|;
        DenseAdd(p, v);
        p := p[v := slot];
      } else {
        slot := p[v];
      }
      if v.Number? {
        numConst := p;
      } else {
        gcConst := p;
      }
    }

    /** Turns the pools into lists, the one of objects in reverse. */
    method CloseFunction() returns (hasReturn: bool)
      requires Valid()
      modifies `constNums, `constObjs
      ensures |constNums| == |numConst| && forall c :: c in numConst ==> GetNumConst(constNums, numConst[c]) == c
      ensures |constObjs| == |gcConst| && forall c :: c in gcConst ==> GetGcConst(constObjs, gcConst[c]) == c
      ensures hasReturn == (byteCodes != [] && IsRet(OpOf(byteCodes[|byteCodes| - 1])))
    {
      constNums := ListOf(numConst, false);
      constObjs := ListOf(gcConst, true);
      hasReturn := byteCodes != [] && IsRet(OpOf(byteCodes[|byteCodes| - 1]));
    }
  }

  lemma NoRow(colBits: nat)
    ensures UnpackRow(0, colBits) == 0
  {
    hide Uleb.Pow2;
    Parts(0, 0, colBits);
  }

  /** A packed line is stored as its row, unless rows and columns are asked for: then both are kept. Without columns
      every line is stored as it is. */
  lemma KeptLine(c: Composer, row: nat, col: nat, bits: nat, line: u32)
    requires c.colBits <= bits && row < Uleb.Pow2(bits - c.colBits) && col < Uleb.Pow2(c.colBits)
    requires line == PackRowCol(row, col, bits, c.colBits)
    ensures c.useRowCol ==> UnpackRow(c.Kept(line), c.colBits) == row && UnpackCol(c.Kept(line), c.colBits) == col
    ensures !c.useRowCol ==> c.Kept(line) == row
    ensures c.useRowCol || c.colBits == 0 ==> c.Kept(line) == line
  {
    hide Uleb.Pow2, PackRowCol;
    PackRoundTrip(row, col, bits, c.colBits);
    if c.colBits == 0 {
      assert UnpackRow(line, 0) == line;
    }
  }

  predicate IsRet(op: byte) { OP_RETM <= op <= OP_RET1 || op == OP_CALLT }

  /** The constants of a pool by slot, or by slot from the end. */
  method ListOf(pool: map<Const, nat>, reverse: bool) returns (l: seq<Const>)
    requires Dense(pool)
    ensures |l| == |pool|
    ensures forall c :: c in pool ==> l[if reverse then |pool| - pool[c] - 1 else pool[c]] == c
  {
    l := seq(|pool|, i => Number(0));
    var rest := pool.Keys;
    while rest != {}
      invariant rest <= pool.Keys && |l| == |pool|
      invariant forall c :: c in pool.Keys - rest ==> l[if reverse then |pool| - pool[c] - 1 else pool[c]] == c
      decreases rest
    {
      var c :| c in rest;
      l := l[(if reverse then |pool| - pool[c] - 1 else pool[c]) := c];
      rest := rest - {c};
    }
  }

  /** How the interpreter reads a constant: numbers by slot, objects by slot from the end. */
  function GetNumConst(constNums: seq<Const>, i: nat): Const {
    if i < |constNums| then constNums[i] else Object("")
  }

  function GetGcConst(constObjs: seq<Const>, i: nat): Const {
    if i < |constObjs| then constObjs[|constObjs| - i - 1] else Object("")
  }

  lemma DenseAdd(m: map<Const, nat>, v: Const)
    requires Dense(m) && v !in m
    ensures Dense(m[v := |m|])
  {
  }

  lemma PatchedWord(w: u32, d: u16)
    ensures var p: u32 := w % 0x1_0000 + 0x1_0000 * d; OpOf(p) == OpOf(w) && AOf(p) == AOf(w) && DOf(p) == d
  {
    var low := w % 0x1_0000;
    var p := low + 0x1_0000 * d;
    assert w == 0x1_0000 * (w / 0x1_0000) + low;
    LowByte(low, d);
    LowByte(low, w / 0x1_0000);
  }

  lemma LowByte(low: nat, d: nat)
    requires low < 0x1_0000
    ensures (low + 0x1_0000 * d) % 0x100 == low % 0x100
    ensures (low + 0x1_0000 * d) / 0x100 % 0x100 == low / 0x100
    ensures (low + 0x1_0000 * d) / 0x1_0000 == d
  {
    assert low + 0x1_0000 * d == 0x100 * (low / 0x100 + 0x100 * d) + low % 0x100;
  }
}
