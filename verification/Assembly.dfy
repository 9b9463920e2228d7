/** From statements with symbolic jumps to instruction words: labels are resolved, and every emitted jump decodes to
    the statement its label stands in front of. */
module Assembly {
  import opened Basics
  import opened Emission

  /** The last operand of a statement: a label, or a value. */
  datatype Operand = Label(name: string) | Value(n: u16)

  datatype Stmt = Stmt(op: byte, a: byte, b: byte, last: Operand, line: u32)

  datatype Checked = Fine(stmts: seq<Stmt>) | Failed(msg: string)

  predicate IsJump(op: byte) { op in {OP_UCLO, OP_FORI, OP_FORL, OP_JMP} }

  predicate IsTest(op: byte) { op <= 15 }

  /** The opcodes that jumps, tests and returns are told by, one by one. */
  lemma OpcodesAre(op: byte)
    ensures IsTest(op) <==> op in {OP_ISLT, OP_ISGE, OP_ISLE, OP_ISGT, OP_ISEQV, OP_ISNEV, OP_ISEQS, OP_ISNES, OP_ISEQN,
                                   OP_ISNEN, OP_ISEQP, OP_ISNEP, OP_ISTC, OP_ISFC, OP_IST, OP_ISF}
    ensures IsRet(op) <==> op in {OP_RETM, OP_RET, OP_RET0, OP_RET1, OP_CALLT}
    ensures IsJump(op) <==> IsPatchable(op) && op != OP_LOOP
  {
  }

  /** Statements as the parser makes them: labels in jumps, and no jump without one but UCLO. */
  predicate Parsed(s: Stmt) {
    if s.op == OP_UCLO then true else IsJump(s.op) == s.last.Label?
  }

  predicate StmtOk(stmts: seq<Stmt>, labels: map<string, nat>, pc: nat)
    requires pc < |stmts|
  {
    && (IsTest(stmts[pc].op) ==> pc + 1 < |stmts| && stmts[pc + 1].op == OP_JMP)
    && (stmts[pc].last.Label? ==> stmts[pc].last.name in labels)
  }

  /** Tests are followed by jumps, labels are defined, and the last statement returns. */
  predicate Acceptable(stmts: seq<Stmt>, labels: map<string, nat>)
    requires stmts != []
  {
    (forall pc :: 0 <= pc < |stmts| ==> StmtOk(stmts, labels, pc)) && IsRet(stmts[|stmts| - 1].op)
  }

  function Resolved(s: Stmt, labels: map<string, nat>, pc: nat): Stmt {
    if s.last.Label? && s.last.name in labels then s.(last := Value(Biased(labels[s.last.name] - (pc + 1)))) else s
  }

  predicate ResolvedUpTo(stmts: seq<Stmt>, now: seq<Stmt>, labels: map<string, nat>, n: nat) {
    && |now| == |stmts|
    && (forall pc :: 0 <= pc < n && pc < |now| ==> now[pc] == Resolved(stmts[pc], labels, pc))
    && (forall pc :: n <= pc < |now| ==> now[pc] == stmts[pc])
  }

  /** Replaces labels by biased offsets. Accepts exactly the acceptable programs. */
  method CheckJumpsAndMore(stmts: seq<Stmt>, labels: map<string, nat>) returns (r: Checked)
    requires stmts != [] && forall pc :: 0 <= pc < |stmts| ==> Parsed(stmts[pc])
    ensures r.Fine? <==> Acceptable(stmts, labels)
    ensures r.Fine? ==> ResolvedUpTo(stmts, r.stmts, labels, |stmts|)
  {
    hide Biased;
    var now := stmts;
    for pc := 0 to |stmts|
      invariant ResolvedUpTo(stmts, now, labels, pc)
      invariant forall i :: 0 <= i < pc ==> StmtOk(stmts, labels, i)
    {
      if IsTest(now[pc].op) && (pc == |now| - 1 || now[pc + 1].op != OP_JMP) {
        assert !StmtOk(stmts, labels, pc);
        return Failed("expecting JMP after comparison or test ops");
      }
      if IsJump(now[pc].op) && now[pc].last.Label? {
        if now[pc].last.name !in labels {
          assert !StmtOk(stmts, labels, pc);
          return Failed("label not defined");
        }
        now := now[pc := now[pc].(last := Value(Biased(labels[now[pc].last.name] - (pc + 1))))];
      }
      assert StmtOk(stmts, labels, pc) by { assert Parsed(stmts[pc]); LabelsInJumps(stmts[pc]); }
    }
    if IsRet(now[|now| - 1].op) {
      r := Fine(now);
    } else {
      r := Failed("last statement must be return or tail call");
    }
  }

  lemma LabelsInJumps(s: Stmt)
    requires Parsed(s)
    ensures s.last.Label? ==> IsJump(s.op)
  {
  }

  const MAX_SLOTS: nat := 250

  /** The operands as they are emitted: counts of slots become the last slot, counts of arguments and results are
      larger by one. */
  function SecondOf(s: Stmt): nat { if s.op == OP_CALL then s.b + 1 else s.b }

  function LastOf(s: Stmt): int
    requires s.last.Value?
  {
    var n := s.last.n;
    if s.op == OP_CAT then s.b + n - 1
    else if s.op == OP_KNIL then s.a + n - 1
    else if s.op in {OP_RET0, OP_RET1, OP_RET, OP_CALL, OP_CALLT} then n + 1
    else n
  }

  /** The operands fit the instruction, and last slots exist. */
  predicate FitsFormat(s: Stmt, abc: Format) {
    && s.last.Value? && SecondOf(s) < 0x100
    && 0 <= LastOf(s) < (if abc(s.op) then 0x100 else 0x1_0000)
    && (s.op in {OP_CAT, OP_KNIL} ==> s.last.n > 0 && LastOf(s) <= MAX_SLOTS)
  }

  function WordOf(s: Stmt, abc: Format): u32
    requires FitsFormat(s, abc)
  {
    Word(s.op, s.a, SecondOf(s), LastOf(s), abc(s.op))
  }

  /** The last operand of an instruction. */
  function LastRead(w: u32, three: bool): nat { if three then COf(w) else DOf(w) }

  /** An instruction says again what its statement says: opcode and operands, and counts as distances of slots or
      larger by one. */
  predicate Says(w: u32, s: Stmt, abc: Format)
    requires s.last.Value?
  {
    var last, n := LastRead(w, abc(s.op)), s.last.n;
    && OpOf(w) == s.op && AOf(w) == s.a
    && (abc(s.op) ==> BOf(w) == if s.op == OP_CALL then s.b + 1 else s.b)
    && if s.op == OP_CAT then last - s.b + 1 == n
       else if s.op == OP_KNIL then last - s.a + 1 == n
       else if s.op in {OP_RET0, OP_RET1, OP_RET, OP_CALL, OP_CALLT} then last - 1 == n
       else last == n
  }

  /** Every instruction says what its statement says. */
  lemma OperandsDecode(s: Stmt, abc: Format)
    requires FitsFormat(s, abc)
    ensures Says(WordOf(s, abc), s, abc)
  {
    hide Word, OpOf, AOf, BOf, COf, DOf;
    WordRoundTrip(s.op, s.a, SecondOf(s), LastOf(s), abc(s.op));
  }

  /** Concatenation and calls have three operands; lists of nil, returns and tail calls have two. */
  predicate CountsHaveRoom(abc: Format) {
    abc(OP_CAT) && abc(OP_CALL) && !abc(OP_KNIL) && !abc(OP_RET0) && !abc(OP_RET1) && !abc(OP_RET) && !abc(OP_CALLT)
  }

  /** The counts of a statement are found again in its instruction: as distances of slots, or with one subtracted. */
  lemma CountsDecode(s: Stmt, abc: Format)
    requires FitsFormat(s, abc) && CountsHaveRoom(abc)
    ensures var (w, n) := (WordOf(s, abc), s.last.n);
            && OpOf(w) == s.op && AOf(w) == s.a
            && (s.op == OP_CAT ==> BOf(w) == s.b && COf(w) - BOf(w) + 1 == n)
            && (s.op == OP_KNIL ==> DOf(w) - AOf(w) + 1 == n)
            && (s.op == OP_CALL ==> BOf(w) - 1 == s.b && COf(w) - 1 == n)
            && (s.op in {OP_RET0, OP_RET1, OP_RET, OP_CALLT} ==> DOf(w) - 1 == n)
  {
    hide Word, OpOf, AOf, BOf, COf, DOf;
    WordRoundTrip(s.op, s.a, SecondOf(s), LastOf(s), abc(s.op));
  }

  /** One instruction for every statement. */
  method GenerateCode(comp: Composer, stmts: seq<Stmt>)
    requires comp.Valid() && comp.byteCodes == [] && forall pc :: 0 <= pc < |stmts| ==> FitsFormat(stmts[pc], comp.abc)
    modifies comp`byteCodes, comp`lines
    ensures comp.Valid() && |comp.byteCodes| == |stmts|
    ensures forall pc :: 0 <= pc < |stmts| ==> comp.byteCodes[pc] == WordOf(stmts[pc], comp.abc)
  {
    hide Word, SecondOf, LastOf, IsPatchable, Dense, UnpackRow;
    for pc := 0 to |stmts|
      invariant comp.Valid() && |comp.byteCodes| == pc
      invariant forall i :: 0 <= i < pc ==> comp.byteCodes[i] == WordOf(stmts[i], comp.abc)
    {
      var s := stmts[pc];
      var _ := comp.AddOp(s.op, s.a, SecondOf(s), LastOf(s), s.line);
    }
  }

  /** The statement leads where its label stands. */
  predicate Lands(code: seq<u32>, s: Stmt, labels: map<string, nat>, pc: nat)
    requires pc < |code|
  {
    s.last.Label? ==>
      && s.last.name in labels && OpOf(code[pc]) == s.op && AOf(code[pc]) == s.a
      && Target(code, pc) == labels[s.last.name]
  }

  lemma JumpLands(code: seq<u32>, s: Stmt, labels: map<string, nat>, pc: nat, abc: Format)
    requires pc < |code| <= 0x8000 && Parsed(s) && JumpsHaveTwo(abc)
    requires s.last.Label? ==> s.last.name in labels && labels[s.last.name] <= |code|
    requires FitsFormat(Resolved(s, labels, pc), abc) && code[pc] == WordOf(Resolved(s, labels, pc), abc)
    ensures Lands(code, s, labels, pc)
  {
    hide Word, OpOf, AOf, BOf, COf, DOf, Biased;
    if s.last.Label? {
      LabelsInJumps(s);
      var dest := labels[s.last.name];
      ShortJumps(|code|, pc, dest);
      JumpDecodes(pc, dest);
      assert IsPatchable(s.op) && !abc(s.op);
      WordRoundTrip(s.op, s.a, s.b, Biased(dest - (pc + 1)), false);
    }
  }

  /** A function of up to 32768 statements, with its labels in front of statements or at its end: if it is accepted,
      every jump with a label decodes to the statement of that label. */
  method Assemble(comp: Composer, stmts: seq<Stmt>, labels: map<string, nat>) returns (ok: bool)
    requires comp.Valid() && comp.byteCodes == [] && 0 < |stmts| <= 0x8000
    requires forall n :: n in labels ==> labels[n] <= |stmts|
    requires forall pc :: 0 <= pc < |stmts| ==>
               Parsed(stmts[pc]) && (stmts[pc].last.Value? ==> FitsFormat(stmts[pc], comp.abc))
    modifies comp`byteCodes, comp`lines
    ensures comp.Valid() && ok == Acceptable(stmts, labels)
    ensures ok ==> |comp.byteCodes| == |stmts|
                   && forall pc :: 0 <= pc < |stmts| ==> Lands(comp.byteCodes, stmts[pc], labels, pc)
    ensures ok ==> forall pc :: 0 <= pc < |stmts| && stmts[pc].last.Value? ==>
                     Says(comp.byteCodes[pc], stmts[pc], comp.abc)
  {
    hide Says, LastOf, SecondOf, WordOf, Word, Target, Biased, OpOf, IsRet;
    var r := CheckJumpsAndMore(stmts, labels);
    if r.Failed? {
      return false;
    }
    forall pc | 0 <= pc < |stmts|
      ensures FitsFormat(r.stmts[pc], comp.abc)
    {
      assert StmtOk(stmts, labels, pc);
      FormatKept(stmts[pc], labels, pc, comp.abc);
    }
    GenerateCode(comp, r.stmts);
    forall pc | 0 <= pc < |stmts|
      ensures Lands(comp.byteCodes, stmts[pc], labels, pc)
    {
      assert StmtOk(stmts, labels, pc);
      assert r.stmts[pc] == Resolved(stmts[pc], labels, pc);
      JumpLands(comp.byteCodes, stmts[pc], labels, pc, comp.abc);
    }
    forall pc | 0 <= pc < |stmts| && stmts[pc].last.Value?
      ensures Says(comp.byteCodes[pc], stmts[pc], comp.abc)
    {
      assert r.stmts[pc] == Resolved(stmts[pc], labels, pc);
      OperandsDecode(stmts[pc], comp.abc);
    }
    ok := true;
  }

  lemma FormatKept(s: Stmt, labels: map<string, nat>, pc: nat, abc: Format)
    requires Parsed(s) && JumpsHaveTwo(abc) && (s.last.Value? ==> FitsFormat(s, abc))
    requires s.last.Label? ==> s.last.name in labels
    ensures FitsFormat(Resolved(s, labels, pc), abc)
  {
    hide Biased;
    if s.last.Label? {
      LabelsInJumps(s);
      assert IsPatchable(s.op) && !abc(s.op);
    }
  }
}
