/** What the parser accepts, said without it: one scan over the tokens that remembers only the open brackets. From
    the scan follow the inputs on which the parser descends for ever, and those of which it reads more than there
    is. */
module ExpressionScan {
  import opened Expressions

  // ---------------------------------------------------------------- the descent that never ends

  /** The calls of the parser that read an operand. */
  datatype Call = ExprCall(limit: nat) | SimpleCall | PrimaryCall | PrefixCall

  /** What a call does before anything else: it calls, with the cursor at `c`, or looks at its own token. */
  datatype Start = Calls(call: Call, c: nat) | Looks

  function FirstCall(ts: seq<Token>, k: Call, c: nat): (s: Start)
    requires c < |ts|
    ensures s.Calls? ==> s.c < |ts|
  {
    match k
    case ExprCall(_) => if IsUnop(ts[c]) then Calls(ExprCall(UNARY_PRIORITY), Step(ts, c)) else Calls(SimpleCall, c)
    case SimpleCall => if ts[c].TConst? then Looks else Calls(PrimaryCall, c)
    case PrimaryCall => Calls(PrefixCall, c)
    case PrefixCall => if ts[c].LBrace? then Calls(ExprCall(0), Step(ts, c)) else Looks
  }

  /** The call that is pending `n` calls deep. */
  function Pending(ts: seq<Token>, k: Call, c: nat, n: nat): (s: Start)
    requires c < |ts|
    ensures s.Calls? ==> s.c < |ts|
    decreases n
  {
    if n == 0 then Calls(k, c)
    else
      match FirstCall(ts, k, c)
      case Looks => Looks
      case Calls(k1, c1) => Pending(ts, k1, c1, n - 1)
  }

  /** Call waits on call without end. */
  ghost predicate NeverAnswers(ts: seq<Token>, k: Call, c: nat)
    requires c < |ts|
  {
    forall n: nat :: Pending(ts, k, c, n).Calls?
  }

  lemma NeverAnswersStep(ts: seq<Token>, k: Call, c: nat)
    requires c < |ts|
    ensures NeverAnswers(ts, k, c) <==>
            var s := FirstCall(ts, k, c); s.Calls? && NeverAnswers(ts, s.call, s.c)
  {
    var s := FirstCall(ts, k, c);
    if NeverAnswers(ts, k, c) {
      assert Pending(ts, k, c, 1).Calls?;
      forall n: nat
        ensures Pending(ts, s.call, s.c, n).Calls?
      {
        assert Pending(ts, k, c, n + 1) == Pending(ts, s.call, s.c, n);
      }
    }
    if s.Calls? && NeverAnswers(ts, s.call, s.c) {
      forall n: nat
        ensures Pending(ts, k, c, n).Calls?
      {
        if n > 0 {
          assert Pending(ts, k, c, n) == Pending(ts, s.call, s.c, n - 1);
        }
      }
    }
  }

  /** In front of the last token, and on a last token that is an operand or fits nothing, the calls come to an end:
      the descent at `c` is endless only if nothing but openers of operands follow, the last one being read again
      and again. */
  lemma {:induction false} EndlessDescent(ts: seq<Token>, c: nat, limit: nat)
    requires c < |ts|
    ensures NeverAnswers(ts, ExprCall(limit), c) <==> forall i :: c <= i < |ts| ==> OpensOperand(ts[i])
    decreases |ts| - c
  {
    hide Pending;
    NeverAnswersStep(ts, ExprCall(limit), c);
    NeverAnswersStep(ts, SimpleCall, c);
    NeverAnswersStep(ts, PrimaryCall, c);
    NeverAnswersStep(ts, PrefixCall, c);
    if OpensOperand(ts[c]) {
      var next := if IsUnop(ts[c]) then UNARY_PRIORITY else 0;
      if c == |ts| - 1 {
        forall n: nat
          ensures Pending(ts, ExprCall(limit), c, n).Calls?
        {
          StuckPending(ts, ExprCall(limit), c, n);
        }
      } else {
        EndlessDescent(ts, c + 1, next);
      }
    }
  }

  /** On a last token that opens an operand every call leads to another one in the same place. */
  lemma {:induction false} StuckPending(ts: seq<Token>, k: Call, c: nat, n: nat)
    requires c < |ts| && Stuck(ts, c) && (k.ExprCall? || ts[c].LBrace?)
    ensures Pending(ts, k, c, n).Calls?
    decreases n
  {
    if n > 0 {
      StuckPending(ts, FirstCall(ts, k, c).call, c, n - 1);
    }
  }

  /** A call that never gets to look at a token never answers; the parser says so. */
  lemma {:induction false} DescentNeverAnswers(ts: seq<Token>, c: nat, limit: nat)
    requires c < |ts| && NeverAnswers(ts, ExprCall(limit), c)
    ensures SubExpr(ts, c, limit).Endless?
    decreases |ts| - c
  {
    hide Suffixes, Operators;
    EndlessDescent(ts, c, limit);
    assert OpensOperand(ts[c]);
    var next := if IsUnop(ts[c]) then UNARY_PRIORITY else 0;
    if !Stuck(ts, c) {
      EndlessDescent(ts, c + 1, next);
      DescentNeverAnswers(ts, c + 1, next);
      assert SubExpr(ts, Step(ts, c), next).Endless?;
    }
    if !IsUnop(ts[c]) {
      assert PrefixExp(ts, c).Endless?;
      assert Operand(ts, c) == SimpleExp(ts, c) == PrimaryExp(ts, c);
    }
  }

  // ---------------------------------------------------------------- the scan

  datatype Bracket = Round | Square

  datatype Scanned = Accepts(read: nat) | Rejects | Descends

  predicate Matches(b: Bracket, t: Token) {
    if b.Round? then t.RBrace? else t.RBrack?
  }

  /** Tokens behind which an operand is expected, when an operand stands in front of them. */
  predicate Continues(t: Token) { t.LBrack? || Left(BinopOf(t)) > 0 }

  function Behind(ts: seq<Token>, p: nat): nat {
    if p < |ts| then |ts| - p else 0
  }

  /** At position `p` of the endless input in which the last token repeats an operand is expected. On the last
      token one that opens an operand is never passed. */
  function ScanOperand(ts: seq<Token>, p: nat, open: seq<Bracket>): (s: Scanned)
    requires ts != []
    ensures s.Accepts? ==> p < s.read
    decreases Behind(ts, p), 2, |open|
  {
    var t := ts[Cursor(ts, p)];
    if OpensOperand(t) then
      if p + 1 >= |ts| then Descends else ScanOperand(ts, p + 1, if t.LBrace? then open + [Round] else open)
    else if IsOperand(t) then ScanRest(ts, p + 1, open, t.TName?)
    else Rejects
  }

  /** At position `p` an operand is complete; behind a primary one, fields and indices may follow. */
  function ScanRest(ts: seq<Token>, p: nat, open: seq<Bracket>, primary: bool): (s: Scanned)
    requires ts != []
    ensures s.Accepts? ==> p <= s.read
    decreases Behind(ts, p), if Continues(ts[Cursor(ts, p)]) then 3 else 1, |open|
  {
    var t := ts[Cursor(ts, p)];
    if primary && t.TDot? then
      if p + 1 < |ts| && ts[p + 1].TName? then ScanRest(ts, p + 2, open, true) else Rejects
    else if primary && t.LBrack? then ScanOperand(ts, p + 1, open + [Square])
    else if Left(BinopOf(t)) > 0 then ScanOperand(ts, p + 1, open)
    else if open == [] then Accepts(p)
    else if Matches(open[|open| - 1], t) then ScanRest(ts, p + 1, open[..|open| - 1], true)
    else Rejects
  }

  // ---------------------------------------------------------------- the scan foretells the parser

  /** The parser's answer for an operand from `p` on, against the scan: errors and endless descents are foretold, and
      behind a tree the scan goes on. */
  ghost predicate Foretold(ts: seq<Token>, p: nat, r: Parsed, s: Scanned, open: seq<Bracket>, primary: bool)
    requires ts != []
  {
    match r
    case Endless => s == Descends
    case Error(_) => s == Rejects
    case Ok(e, _) => s == ScanRest(ts, p + |Yield(e)|, open, primary)
  }

  lemma CursorShift(ts: seq<Token>, p: nat, k: nat)
    requires ts != []
    ensures Cursor(ts, Cursor(ts, p) + k) == Cursor(ts, p + k) && Step(ts, Cursor(ts, p)) == Cursor(ts, p + 1)
  {
  }

  /** An expression inside brackets: behind it stands the closing bracket, or the scan fails as the parser does. */
  lemma {:induction false} BracketScans(ts: seq<Token>, p: nat, open: seq<Bracket>, b: Bracket)
    requires ts != []
    ensures var r := SubExpr(ts, Cursor(ts, p), 0);
            var s := ScanOperand(ts, p, open + [b]);
            match r
            case Endless => s == Descends
            case Error(_) => s == Rejects
            case Ok(e, c1) =>
              && c1 == Cursor(ts, p + |Yield(e)|)
              && s == if Matches(b, ts[c1]) then ScanRest(ts, p + |Yield(e)| + 1, open, true) else Rejects
    decreases |ts| - Cursor(ts, p), 7
  {
    hide SubExpr, Yield, ScanOperand;
    SubExprScans(ts, p, 0, open + [b]);
    var r := SubExpr(ts, Cursor(ts, p), 0);
    if r.Ok? {
      SubExprSound(ts, Cursor(ts, p), 0);
      CursorShift(ts, p, |Yield(r.e)|);
      assert (open + [b])[..|open|] == open;
    }
  }

  lemma {:induction false} PrefixScans(ts: seq<Token>, p: nat, open: seq<Bracket>)
    requires ts != [] && !IsUnop(ts[Cursor(ts, p)]) && !ts[Cursor(ts, p)].TConst?
    ensures Foretold(ts, p, PrefixExp(ts, Cursor(ts, p)), ScanOperand(ts, p, open), open, true)
    decreases |ts| - Cursor(ts, p), 2
  {
    hide SubExpr, ScanRest;
    var c := Cursor(ts, p);
    if ts[c].LBrace? && !Stuck(ts, c) {
      BracketScans(ts, p + 1, open, Round);
    }
  }

  lemma {:induction false} SuffixesScans(ts: seq<Token>, p: nat, q: nat, left: Ast, open: seq<Bracket>)
    requires ts != [] && q == p + |Yield(left)|
    ensures Foretold(ts, p, Suffixes(ts, Cursor(ts, q), left), ScanRest(ts, q, open, true), open, false)
    decreases |ts| - Cursor(ts, q), if ts[Cursor(ts, q)].LBrack? then 9 else 1
  {
    hide SubExpr, Suffixes, ScanOperand, ScanRest, Yield;
    var c := Cursor(ts, q);
    SuffixStep(ts, q, left, open);
    if ts[c].TDot? && c + 1 < |ts| && ts[c + 1].TName? {
      YieldPrimary(DotOp(left, ts[c + 1].name));
      SuffixesScans(ts, p, q + 2, DotOp(left, ts[c + 1].name), open);
    } else if ts[c].LBrack? {
      CursorShift(ts, q, 1);
      BracketScans(ts, q + 1, open, Square);
      var r := SubExpr(ts, Step(ts, c), 0);
      if r.Ok? && ts[r.c].RBrack? {
        CursorShift(ts, q + 1 + |Yield(r.e)|, 1);
        YieldPrimary(Index(left, r.e));
        SuffixesScans(ts, p, q + |Yield(r.e)| + 2, Index(left, r.e), open);
      }
    }
  }

  /** One round of the suffix loop and of the scan. */
  lemma SuffixStep(ts: seq<Token>, q: nat, left: Ast, open: seq<Bracket>)
    requires ts != []
    ensures var c := Cursor(ts, q);
            var r := Suffixes(ts, c, left);
            var s := ScanRest(ts, q, open, true);
            if ts[c].TDot? then
              if c + 1 < |ts| && ts[c + 1].TName? then
                && r == Suffixes(ts, Cursor(ts, q + 2), DotOp(left, ts[c + 1].name))
                && s == ScanRest(ts, q + 2, open, true)
              else r.Error? && s == Rejects
            else if ts[c].LBrack? then
              var key := SubExpr(ts, Step(ts, c), 0);
              && s == ScanOperand(ts, q + 1, open + [Square])
              && r == if !key.Ok? then key
                      else if ts[key.c].RBrack? then Suffixes(ts, Step(ts, key.c), Index(left, key.e))
                      else Error("expecting ']'")
            else r == Ok(left, c) && s == ScanRest(ts, q, open, false)
  {
    hide SubExpr, ScanOperand;
  }

  lemma {:induction false} OperandScans(ts: seq<Token>, p: nat, open: seq<Bracket>)
    requires ts != []
    ensures Foretold(ts, p, Operand(ts, Cursor(ts, p)), ScanOperand(ts, p, open), open, false)
    decreases |ts| - Cursor(ts, p), 5
  {
    hide SubExpr, PrefixExp, Suffixes, ScanRest;
    var c := Cursor(ts, p);
    if IsUnop(ts[c]) {
      if !Stuck(ts, c) {
        SubExprScans(ts, p + 1, UNARY_PRIORITY, open);
      }
    } else if !ts[c].TConst? {
      assert Operand(ts, c) == SimpleExp(ts, c) == PrimaryExp(ts, c);
      PrefixScans(ts, p, open);
      var r := PrefixExp(ts, c);
      if r.Ok? {
        PrefixSound(ts, c);
        CursorShift(ts, p, |Yield(r.e)|);
        SuffixesScans(ts, p, p + |Yield(r.e)|, r.e, open);
      }
    }
  }

  lemma {:induction false} OperatorsScans(ts: seq<Token>, p: nat, q: nat, left: Ast, limit: nat, open: seq<Bracket>)
    requires ts != [] && q == p + |Yield(left)|
    ensures Foretold(ts, p, Operators(ts, Cursor(ts, q), left, limit), ScanRest(ts, q, open, false), open, false)
    decreases |ts| - Cursor(ts, q), if ts[Cursor(ts, q)].TOp? then 9 else 1
  {
    hide SubExpr, Operators, ScanOperand, ScanRest, Yield, Left, Right;
    var c := Cursor(ts, q);
    var op := BinopOf(ts[c]);
    OperatorStep(ts, q, left, limit, open);
    if op != NoOp && Left(op) > limit {
      SubExprScans(ts, q + 1, Right(op), open);
      var r := SubExpr(ts, Step(ts, c), Right(op));
      if r.Ok? {
        SubExprSound(ts, Step(ts, c), Right(op));
        CursorShift(ts, q + 1, |Yield(r.e)|);
        YieldBin(Bin(op, left, r.e));
        OperatorsScans(ts, p, q + 1 + |Yield(r.e)|, Bin(op, left, r.e), limit, open);
      }
    }
  }

  /** One round of the operator loop and of the scan. */
  lemma OperatorStep(ts: seq<Token>, q: nat, left: Ast, limit: nat, open: seq<Bracket>)
    requires ts != []
    ensures var c := Cursor(ts, q);
            var op := BinopOf(ts[c]);
            if op == NoOp || Left(op) <= limit then Operators(ts, c, left, limit) == Ok(left, c)
            else
              && Right(op) < HIGHEST && Step(ts, c) == Cursor(ts, q + 1)
              && ScanRest(ts, q, open, false) == ScanOperand(ts, q + 1, open)
              && var r := SubExpr(ts, Step(ts, c), Right(op));
                 Operators(ts, c, left, limit) == if r.Ok? then Operators(ts, r.c, Bin(op, left, r.e), limit) else r
  {
    hide SubExpr, ScanOperand;
  }

  lemma {:induction false} SubExprScans(ts: seq<Token>, p: nat, limit: nat, open: seq<Bracket>)
    requires ts != [] && limit < HIGHEST
    ensures Foretold(ts, p, SubExpr(ts, Cursor(ts, p), limit), ScanOperand(ts, p, open), open, false)
    decreases |ts| - Cursor(ts, p), 6
  {
    hide Operand, Operators, ScanOperand, ScanRest, Yield;
    var c := Cursor(ts, p);
    OperandScans(ts, p, open);
    var r := Operand(ts, c);
    if r.Ok? {
      OperandSound(ts, c);
      CursorShift(ts, p, |Yield(r.e)|);
      OperatorsScans(ts, p, p + |Yield(r.e)|, r.e, limit, open);
    }
  }

  /** The scan says for every input what the parser does: it gives a tree of as many tokens as the scan has read,
      reports an error, or descends for ever. */
  lemma ParserScans(ts: seq<Token>)
    requires ts != []
    ensures match SubExpr(ts, 0, 0)
            case Endless => ScanOperand(ts, 0, []) == Descends
            case Error(_) => ScanOperand(ts, 0, []) == Rejects
            case Ok(e, _) => ScanOperand(ts, 0, []) == Accepts(|Yield(e)|)
  {
    hide SubExpr, ScanOperand, Yield;
    SubExprScans(ts, 0, 0, []);
    var r := SubExpr(ts, 0, 0);
    if r.Ok? {
      SubExprSound(ts, 0, 0);
    }
  }

  /** The descent has no end exactly if the scan comes to a last token in front of which an operand is expected and
      which opens one; on inputs with another last token the parser always answers. */
  lemma EndlessExactly(ts: seq<Token>)
    requires ts != []
    ensures SubExpr(ts, 0, 0).Endless? <==> ScanOperand(ts, 0, []).Descends?
    ensures SubExpr(ts, 0, 0).Endless? ==> OpensOperand(ts[|ts| - 1])
  {
    hide SubExpr, ScanOperand;
    ParserScans(ts);
    OnlyOpenersDescend(ts, 0, []);
  }

  lemma {:induction false} OnlyOpenersDescend(ts: seq<Token>, p: nat, open: seq<Bracket>)
    requires ts != []
    ensures ScanOperand(ts, p, open).Descends? ==> OpensOperand(ts[|ts| - 1])
    decreases Behind(ts, p), 2, |open|
  {
    var t := ts[Cursor(ts, p)];
    if OpensOperand(t) {
      if p + 1 < |ts| {
        OnlyOpenersDescend(ts, p + 1, if t.LBrace? then open + [Round] else open);
      }
    } else if IsOperand(t) {
      OnlyOpenersDescendBehind(ts, p + 1, open, t.TName?);
    }
  }

  lemma {:induction false} OnlyOpenersDescendBehind(ts: seq<Token>, p: nat, open: seq<Bracket>, primary: bool)
    requires ts != []
    ensures ScanRest(ts, p, open, primary).Descends? ==> OpensOperand(ts[|ts| - 1])
    decreases Behind(ts, p), if Continues(ts[Cursor(ts, p)]) then 3 else 1, |open|
  {
    var t := ts[Cursor(ts, p)];
    if primary && t.TDot? {
      if p + 1 < |ts| && ts[p + 1].TName? {
        OnlyOpenersDescendBehind(ts, p + 2, open, true);
      }
    } else if primary && t.LBrack? {
      OnlyOpenersDescend(ts, p + 1, open + [Square]);
    } else if Left(BinopOf(t)) > 0 {
      OnlyOpenersDescend(ts, p + 1, open);
    } else if open != [] && Matches(open[|open| - 1], t) {
      OnlyOpenersDescendBehind(ts, p + 1, open[..|open| - 1], true);
    }
  }

  // ---------------------------------------------------------------- what is accepted, exactly

  lemma ReadsParts(ts: seq<Token>, p: nat, a: seq<Token>, b: seq<Token>)
    requires ts != [] && Reads(ts, p, a + b)
    ensures Reads(ts, p, a) && Reads(ts, p + |a|, b)
    ensures a != [] ==> ts[Cursor(ts, p)] == a[0]
    ensures b != [] ==> ts[Cursor(ts, p + |a|)] == b[0]
  {
    forall i | 0 <= i < |a|
      ensures a[i] == ts[Cursor(ts, p + i)]
    {
      assert (a + b)[i] == a[i];
    }
    forall i | 0 <= i < |b|
      ensures b[i] == ts[Cursor(ts, p + |a| + i)]
    {
      assert (a + b)[|a| + i] == b[i];
    }
  }

  predicate EndsPrimary(e: Ast) { !Yield(e)[|Yield(e)| - 1].TConst? }

  lemma PrimaryEnds(e: Ast)
    requires IsPrimary(e)
    ensures EndsPrimary(e)
  {
  }

  /** A tree that starts with an opener of operands starts in front of the last token. */
  lemma OpenerMoves(ts: seq<Token>, p: nat, e: Ast)
    requires ts != [] && Reads(ts, p, Yield(e)) && OpensOperand(Yield(e)[0])
    ensures p + 1 < |ts|
  {
    hide Yield;
    LastToken(e);
    assert Yield(e)[0] == ts[Cursor(ts, p)];
    assert Yield(e)[|Yield(e)| - 1] == ts[Cursor(ts, p + (|Yield(e)| - 1))];
  }

  /** The scan reads the tokens of a tree as an operand. */
  lemma {:induction false} YieldScans(ts: seq<Token>, p: nat, e: Ast, open: seq<Bracket>)
    requires ts != [] && Respects(e) && Reads(ts, p, Yield(e))
    ensures ScanOperand(ts, p, open) == ScanRest(ts, p + |Yield(e)|, open, EndsPrimary(e))
    decreases e, 1
  {
    hide ScanOperand, ScanRest, Reads, Respects, Yield;
    match e {
      case Const(_) => AtomScans(ts, p, e, open);
      case Name(_) => AtomScans(ts, p, e, open);
      case Bin(_, _, _) => BinScans(ts, p, e, open);
      case Un(_, _) => UnScans(ts, p, e, open);
      case DotOp(_, _) => FieldScans(ts, p, e, open);
      case Index(_, _) => IndexScans(ts, p, e, open);
      case Brace(_) => BraceScans(ts, p, e, open);
    }
  }

  lemma AtomScans(ts: seq<Token>, p: nat, e: Ast, open: seq<Bracket>)
    requires ts != [] && (e.Const? || e.Name?) && Reads(ts, p, Yield(e))
    ensures ScanOperand(ts, p, open) == ScanRest(ts, p + |Yield(e)|, open, EndsPrimary(e))
  {
    hide ScanRest;
    assert Yield(e)[0] == ts[Cursor(ts, p + 0)];
  }

  lemma OpenerScans(ts: seq<Token>, p: nat, open: seq<Bracket>)
    requires p + 1 < |ts| && OpensOperand(ts[p])
    ensures ScanOperand(ts, p, open) == ScanOperand(ts, p + 1, if ts[p].LBrace? then open + [Round] else open)
  {
    hide ScanRest;
  }

  lemma OperatorScans(ts: seq<Token>, p: nat, open: seq<Bracket>, primary: bool)
    requires ts != []
    requires var t := ts[Cursor(ts, p)]; (t.TOp? && Left(t.op) > 0) || (t.LBrack? && primary)
    ensures ScanRest(ts, p, open, primary)
            == ScanOperand(ts, p + 1, if ts[Cursor(ts, p)].LBrack? then open + [Square] else open)
  {
    hide ScanOperand;
  }

  lemma DotScans(ts: seq<Token>, p: nat, field: string, open: seq<Bracket>)
    requires ts != [] && Reads(ts, p, [TDot, TName(field)])
    ensures ScanRest(ts, p, open, true) == ScanRest(ts, p + 2, open, true)
  {
    var s := [TDot, TName(field)];
    assert s[0] == ts[Cursor(ts, p + 0)] && s[1] == ts[Cursor(ts, p + 1)];
  }

  lemma CloserScans(ts: seq<Token>, p: nat, open: seq<Bracket>, b: Bracket, primary: bool)
    requires ts != [] && Matches(b, ts[Cursor(ts, p)])
    ensures ScanRest(ts, p, open + [b], primary) == ScanRest(ts, p + 1, open, true)
  {
    assert (open + [b])[..|open|] == open;
  }

  lemma {:induction false} BinScans(ts: seq<Token>, p: nat, e: Ast, open: seq<Bracket>)
    requires ts != [] && e.Bin? && Respects(e) && Reads(ts, p, Yield(e))
    ensures ScanOperand(ts, p, open) == ScanRest(ts, p + |Yield(e)|, open, EndsPrimary(e))
    decreases e, 0
  {
    hide ScanOperand, ScanRest, Reads, Yield;
    var op, l, r := e.op, e.left, e.right;
    YieldBin(e);
    ReadsParts(ts, p, Yield(l) + [TOp(op)], Yield(r));
    ReadsParts(ts, p, Yield(l), [TOp(op)]);
    YieldScans(ts, p, l, open);
    OperatorScans(ts, p + |Yield(l)|, open, EndsPrimary(l));
    YieldScans(ts, p + |Yield(l)| + 1, r, open);
  }

  lemma {:induction false} UnScans(ts: seq<Token>, p: nat, e: Ast, open: seq<Bracket>)
    requires ts != [] && e.Un? && Respects(e) && Reads(ts, p, Yield(e))
    ensures ScanOperand(ts, p, open) == ScanRest(ts, p + |Yield(e)|, open, EndsPrimary(e))
    decreases e, 0
  {
    hide ScanOperand, ScanRest, Reads, Yield;
    YieldUn(e);
    OpenerMoves(ts, p, e);
    ReadsParts(ts, p, [TOp(e.op)], Yield(e.arg));
    OpenerScans(ts, p, open);
    YieldScans(ts, p + 1, e.arg, open);
  }

  lemma {:induction false} FieldScans(ts: seq<Token>, p: nat, e: Ast, open: seq<Bracket>)
    requires ts != [] && e.DotOp? && Respects(e) && Reads(ts, p, Yield(e))
    ensures ScanOperand(ts, p, open) == ScanRest(ts, p + |Yield(e)|, open, EndsPrimary(e))
    decreases e, 0
  {
    hide ScanOperand, ScanRest, Reads, Yield;
    YieldPrimary(e);
    ReadsParts(ts, p, Yield(e.base), [TDot, TName(e.field)]);
    YieldScans(ts, p, e.base, open);
    PrimaryEnds(e.base);
    DotScans(ts, p + |Yield(e.base)|, e.field, open);
  }

  lemma {:induction false} IndexScans(ts: seq<Token>, p: nat, e: Ast, open: seq<Bracket>)
    requires ts != [] && e.Index? && Respects(e) && Reads(ts, p, Yield(e))
    ensures ScanOperand(ts, p, open) == ScanRest(ts, p + |Yield(e)|, open, EndsPrimary(e))
    decreases e, 0
  {
    hide ScanOperand, ScanRest, Reads, Yield;
    var b, key := e.base, e.key;
    YieldPrimary(e);
    ReadsParts(ts, p, Yield(b) + [LBrack] + Yield(key), [RBrack]);
    ReadsParts(ts, p, Yield(b) + [LBrack], Yield(key));
    ReadsParts(ts, p, Yield(b), [LBrack]);
    YieldScans(ts, p, b, open);
    PrimaryEnds(b);
    OperatorScans(ts, p + |Yield(b)|, open, true);
    YieldScans(ts, p + |Yield(b)| + 1, key, open + [Square]);
    CloserScans(ts, p + |Yield(b)| + 1 + |Yield(key)|, open, Square, EndsPrimary(key));
  }

  lemma {:induction false} BraceScans(ts: seq<Token>, p: nat, e: Ast, open: seq<Bracket>)
    requires ts != [] && e.Brace? && Respects(e) && Reads(ts, p, Yield(e))
    ensures ScanOperand(ts, p, open) == ScanRest(ts, p + |Yield(e)|, open, EndsPrimary(e))
    decreases e, 0
  {
    hide ScanOperand, ScanRest, Reads, Yield;
    var i := e.inner;
    YieldPrimary(e);
    OpenerMoves(ts, p, e);
    ReadsParts(ts, p, [LBrace] + Yield(i), [RBrace]);
    ReadsParts(ts, p, [LBrace], Yield(i));
    OpenerScans(ts, p, open);
    YieldScans(ts, p + 1, i, open + [Round]);
    CloserScans(ts, p + 1 + |Yield(i)|, open, Round, EndsPrimary(i));
  }

  /** A token behind a tree at which the parser stops. */
  predicate Stops(e: Ast, t: Token) {
    Left(BinopOf(t)) == 0 && (EndsPrimary(e) ==> !t.TDot? && !t.LBrack?)
  }

  /** The tree is read from the input, and where the input goes on it stops. */
  ghost predicate Answers(ts: seq<Token>, e: Ast)
    requires ts != []
  {
    Respects(e) && Reads(ts, 0, Yield(e)) && (|Yield(e)| < |ts| ==> Stops(e, ts[|Yield(e)|]))
  }

  /** A tree is the answer if and only if it respects the priorities, its tokens are those of the input, continued by
      repetitions of the last one, and a token of the input that follows them cannot belong to it. */
  lemma AcceptsExactly(ts: seq<Token>, e: Ast)
    requires ts != []
    ensures (SubExpr(ts, 0, 0).Ok? && SubExpr(ts, 0, 0).e == e) <==> Answers(ts, e)
  {
    hide SubExpr, Yield, Respects, ScanOperand, ScanRest, Reads;
    var r := SubExpr(ts, 0, 0);
    ParserScans(ts);
    if r.Ok? {
      SubExprSound(ts, 0, 0);
      YieldScans(ts, 0, r.e, []);
      AcceptedStops(ts, |Yield(r.e)|, EndsPrimary(r.e));
    }
    if Answers(ts, e) {
      YieldScans(ts, 0, e, []);
      StopsAccepted(ts, e);
      SameTokens(ts, r.e, e);
    }
  }

  lemma AcceptedStops(ts: seq<Token>, p: nat, primary: bool)
    requires ts != [] && ScanRest(ts, p, [], primary) == Accepts(p)
    ensures p < |ts| ==> Left(BinopOf(ts[p])) == 0 && (primary ==> !ts[p].TDot? && !ts[p].LBrack?)
  {
    hide Left;
  }

  lemma StopsAccepted(ts: seq<Token>, e: Ast)
    requires ts != [] && Answers(ts, e)
    ensures ScanRest(ts, |Yield(e)|, [], EndsPrimary(e)) == Accepts(|Yield(e)|)
  {
    hide Yield, Respects;
    LastToken(e);
    assert Yield(e)[|Yield(e)| - 1] == ts[Cursor(ts, 0 + (|Yield(e)| - 1))];
  }

  lemma SameTokens(ts: seq<Token>, e: Ast, f: Ast)
    requires ts != [] && Respects(e) && Respects(f) && |Yield(e)| == |Yield(f)|
    requires Reads(ts, 0, Yield(e)) && Reads(ts, 0, Yield(f))
    ensures e == f
  {
    hide Yield, Respects;
    assert forall i :: 0 <= i < |Yield(e)| ==> Yield(e)[i] == ts[Cursor(ts, 0 + i)] == Yield(f)[i];
    YieldsDiffer(e, f);
  }

  // ---------------------------------------------------------------- brackets that are missing

  function Opening(ts: seq<Token>): nat {
    if ts == [] then 0 else Opening(ts[..|ts| - 1]) + if ts[|ts| - 1] in {LBrace, LBrack} then 1 else 0
  }

  function Closing(ts: seq<Token>): nat {
    if ts == [] then 0 else Closing(ts[..|ts| - 1]) + if ts[|ts| - 1] in {RBrace, RBrack} then 1 else 0
  }

  lemma {:induction false} CountsAdd(a: seq<Token>, b: seq<Token>)
    ensures Opening(a + b) == Opening(a) + Opening(b) && Closing(a + b) == Closing(a) + Closing(b)
    decreases |b|
  {
    if b == [] {
      assert a + b == a;
    } else {
      CountsAdd(a, b[..|b| - 1]);
      assert (a + b)[..|a + b| - 1] == a + b[..|b| - 1];
    }
  }

  predicate Balanced(ts: seq<Token>) { Opening(ts) == Closing(ts) }

  lemma CountsAroundOne(a: seq<Token>, t: Token, b: seq<Token>)
    ensures Opening(a + [t] + b) == Opening(a) + Opening([t]) + Opening(b)
    ensures Closing(a + [t] + b) == Closing(a) + Closing([t]) + Closing(b)
  {
    hide Opening, Closing;
    CountsAdd(a + [t], b);
    CountsAdd(a, [t]);
  }

  lemma CountOne(t: Token)
    ensures Opening([t]) == if t in {LBrace, LBrack} then 1 else 0
    ensures Closing([t]) == if t in {RBrace, RBrack} then 1 else 0
    ensures Opening([]) == 0 == Closing([])
  {
    assert [t][..0] == [];
  }

  lemma {:induction false} YieldsBalanced(e: Ast)
    ensures Balanced(Yield(e))
    decreases e, 1
  {
    hide Opening, Closing, Yield;
    match e {
      case Const(val) => {
        YieldConst(e);
        CountOne(TConst(val));
      }
      case Bin(op, l, r) => {
        YieldBin(e);
        YieldsBalanced(l);
        YieldsBalanced(r);
        CountsAroundOne(Yield(l), TOp(op), Yield(r));
        CountOne(TOp(op));
      }
      case Un(op, a) => {
        YieldUn(e);
        YieldsBalanced(a);
        CountsAdd([TOp(op)], Yield(a));
        CountOne(TOp(op));
      }
      case _ => PrimaryBalanced(e);
    }
  }

  lemma {:induction false} PrimaryBalanced(e: Ast)
    requires IsPrimary(e)
    ensures Balanced(Yield(e))
    decreases e, 0
  {
    hide Opening, Closing, Yield;
    YieldPrimary(e);
    match e {
      case Name(name) => CountOne(TName(name));
      case DotOp(b, field) => {
        YieldsBalanced(b);
        assert Yield(e) == Yield(b) + [TDot] + [TName(field)];
        CountsAroundOne(Yield(b), TDot, [TName(field)]);
        CountOne(TDot);
        CountOne(TName(field));
      }
      case Index(b, key) => {
        YieldsBalanced(b);
        YieldsBalanced(key);
        CountsAdd(Yield(b) + [LBrack] + Yield(key), [RBrack]);
        CountsAroundOne(Yield(b), LBrack, Yield(key));
        CountOne(LBrack);
        CountOne(RBrack);
      }
      case Brace(i) => {
        YieldsBalanced(i);
        CountsAdd([LBrace] + Yield(i), [RBrace]);
        CountsAdd([LBrace], Yield(i));
        CountOne(LBrace);
        CountOne(RBrace);
      }
    }
  }

  /** Two operands never stand side by side. */
  ghost predicate Separated(s: seq<Token>) {
    forall i :: 0 < i < |s| && IsOperand(s[i]) ==> !IsOperand(s[i - 1])
  }

  lemma {:induction false} YieldsSeparated(e: Ast)
    ensures Separated(Yield(e))
  {
    match e {
      case Bin(_, l, r) => {
        YieldsSeparated(l);
        YieldsSeparated(r);
      }
      case Un(_, a) => YieldsSeparated(a);
      case DotOp(b, _) => YieldsSeparated(b);
      case Index(b, key) => {
        YieldsSeparated(b);
        YieldsSeparated(key);
      }
      case Brace(i) => YieldsSeparated(i);
      case _ =>
    }
  }

  function Repeated(t: Token, n: nat): (s: seq<Token>)
    ensures |s| == n && forall i :: 0 <= i < n ==> s[i] == t
  {
    if n == 0 then [] else Repeated(t, n - 1) + [t]
  }

  lemma {:induction false} RepeatedCloses(t: Token, n: nat)
    requires t in {RBrace, RBrack}
    ensures Opening(Repeated(t, n)) == 0 && Closing(Repeated(t, n)) == n
  {
    hide Opening, Closing;
    CountOne(t);
    if n > 0 {
      RepeatedCloses(t, n - 1);
      CountsAdd(Repeated(t, n - 1), [t]);
    }
  }

  /** The tokens of an accepted tree are the beginning of the input. Only if it is read to its end with fewer closing
      than opening brackets is it more: exactly the missing number of repetitions of a last closing bracket. */
  lemma MissingBrackets(ts: seq<Token>)
    requires ts != [] && SubExpr(ts, 0, 0).Ok?
    ensures var s := Yield(SubExpr(ts, 0, 0).e);
            var missing := Opening(ts) - Closing(ts);
            && (|s| <= |ts| ==> s == ts[..|s|])
            && (|s| >= |ts| ==> missing == |s| - |ts| && s == ts + Repeated(ts[|ts| - 1], missing))
            && (|s| > |ts| ==> ts[|ts| - 1] in {RBrace, RBrack})
  {
    hide SubExpr, Yield, Respects, Opening, Closing;
    var e := SubExpr(ts, 0, 0).e;
    var s := Yield(e);
    SubExprSound(ts, 0, 0);
    assert forall i :: 0 <= i < |s| ==> s[i] == ts[Cursor(ts, 0 + i)];
    YieldsBalanced(e);
    if |s| >= |ts| {
      var k := |s| - |ts|;
      var last := ts[|ts| - 1];
      assert s == ts + Repeated(last, k);
      if k == 0 {
        assert s == ts;
      } else {
        LastToken(e);
        YieldsSeparated(e);
        assert s[|ts| - 1] == last == s[|ts|] == s[|s| - 1];
        RepeatedCloses(last, k);
        CountsAdd(ts, Repeated(last, k));
      }
    }
  }

  /** Inputs with no more opening than closing brackets are never read beyond their end; an input that is read to its
      end is what was parsed if and only if its brackets balance. */
  lemma NothingMissing(ts: seq<Token>)
    requires ts != [] && SubExpr(ts, 0, 0).Ok?
    ensures var s := Yield(SubExpr(ts, 0, 0).e);
            && (Opening(ts) <= Closing(ts) ==> s <= ts)
            && (|s| >= |ts| ==> (s == ts <==> Balanced(ts)))
  {
    hide SubExpr, Yield;
    MissingBrackets(ts);
  }
}
