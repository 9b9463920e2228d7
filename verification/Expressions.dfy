/** The expression parser of the debugger console: precedence climbing over a token cursor that stays on the
    last token when the input is used up. */
module Expressions {

  datatype Op = NoOp | Plus | Minus | Star | Slash | Percent | Hat | Concat | Neq | Eq | Lt | Leq | Gt | Geq
              | And | Or | Not | Pound

  datatype Token = Invalid | TConst(val: string) | TName(name: string) | LBrack | RBrack | LBrace | RBrace | TDot
                 | TOp(op: Op)

  datatype Ast = Const(val: string) | Name(name: string) | Bin(op: Op, left: Ast, right: Ast) | Un(op: Op, arg: Ast)
               | DotOp(base: Ast, field: string) | Index(base: Ast, key: Ast) | Brace(inner: Ast)

  /** A tree with the cursor behind it, an error, or a descent through calls that never return. */
  datatype Parsed = Ok(e: Ast, c: nat) | Error(msg: string) | Endless

  /** The priority table. Its end is the operator `or`; `not` and `#` behind a complete operand end the expression. */
  function Left(op: Op): nat {
    match op
    case NoOp | Not | Pound => 0
    case Plus | Minus => 6
    case Star | Slash | Percent => 7
    case Hat => 10
    case Concat => 5
    case Neq | Eq | Lt | Leq | Gt | Geq => 3
    case And => 2
    case Or => 1
  }

  function Right(op: Op): nat {
    match op
    case Hat => 9
    case Concat => 4
    case _ => Left(op)
  }

  const UNARY_PRIORITY: nat := 8

  predicate IsUnop(t: Token) { t.TOp? && t.op in {Minus, Pound, Not} }

  function BinopOf(t: Token): Op {
    if t.TOp? then t.op else NoOp
  }

  // ---------------------------------------------------------------- the parser on a cursor that sticks

  /** The cursor after one step; on the last token it stays. */
  function Step(ts: seq<Token>, c: nat): (r: nat)
    requires c < |ts|
    ensures c <= r < |ts| && (r == c <==> c == |ts| - 1)
  {
    if c + 1 < |ts| then c + 1 else c
  }

  /** An operand is read at `c` and starts with a token in front of another operand, but the cursor stays: the
      call for the other operand finds the situation of its caller. */
  predicate Stuck(ts: seq<Token>, c: nat)
    requires c < |ts|
  {
    c == |ts| - 1 && OpensOperand(ts[c])
  }

  /** Tokens that stand in front of an operand: unary operators and opening brackets. */
  predicate OpensOperand(t: Token) { IsUnop(t) || t.LBrace? }

  predicate IsOperand(t: Token) { t.TConst? || t.TName? }

  predicate Good(ts: seq<Token>, c: nat, r: Parsed) {
    r.Ok? ==> c <= r.c < |ts| && (r.c == c ==> c == |ts| - 1 && IsOperand(ts[c]))
  }

  function PrefixExp(ts: seq<Token>, c: nat): (r: Parsed)
    requires c < |ts|
    ensures Good(ts, c, r)
    decreases |ts| - c, 2
  {
    match ts[c]
    case LBrace =>
      if Stuck(ts, c) then Endless else
      (match SubExpr(ts, Step(ts, c), 0)
       case Endless => Endless
       case Error(msg) => Error(msg)
       case Ok(e, c1) => if ts[c1].RBrace? then Ok(Brace(e), Step(ts, c1)) else Error("expecting ')'"))
    case TName(name) => Ok(Name(name), Step(ts, c))
    case _ => Error("unexpected symbol")
  }

  function PrimaryExp(ts: seq<Token>, c: nat): (r: Parsed)
    requires c < |ts|
    ensures Good(ts, c, r)
    decreases |ts| - c, 3
  {
    match PrefixExp(ts, c)
    case Endless => Endless
    case Error(msg) => Error(msg)
    case Ok(e, c1) => Suffixes(ts, c1, e)
  }

  /** The fields and indices after a prefix expression. */
  function Suffixes(ts: seq<Token>, c: nat, left: Ast): (r: Parsed)
    requires c < |ts|
    ensures r.Ok? ==> c <= r.c < |ts|
    decreases |ts| - c, if ts[c].LBrack? then 9 else 1
  {
    match ts[c]
    case TDot =>
      if c + 1 < |ts| && ts[c + 1].TName? then Suffixes(ts, Step(ts, c + 1), DotOp(left, ts[c + 1].name))
      else Error("expecting name")
    case LBrack =>
      (match SubExpr(ts, Step(ts, c), 0)
       case Endless => Endless
       case Error(msg) => Error(msg)
       case Ok(key, c1) =>
         if ts[c1].RBrack? then Suffixes(ts, Step(ts, c1), Index(left, key)) else Error("expecting ']'"))
    case _ => Ok(left, c)
  }

  function SimpleExp(ts: seq<Token>, c: nat): (r: Parsed)
    requires c < |ts|
    ensures Good(ts, c, r)
    decreases |ts| - c, 4
  {
    if ts[c].TConst? then Ok(Const(ts[c].val), Step(ts, c)) else PrimaryExp(ts, c)
  }

  function SubExpr(ts: seq<Token>, c: nat, limit: nat): (r: Parsed)
    requires c < |ts|
    ensures Good(ts, c, r)
    decreases |ts| - c, 6
  {
    match Operand(ts, c)
    case Endless => Endless
    case Error(msg) => Error(msg)
    case Ok(e, c1) => Operators(ts, c1, e, limit)
  }

  function Operand(ts: seq<Token>, c: nat): (r: Parsed)
    requires c < |ts|
    ensures Good(ts, c, r)
    decreases |ts| - c, 5
  {
    if IsUnop(ts[c]) then
      if Stuck(ts, c) then Endless else
      match SubExpr(ts, Step(ts, c), UNARY_PRIORITY)
      case Endless => Endless
      case Error(msg) => Error(msg)
      case Ok(e, c1) => Ok(Un(ts[c].op, e), c1)
    else SimpleExp(ts, c)
  }

  /** Extends `left` while operators bind tighter than `limit`. */
  function Operators(ts: seq<Token>, c: nat, left: Ast, limit: nat): (r: Parsed)
    requires c < |ts|
    ensures r.Ok? ==> c <= r.c < |ts|
    decreases |ts| - c, if ts[c].TOp? then 9 else 1
  {
    var op := BinopOf(ts[c]);
    if op == NoOp || Left(op) <= limit then Ok(left, c)
    else
      match SubExpr(ts, Step(ts, c), Right(op))
      case Endless => Endless
      case Error(msg) => Error(msg)
      case Ok(right, c1) => Operators(ts, c1, Bin(op, left, right), limit)
  }

  // ---------------------------------------------------------------- trees that respect the priorities

  function Yield(e: Ast): (s: seq<Token>)
    ensures s != []
  {
    match e
    case Const(val) => [TConst(val)]
    case Name(name) => [TName(name)]
    case Bin(op, l, r) => Yield(l) + [TOp(op)] + Yield(r)
    case Un(op, a) => [TOp(op)] + Yield(a)
    case DotOp(b, field) => Yield(b) + [TDot, TName(field)]
    case Index(b, key) => Yield(b) + [LBrack] + Yield(key) + [RBrack]
    case Brace(i) => [LBrace] + Yield(i) + [RBrace]
  }

  const HIGHEST: nat := 100

  function Min(a: nat, b: nat): nat { if a < b then a else b }

  /** The weakest operator on the left edge: a tree can start where only tighter operators are taken. */
  function Lead(e: Ast): nat {
    if e.Bin? then Min(Left(e.op), Lead(e.left)) else HIGHEST
  }

  /** The weakest binding on the right edge: an operator that follows must not bind tighter. */
  function Tail(e: Ast): nat {
    match e
    case Bin(op, _, r) => Min(Right(op), Tail(r))
    case Un(_, a) => Min(UNARY_PRIORITY, Tail(a))
    case _ => HIGHEST
  }

  predicate IsPrimary(e: Ast) { e.Name? || e.Brace? || e.DotOp? || e.Index? }

  /** The tree has the shape that priorities and associativity of the operators ask for; brackets are nodes. */
  predicate Respects(e: Ast) {
    match e
    case Const(_) => true
    case Name(_) => true
    case Bin(op, l, r) =>
      Left(op) > 0 && Respects(l) && Respects(r) && Left(op) <= Tail(l) && Right(op) < Lead(r)
    case Un(op, a) => op in {Minus, Pound, Not} && Respects(a) && UNARY_PRIORITY < Lead(a)
    case DotOp(b, _) => IsPrimary(b) && Respects(b)
    case Index(b, key) => IsPrimary(b) && Respects(b) && Respects(key)
    case Brace(i) => Respects(i)
  }

  // ---------------------------------------------------------------- yields are parsed back

  /** The cursor that stands for position `p` of the endless input in which the last token repeats. */
  function Cursor(ts: seq<Token>, p: nat): (c: nat)
    requires ts != []
    ensures c < |ts|
  {
    if p < |ts| then p else |ts| - 1
  }

  ghost predicate At(ts: seq<Token>, c: nat, s: seq<Token>) {
    c + |s| <= |ts| && ts[c..c + |s|] == s
  }

  lemma AtParts(ts: seq<Token>, c: nat, a: seq<Token>, b: seq<Token>)
    requires At(ts, c, a + b)
    ensures At(ts, c, a) && At(ts, c + |a|, b)
  {
    assert ts[c..c + |a + b|][..|a|] == a && ts[c..c + |a + b|][|a|..] == b;
  }

  /** A token that ends an expression in which `e` is complete, before operators up to `limit` are looked at. */
  predicate Closes(t: Token, limit: nat) {
    !t.TDot? && !t.LBrack? && Left(BinopOf(t)) <= limit
  }

  /** What follows the yield of a tree: nothing, or a token that closes it. */
  ghost predicate Ends(ts: seq<Token>, p: nat, limit: nat) {
    p < |ts| ==> Closes(ts[p], limit)
  }

  lemma {:induction false} LastToken(e: Ast)
    ensures var t := Yield(e)[|Yield(e)| - 1]; t.TConst? || t.TName? || t.RBrace? || t.RBrack?
  {
    match e {
      case Bin(_, _, r) => LastToken(r);
      case Un(_, a) => LastToken(a);
      case _ =>
    }
  }

  /** At the end of the input the last token of a complete tree closes it, too. */
  lemma CursorCloses(ts: seq<Token>, c: nat, e: Ast, limit: nat)
    requires ts != [] && At(ts, c, Yield(e)) && Ends(ts, c + |Yield(e)|, limit)
    ensures Closes(ts[Cursor(ts, c + |Yield(e)|)], limit)
  {
    hide Yield;
    LastToken(e);
    assert ts[c..c + |Yield(e)|][|Yield(e)| - 1] == ts[c + |Yield(e)| - 1];
  }

  lemma {:induction false} LeadPositive(e: Ast)
    requires Respects(e)
    ensures Lead(e) > 0
  {
    if e.Bin? {
      LeadPositive(e.left);
    }
  }

  lemma NameStep(ts: seq<Token>, c: nat)
    requires c < |ts| && ts[c].TName?
    ensures PrimaryExp(ts, c) == Suffixes(ts, Cursor(ts, c + 1), Name(ts[c].name))
  {
    hide Suffixes, SubExpr;
  }

  lemma BraceStep(ts: seq<Token>, c: nat, i: Ast, d: nat)
    requires c + 1 < |ts| && ts[c].LBrace? && d < |ts| && ts[d].RBrace? && SubExpr(ts, c + 1, 0) == Ok(i, d)
    ensures PrimaryExp(ts, c) == Suffixes(ts, Cursor(ts, d + 1), Brace(i))
  {
    hide Suffixes, SubExpr;
  }

  lemma DotStep(ts: seq<Token>, d: nat, b: Ast)
    requires d + 1 < |ts| && ts[d].TDot? && ts[d + 1].TName?
    ensures Suffixes(ts, d, b) == Suffixes(ts, Cursor(ts, d + 2), DotOp(b, ts[d + 1].name))
  {
    hide SubExpr;
  }

  lemma IndexStep(ts: seq<Token>, d: nat, b: Ast, key: Ast, d1: nat)
    requires d + 1 < |ts| && ts[d].LBrack? && d1 < |ts| && ts[d1].RBrack? && SubExpr(ts, d + 1, 0) == Ok(key, d1)
    ensures Suffixes(ts, d, b) == Suffixes(ts, Cursor(ts, d1 + 1), Index(b, key))
  {
    hide SubExpr;
  }

  lemma BinStep(ts: seq<Token>, d: nat, l: Ast, limit: nat, r: Ast, d1: nat)
    requires d + 1 < |ts| && ts[d].TOp? && Left(ts[d].op) > limit && d1 < |ts|
    requires SubExpr(ts, d + 1, Right(ts[d].op)) == Ok(r, d1)
    ensures Operators(ts, d, l, limit) == Operators(ts, d1, Bin(ts[d].op, l, r), limit)
  {
    hide SubExpr;
  }

  lemma UnStep(ts: seq<Token>, c: nat, limit: nat, a: Ast, d: nat)
    requires c + 1 < |ts| && IsUnop(ts[c]) && d < |ts| && SubExpr(ts, c + 1, UNARY_PRIORITY) == Ok(a, d)
    ensures SubExpr(ts, c, limit) == Operators(ts, d, Un(ts[c].op, a), limit)
  {
    hide Operators;
  }

  lemma SimpleStep(ts: seq<Token>, c: nat, limit: nat, e: Ast, d: nat)
    requires c < |ts| && !IsUnop(ts[c]) && d < |ts| && SimpleExp(ts, c) == Ok(e, d)
    ensures SubExpr(ts, c, limit) == Operators(ts, d, e, limit)
  {
    hide Operators, SimpleExp;
  }

  lemma {:induction false} PrimaryOfYield(ts: seq<Token>, c: nat, e: Ast)
    requires c < |ts| && Respects(e) && IsPrimary(e) && At(ts, c, Yield(e))
    ensures PrimaryExp(ts, c) == Suffixes(ts, Cursor(ts, c + |Yield(e)|), e)
    decreases e, 0, 1
  {
    hide SubExpr, PrimaryExp, Suffixes, Yield, Cursor;
    YieldPrimary(e);
    match e {
      case Name(name) => {
        assert ts[c] == ts[c..c + 1][0];
        NameStep(ts, c);
      }
      case DotOp(b, field) => {
        AtParts(ts, c, Yield(b), [TDot, TName(field)]);
        var d := c + |Yield(b)|;
        assert ts[d] == ts[d..d + 2][0] && ts[d + 1] == ts[d..d + 2][1];
        PrimaryOfYield(ts, c, b);
        assert Cursor(ts, d) == d by { CursorInside(ts, d); }
        DotStep(ts, d, b);
      }
      case Index(_, _) => IndexOfYield(ts, c, e);
      case Brace(i) => {
        AtParts(ts, c, [LBrace] + Yield(i), [RBrace]);
        AtParts(ts, c, [LBrace], Yield(i));
        assert ts[c] == ts[c..c + 1][0];
        InsideBrackets(ts, c + 1, i, RBrace);
        BraceStep(ts, c, i, c + 1 + |Yield(i)|);
      }
    }
  }

  lemma {:induction false} IndexOfYield(ts: seq<Token>, c: nat, e: Ast)
    requires c < |ts| && Respects(e) && e.Index? && At(ts, c, Yield(e))
    ensures PrimaryExp(ts, c) == Suffixes(ts, Cursor(ts, c + |Yield(e)|), e)
    decreases e, 0, 0
  {
    hide SubExpr, PrimaryExp, Suffixes, Yield, Cursor;
    YieldPrimary(e);
    var b, key := e.base, e.key;
    AtParts(ts, c, Yield(b) + [LBrack] + Yield(key), [RBrack]);
    AtParts(ts, c, Yield(b) + [LBrack], Yield(key));
    AtParts(ts, c, Yield(b), [LBrack]);
    PrimaryOfYield(ts, c, b);
    var d := c + |Yield(b)|;
    assert ts[d] == ts[d..d + 1][0];
    InsideBrackets(ts, d + 1, key, RBrack);
    assert Cursor(ts, d) == d by { CursorInside(ts, d); }
    IndexStep(ts, d, b, key, d + 1 + |Yield(key)|);
  }

  lemma CursorInside(ts: seq<Token>, d: nat)
    requires d < |ts|
    ensures Cursor(ts, d) == d
  {
  }

  lemma YieldPrimary(e: Ast)
    requires IsPrimary(e)
    ensures match e
            case Name(name) => Yield(e) == [TName(name)]
            case DotOp(b, field) => Yield(e) == Yield(b) + [TDot, TName(field)]
            case Index(b, key) => Yield(e) == Yield(b) + [LBrack] + Yield(key) + [RBrack]
            case Brace(i) => Yield(e) == [LBrace] + Yield(i) + [RBrace]
            case _ => false
  {
  }

  /** An expression up to a closing bracket. */
  lemma {:induction false} InsideBrackets(ts: seq<Token>, c: nat, e: Ast, close: Token)
    requires c < |ts| && Respects(e) && At(ts, c, Yield(e)) && At(ts, c + |Yield(e)|, [close])
    requires close.RBrace? || close.RBrack?
    ensures var d := c + |Yield(e)|; d < |ts| && ts[d] == close && SubExpr(ts, c, 0) == Ok(e, d)
    decreases e, 3
  {
    var d := c + |Yield(e)|;
    assert ts[d] == ts[d..d + 1][0];
    LeadPositive(e);
    SubExprOfYield(ts, c, e, 0);
  }

  /** Up to its last token the tree is collected as the left operand of what may follow. */
  lemma {:induction false} LeftOperand(ts: seq<Token>, c: nat, e: Ast, limit: nat)
    requires c < |ts| && Respects(e) && At(ts, c, Yield(e)) && limit < Lead(e)
    requires Ends(ts, c + |Yield(e)|, Tail(e))
    ensures SubExpr(ts, c, limit) == Operators(ts, Cursor(ts, c + |Yield(e)|), e, limit)
    decreases e, 1
  {
    if e.Bin? {
      LeftBin(ts, c, e, limit);
    } else if e.Un? {
      LeftUn(ts, c, e, limit);
    } else {
      LeftSimple(ts, c, e, limit);
    }
  }

  lemma {:induction false} LeftBin(ts: seq<Token>, c: nat, e: Ast, limit: nat)
    requires c < |ts| && e.Bin? && Respects(e) && At(ts, c, Yield(e)) && limit < Lead(e)
    requires Ends(ts, c + |Yield(e)|, Tail(e))
    ensures SubExpr(ts, c, limit) == Operators(ts, Cursor(ts, c + |Yield(e)|), e, limit)
    decreases e, 0
  {
    hide Yield, SubExpr, Operators, Cursor;
    var op, l, r := e.op, e.left, e.right;
    YieldBin(e);
    AtParts(ts, c, Yield(l) + [TOp(op)], Yield(r));
    AtParts(ts, c, Yield(l), [TOp(op)]);
    var d := c + |Yield(l)|;
    assert ts[d] == ts[d..d + 1][0] == TOp(op);
    LeftOperand(ts, c, l, limit);
    assert Cursor(ts, d) == d by { CursorInside(ts, d); }
    SubExprOfYield(ts, d + 1, r, Right(op));
    BinStep(ts, d, l, limit, r, Cursor(ts, c + |Yield(e)|));
  }

  lemma {:induction false} LeftUn(ts: seq<Token>, c: nat, e: Ast, limit: nat)
    requires c < |ts| && e.Un? && Respects(e) && At(ts, c, Yield(e))
    requires Ends(ts, c + |Yield(e)|, Tail(e))
    ensures SubExpr(ts, c, limit) == Operators(ts, Cursor(ts, c + |Yield(e)|), e, limit)
    decreases e, 0
  {
    hide Yield, SubExpr, Operators, Cursor;
    YieldUn(e);
    AtParts(ts, c, [TOp(e.op)], Yield(e.arg));
    assert ts[c] == ts[c..c + 1][0] == TOp(e.op);
    SubExprOfYield(ts, c + 1, e.arg, UNARY_PRIORITY);
    UnStep(ts, c, limit, e.arg, Cursor(ts, c + |Yield(e)|));
  }

  lemma {:induction false} LeftSimple(ts: seq<Token>, c: nat, e: Ast, limit: nat)
    requires c < |ts| && (e.Const? || IsPrimary(e)) && Respects(e) && At(ts, c, Yield(e))
    requires Ends(ts, c + |Yield(e)|, Tail(e))
    ensures SubExpr(ts, c, limit) == Operators(ts, Cursor(ts, c + |Yield(e)|), e, limit)
    decreases e, 0, 2
  {
    hide Yield, SubExpr, Operators, PrimaryExp, SimpleExp, Cursor;
    assert ts[c] == ts[c..c + |Yield(e)|][0];
    if e.Const? {
      YieldConst(e);
      ConstStep(ts, c);
      SimpleStep(ts, c, limit, e, Cursor(ts, c + 1));
    } else {
      var d := Cursor(ts, c + |Yield(e)|);
      FirstOfPrimary(e);
      PrimaryOfYield(ts, c, e);
      CursorCloses(ts, c, e, Tail(e));
      NoSuffix(ts, c, d, e);
      SimpleStep(ts, c, limit, e, d);
    }
  }

  lemma ConstStep(ts: seq<Token>, c: nat)
    requires c < |ts| && ts[c].TConst?
    ensures SimpleExp(ts, c) == Ok(Const(ts[c].val), Cursor(ts, c + 1))
  {
  }

  lemma NoSuffix(ts: seq<Token>, c: nat, d: nat, e: Ast)
    requires c < |ts| && d < |ts| && PrimaryExp(ts, c) == Suffixes(ts, d, e)
    requires !ts[d].TDot? && !ts[d].LBrack? && (ts[c].TName? || ts[c].LBrace?)
    ensures SimpleExp(ts, c) == Ok(e, d)
  {
    hide PrimaryExp;
  }

  lemma YieldBin(e: Ast)
    requires e.Bin?
    ensures Yield(e) == Yield(e.left) + [TOp(e.op)] + Yield(e.right)
  {
  }

  lemma YieldUn(e: Ast)
    requires e.Un?
    ensures Yield(e) == [TOp(e.op)] + Yield(e.arg)
  {
  }

  lemma YieldConst(e: Ast)
    requires e.Const?
    ensures Yield(e) == [TConst(e.val)]
  {
  }

  lemma {:induction false} FirstOfPrimary(e: Ast)
    requires IsPrimary(e) && Respects(e)
    ensures Yield(e)[0].TName? || Yield(e)[0].LBrace?
  {
    match e {
      case DotOp(b, _) => FirstOfPrimary(b);
      case Index(b, _) => FirstOfPrimary(b);
      case _ =>
    }
  }

  /** The yield of a tree that respects the priorities is parsed to exactly this tree. */
  lemma {:induction false} SubExprOfYield(ts: seq<Token>, c: nat, e: Ast, limit: nat)
    requires c < |ts| && Respects(e) && At(ts, c, Yield(e)) && limit < Lead(e)
    requires Ends(ts, c + |Yield(e)|, Min(limit, Tail(e)))
    ensures SubExpr(ts, c, limit) == Ok(e, Cursor(ts, c + |Yield(e)|))
    decreases e, 2
  {
    hide Yield, SubExpr;
    LeftOperand(ts, c, e, limit);
    CursorCloses(ts, c, e, Min(limit, Tail(e)));
  }

  /** Parsing the tokens of a tree gives the tree. */
  lemma ParseOfYield(e: Ast)
    requires Respects(e)
    ensures SubExpr(Yield(e), 0, 0) == Ok(e, |Yield(e)| - 1)
  {
    hide Yield, SubExpr, Respects;
    LastToken(e);
    LeadPositive(e);
    SubExprOfYield(Yield(e), 0, e, 0);
  }

  /** Priorities and brackets leave no doubt: no two trees that respect them have the same tokens. */
  lemma YieldsDiffer(e: Ast, f: Ast)
    requires Respects(e) && Respects(f) && Yield(e) == Yield(f)
    ensures e == f
  {
    ParseOfYield(e);
    ParseOfYield(f);
  }

  // ---------------------------------------------------------------- the priorities of the language

  predicate IsBinary(op: Op) { op !in {NoOp, Not, Pound} }

  /** The levels of the binary operators in section 2.5.6 of the Lua 5.1 Reference Manual, from `or` upward; unary
      operators stand between the last two. */
  function Level(op: Op): nat
    requires IsBinary(op)
  {
    match op
    case Or => 1
    case And => 2
    case Lt | Gt | Leq | Geq | Neq | Eq => 3
    case Concat => 4
    case Plus | Minus => 5
    case Star | Slash | Percent => 6
    case Hat => 8
  }

  /** Concatenation and exponentiation are right associative, all other binary operators left associative. */
  predicate GroupsLeft(p: Op, q: Op)
    requires IsBinary(p) && IsBinary(q)
  {
    Level(p) > Level(q) || (Level(p) == Level(q) && p != Concat && p != Hat)
  }

  /** Of the two ways to group `a p b q c`, exactly the one the manual asks for is parsed. */
  lemma GroupingFollowsManual(p: Op, q: Op, a: string, b: string, c: string)
    requires IsBinary(p) && IsBinary(q)
    ensures var left := Bin(q, Bin(p, Name(a), Name(b)), Name(c));
            var right := Bin(p, Name(a), Bin(q, Name(b), Name(c)));
            var ts := [TName(a), TOp(p), TName(b), TOp(q), TName(c)];
            && Yield(left) == ts == Yield(right)
            && SubExpr(ts, 0, 0) == Ok(if GroupsLeft(p, q) then left else right, 4)
  {
    hide SubExpr;
    var left := Bin(q, Bin(p, Name(a), Name(b)), Name(c));
    var right := Bin(p, Name(a), Bin(q, Name(b), Name(c)));
    TwoNames(p, a, b);
    TwoNames(q, b, c);
    YieldBin(left);
    YieldBin(right);
    assert Yield(Name(a)) == [TName(a)] && Yield(Name(c)) == [TName(c)];
    assert Yield(left) == [TName(a), TOp(p), TName(b), TOp(q), TName(c)] == Yield(right);
    if GroupsLeft(p, q) {
      ParseOfYield(left);
    } else {
      ParseOfYield(right);
    }
  }

  /** A unary operator binds tighter than every binary one but exponentiation. */
  lemma UnaryFollowsManual(u: Op, p: Op, a: string, b: string)
    requires IsUnop(TOp(u)) && IsBinary(p)
    ensures var inner := Bin(p, Un(u, Name(a)), Name(b));
            var outer := Un(u, Bin(p, Name(a), Name(b)));
            var ts := [TOp(u), TName(a), TOp(p), TName(b)];
            && Yield(inner) == ts == Yield(outer)
            && SubExpr(ts, 0, 0) == Ok(if p == Hat then outer else inner, 3)
  {
    hide SubExpr;
    var inner := Bin(p, Un(u, Name(a)), Name(b));
    var outer := Un(u, Bin(p, Name(a), Name(b)));
    TwoNames(p, a, b);
    YieldBin(inner);
    YieldUn(outer);
    assert Yield(Un(u, Name(a))) == [TOp(u), TName(a)] && Yield(Name(b)) == [TName(b)];
    assert Yield(inner) == [TOp(u), TName(a), TOp(p), TName(b)] == Yield(outer);
    if p == Hat {
      ParseOfYield(outer);
    } else {
      assert Respects(Un(u, Name(a))) && Tail(Un(u, Name(a))) == UNARY_PRIORITY;
      ParseOfYield(inner);
    }
  }

  lemma TwoNames(p: Op, a: string, b: string)
    requires IsBinary(p)
    ensures var e := Bin(p, Name(a), Name(b));
            Respects(e) && Lead(e) == Left(p) && Tail(e) == Right(p) && Yield(e) == [TName(a), TOp(p), TName(b)]
  {
    var e := Bin(p, Name(a), Name(b));
    assert Respects(Name(a)) && Respects(Name(b)) && Lead(Name(b)) == HIGHEST == Tail(Name(a));
    assert Yield(e) == [TName(a)] + [TOp(p)] + [TName(b)];
  }

  // ---------------------------------------------------------------- what is accepted

  /** From `c` on the endless input, in which the last token repeats, starts with `s`. */
  ghost predicate Reads(ts: seq<Token>, c: nat, s: seq<Token>)
    requires ts != []
  {
    forall i :: 0 <= i < |s| ==> s[i] == ts[Cursor(ts, c + i)]
  }

  lemma ReadsJoin(ts: seq<Token>, c: nat, a: seq<Token>, b: seq<Token>)
    requires ts != [] && Reads(ts, c, a) && Reads(ts, Cursor(ts, c + |a|), b)
    ensures Reads(ts, c, a + b) && Cursor(ts, Cursor(ts, c + |a|) + |b|) == Cursor(ts, c + |a + b|)
  {
    forall i | 0 <= i < |a + b|
      ensures (a + b)[i] == ts[Cursor(ts, c + i)]
    {
      if i >= |a| {
        assert b[i - |a|] == ts[Cursor(ts, Cursor(ts, c + |a|) + (i - |a|))];
      }
    }
  }

  /** A parsed tree: it has the right shape, its tokens are those of the input, and the cursor is behind them. */
  ghost predicate Faithful(ts: seq<Token>, c: nat, e: Ast, c1: nat)
    requires ts != []
  {
    Respects(e) && Reads(ts, c, Yield(e)) && c1 == Cursor(ts, c + |Yield(e)|)
  }

  lemma OneToken(ts: seq<Token>, c: nat)
    requires c < |ts|
    ensures Reads(ts, c, [ts[c]]) && Cursor(ts, c + 1) == Step(ts, c) && Cursor(ts, c) == c
  {
  }

  lemma {:induction false} PrefixSound(ts: seq<Token>, c: nat)
    requires c < |ts| && PrefixExp(ts, c).Ok?
    ensures var r := PrefixExp(ts, c); IsPrimary(r.e) && Faithful(ts, c, r.e, r.c)
    decreases |ts| - c, 2
  {
    hide SubExpr;
    if ts[c].LBrace? {
      var r := SubExpr(ts, Step(ts, c), 0);
      SubExprSound(ts, Step(ts, c), 0);
      ReadsJoin(ts, c, [LBrace], Yield(r.e));
      ReadsJoin(ts, c, [LBrace] + Yield(r.e), [RBrace]);
    }
  }

  lemma {:induction false} SuffixesSound(ts: seq<Token>, c0: nat, c: nat, left: Ast)
    requires c < |ts| && Suffixes(ts, c, left).Ok? && IsPrimary(left) && Faithful(ts, c0, left, c)
    ensures var r := Suffixes(ts, c, left); IsPrimary(r.e) && Faithful(ts, c0, r.e, r.c)
    decreases |ts| - c, if ts[c].LBrack? then 9 else 1
  {
    hide SubExpr;
    if ts[c].TDot? {
      ReadsJoin(ts, c0, Yield(left), [TDot, TName(ts[c + 1].name)]);
      SuffixesSound(ts, c0, Step(ts, c + 1), DotOp(left, ts[c + 1].name));
    } else if ts[c].LBrack? {
      var r := SubExpr(ts, Step(ts, c), 0);
      SubExprSound(ts, Step(ts, c), 0);
      IndexReads(ts, c0, c, left, r.e, r.c);
      SuffixesSound(ts, c0, Step(ts, r.c), Index(left, r.e));
    }
  }

  lemma IndexReads(ts: seq<Token>, c0: nat, c: nat, left: Ast, key: Ast, c1: nat)
    requires ts != [] && c < |ts| && c1 < |ts| && ts[c].LBrack? && ts[c1].RBrack?
    requires IsPrimary(left) && Faithful(ts, c0, left, c) && Faithful(ts, Step(ts, c), key, c1)
    ensures Faithful(ts, c0, Index(left, key), Step(ts, c1))
  {
    hide Yield, Reads, Cursor;
    YieldPrimary(Index(left, key));
    OneToken(ts, c);
    OneToken(ts, c1);
    ReadsJoin(ts, c0, Yield(left), [LBrack]);
    ReadsJoin(ts, c0, Yield(left) + [LBrack], Yield(key));
    ReadsJoin(ts, c0, Yield(left) + [LBrack] + Yield(key), [RBrack]);
  }

  lemma {:induction false} OperandSound(ts: seq<Token>, c: nat)
    requires c < |ts| && Operand(ts, c).Ok?
    ensures var r := Operand(ts, c);
            Faithful(ts, c, r.e, r.c) && Lead(r.e) == HIGHEST && Left(BinopOf(ts[r.c])) <= Tail(r.e)
    decreases |ts| - c, 5
  {
    hide SubExpr, PrefixExp, Suffixes, Yield;
    OneToken(ts, c);
    if IsUnop(ts[c]) {
      var r := SubExpr(ts, Step(ts, c), UNARY_PRIORITY);
      SubExprSound(ts, Step(ts, c), UNARY_PRIORITY);
      YieldUn(Un(ts[c].op, r.e));
      ReadsJoin(ts, c, [ts[c]], Yield(r.e));
    } else if ts[c].TConst? {
      YieldConst(Const(ts[c].val));
    } else {
      assert Operand(ts, c) == SimpleExp(ts, c) == PrimaryExp(ts, c);
      var r := PrefixExp(ts, c);
      PrefixSound(ts, c);
      SuffixesSound(ts, c, r.c, r.e);
    }
  }

  lemma {:induction false} OperatorsSound(ts: seq<Token>, c0: nat, c: nat, left: Ast, limit: nat)
    requires c < |ts| && Operators(ts, c, left, limit).Ok?
    requires Faithful(ts, c0, left, c) && limit < Lead(left) && Left(BinopOf(ts[c])) <= Tail(left)
    ensures var r := Operators(ts, c, left, limit);
            Faithful(ts, c0, r.e, r.c) && limit < Lead(r.e) && Left(BinopOf(ts[r.c])) <= Min(limit, Tail(r.e))
    decreases |ts| - c, if ts[c].TOp? then 9 else 1
  {
    hide SubExpr;
    var op := BinopOf(ts[c]);
    if op != NoOp && Left(op) > limit {
      var r := SubExpr(ts, Step(ts, c), Right(op));
      SubExprSound(ts, Step(ts, c), Right(op));
      BinReads(ts, c0, c, left, r.e, r.c);
      OperatorsSound(ts, c0, r.c, Bin(op, left, r.e), limit);
    }
  }

  lemma BinReads(ts: seq<Token>, c0: nat, c: nat, left: Ast, right: Ast, c1: nat)
    requires ts != [] && c < |ts| && ts[c].TOp? && Left(ts[c].op) > 0
    requires Faithful(ts, c0, left, c) && Faithful(ts, Step(ts, c), right, c1)
    requires Left(ts[c].op) <= Tail(left) && Right(ts[c].op) < Lead(right)
    ensures Faithful(ts, c0, Bin(ts[c].op, left, right), c1)
  {
    YieldBin(Bin(ts[c].op, left, right));
    ReadsJoin(ts, c0, Yield(left), [ts[c]]);
    ReadsJoin(ts, c0, Yield(left) + [ts[c]], Yield(right));
  }

  /** Whatever is accepted is a tree of the right shape, and its tokens are read from the input as far as it
      reaches and from repetitions of its last token behind that. */
  lemma {:induction false} SubExprSound(ts: seq<Token>, c: nat, limit: nat)
    requires c < |ts| && limit < HIGHEST && SubExpr(ts, c, limit).Ok?
    ensures var r := SubExpr(ts, c, limit);
            Faithful(ts, c, r.e, r.c) && limit < Lead(r.e) && Left(BinopOf(ts[r.c])) <= Min(limit, Tail(r.e))
    decreases |ts| - c, 6
  {
    hide Operand, Operators;
    var r := Operand(ts, c);
    OperandSound(ts, c);
    OperatorsSound(ts, c, r.c, r.e, limit);
  }

  /** The repetition is seen by closing brackets: a missing one at the end of the input is not noticed. */
  lemma MissingBracketAccepted(a: string)
    ensures var ts := [LBrace, LBrace, TName(a), RBrace];
            SubExpr(ts, 0, 0) == Ok(Brace(Brace(Name(a))), 3)
  {
    hide SubExpr, PrimaryExp, SimpleExp;
    var ts := [LBrace, LBrace, TName(a), RBrace];
    NameStep(ts, 2);
    NoSuffix(ts, 2, 3, Name(a));
    SimpleStep(ts, 2, 0, Name(a), 3);
    BraceStep(ts, 1, Name(a), 3);
    NoSuffix(ts, 1, 3, Brace(Name(a)));
    SimpleStep(ts, 1, 0, Brace(Name(a)), 3);
    BraceStep(ts, 0, Brace(Name(a)), 3);
    NoSuffix(ts, 0, 3, Brace(Brace(Name(a))));
    SimpleStep(ts, 0, 0, Brace(Brace(Name(a))), 3);
  }
}
