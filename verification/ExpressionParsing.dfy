/** The recursive-descent parser over a mutable token cursor. Where the program descends without end, the methods
    return with an answer of its own. */
module ExpressionParsing {
  import opened Expressions

  class ExpressionParser {
    var tokens: seq<Token>
    var cur: nat                // the number of tokens consumed so far

    constructor (ts: seq<Token>)
      ensures tokens == ts && cur == 0
    {
      tokens, cur := ts, 0;
    }

    /** At least one token is consumed. */
    ghost predicate Valid()
      reads this
    {
      0 < cur <= |tokens|
    }

    /** The index of the token that was consumed last. */
    ghost function Here(): int
      reads this
    {
      cur - 1
    }

    /** The next token; at the end an invalid one, and the cursor stays. */
    method Next() returns (t: Token)
      modifies `cur
      ensures if old(cur) < |tokens| then t == tokens[old(cur)] && cur == old(cur) + 1
              else t == Invalid && cur == old(cur)
    {
      if cur < |tokens| {
        t := tokens[cur];
        cur := cur + 1;
      } else {
        t := Invalid;
      }
    }

    /** The token consumed last. */
    function Peek(): Token
      requires cur <= |tokens|
      reads this
    {
      if cur >= 1 then tokens[cur - 1] else Invalid
    }

    /** The result is that of the specification, and behind a tree the cursor is, too. */
    ghost predicate Agrees(r: Parsed, spec: Parsed)
      reads this
    {
      r == spec && (r.Ok? ==> Valid() && r.c == Here())
    }

    method Prefixexp() returns (r: Parsed)
      requires Valid()
      modifies `cur
      ensures Agrees(r, PrefixExp(tokens, old(Here())))
      decreases |tokens| - cur, 2
    {
      hide SubExpr;
      var tok := Peek();
      if tok.LBrace? {
        if cur == |tokens| {
          return Endless;
        }
        var _ := Next();
        r := Subexpr(0);
        if !r.Ok? {
          return;
        }
        if !Peek().RBrace? {
          return Error("expecting ')'");
        }
        var _ := Next();
        r := Ok(Brace(r.e), cur - 1);
      } else if tok.TName? {
        var _ := Next();
        r := Ok(Name(tok.name), cur - 1);
      } else {
        r := Error("unexpected symbol");
      }
    }

    method Primaryexp() returns (r: Parsed)
      requires Valid()
      modifies `cur
      ensures Agrees(r, PrimaryExp(tokens, old(Here())))
      decreases |tokens| - cur, 3
    {
      hide SubExpr, PrefixExp;
      r := Prefixexp();
      if !r.Ok? {
        return;
      }
      while true
        invariant Valid() && r.Ok? && r.c == Here() && old(cur) <= cur
        invariant cur == old(cur) ==> IsOperand(tokens[Here()])
        invariant Suffixes(tokens, Here(), r.e) == PrimaryExp(tokens, old(Here()))
        decreases |tokens| - cur
      {
        var tok := Peek();
        if tok.TDot? {
          tok := Next();
          if !tok.TName? {
            return Error("expecting name");
          }
          var _ := Next();
          r := Ok(DotOp(r.e, tok.name), cur - 1);
        } else if tok.LBrack? {
          var _ := Next();
          var key := Subexpr(0);
          if !key.Ok? {
            return key;
          }
          if !Peek().RBrack? {
            return Error("expecting ']'");
          }
          var _ := Next();
          r := Ok(Index(r.e, key.e), cur - 1);
        } else {
          return;
        }
      }
    }

    method Simpleexp() returns (r: Parsed)
      requires Valid()
      modifies `cur
      ensures Agrees(r, SimpleExp(tokens, old(Here())))
      decreases |tokens| - cur, 4
    {
      var tok := Peek();
      if tok.TConst? {
        var _ := Next();
        r := Ok(Const(tok.val), cur - 1);
      } else {
        r := Primaryexp();
      }
    }

    /** An operand, with the unary operators in front of it. */
    method FirstOperand() returns (r: Parsed)
      requires Valid()
      modifies `cur
      ensures Agrees(r, Operand(tokens, old(Here())))
      decreases |tokens| - cur, 5
    {
      hide SimpleExp, SubExpr;
      var tok := Peek();
      if IsUnop(tok) {
        if cur == |tokens| {
          return Endless;
        }
        var _ := Next();
        r := Subexpr(UNARY_PRIORITY);
        if r.Ok? {
          r := Ok(Un(tok.op, r.e), cur - 1);
        }
      } else {
        r := Simpleexp();
      }
    }

    /** An operand and the binary operators behind it that bind tighter than `limit`. */
    method Subexpr(limit: nat) returns (r: Parsed)
      requires Valid()
      modifies `cur
      ensures Agrees(r, SubExpr(tokens, old(Here()), limit))
      decreases |tokens| - cur, 6
    {
      hide Operand, Left, Right;
      r := FirstOperand();
      if !r.Ok? {
        return;
      }
      var op := BinopOf(Peek());
      while op != NoOp && Left(op) > limit
        invariant Valid() && r.Ok? && r.c == Here() && old(cur) <= cur && op == BinopOf(tokens[Here()])
        invariant cur == old(cur) ==> IsOperand(tokens[Here()])
        invariant Operators(tokens, Here(), r.e, limit) == SubExpr(tokens, old(Here()), limit)
        decreases |tokens| - cur
      {
        var _ := Next();
        var right := Subexpr(Right(op));
        if !right.Ok? {
          return right;
        }
        r := Ok(Bin(op, r.e, right.e), cur - 1);
        op := BinopOf(Peek());
      }
    }

    /** Parses the tokens from the start; tokens behind the expression are not looked at. */
    method Parse() returns (r: Parsed)
      modifies `cur
      ensures if tokens == [] then r.Error? else r == SubExpr(tokens, 0, 0)
    {
      cur := 0;
      var _ := Next();
      if tokens == [] {
        r := Error("unexpected symbol");
      } else {
        r := Subexpr(0);
      }
    }
  }

  /** The parser gives back every tree that respects the priorities, from its tokens. */
  method ParsesBack(e: Ast) returns (r: Ast)
    requires Respects(e)
    ensures r == e
  {
    hide Yield, Respects, SubExpr;
    ParseOfYield(e);
    var p := new ExpressionParser(Yield(e));
    var res := p.Parse();
    r := res.e;
  }
}
