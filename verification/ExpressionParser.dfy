/** The expression parser with its token position; loops where the source loops, a failure where it throws. */
module ExpressionParser {
  import opened Precedence

  class XPathParser {
    const tokens: seq<Token>
    var pos: nat

    constructor (input: seq<Token>)
      ensures tokens == input && pos == 0
    {
      tokens, pos := input, 0;
    }

    ghost predicate Valid()
      reads this
    {
      pos <= |tokens|
    }

    ghost function Rest(): seq<Token>
      requires Valid()
      reads this
    {
      tokens[pos..]
    }

    /** What a call has done to the position, compared with the function on the remaining tokens. */
    ghost predicate Follows(p: Parsed, ok: bool, e: Ast)
      reads this
    {
      Valid() && ok == p.Ok? && (ok ==> e == p.e && Rest() == p.rest)
    }

    /** The operator at the position, if there is one of at least that precedence. */
    method OperatorHere(limit: nat) returns (known: bool, op: Op)
      requires Valid()
      ensures known == OpAhead(Rest(), limit) && (known ==> op == Rest()[0].op)
    {
      known, op := false, OpOr;
      if pos < |tokens| && tokens[pos].TOp? {
        op := tokens[pos].op;
        known := Prec(op) >= limit;
      }
    }

    method Next()
      requires Valid() && Rest() != []
      modifies this
      ensures Valid() && Rest() == old(Rest()[1..]) && pos == old(pos) + 1
    {
      pos := pos + 1;
    }

    method ParsePathOrUnaryExpression() returns (ok: bool, e: Ast)
      requires Valid()
      modifies this
      ensures Follows(Primary(old(Rest())), ok, e)
      decreases |tokens| - pos, 0
    {
      ok, e := false, Leaf(0, false);
      if pos == |tokens| {
        return;
      }
      match tokens[pos]
      case TAtom(id, isSet) =>
        Next();
        ok, e := true, Leaf(id, isSet);
      case TOpen =>
        Next();
        ok, e := ParsePathOrUnaryExpression();
        if ok {
          ok, e := ParseExpressionRec(e, 0);
        }
        if ok {
          ok := pos < |tokens| && tokens[pos] == TClose;
          if ok {
            Next();
            e := Paren(e);
          }
        }
      case TOp(op) =>
        if op == OpSub {
          Next();
          ok, e := ParsePathOrUnaryExpression();
          if ok {
            ok, e := ParseExpressionRec(e, 7);
            e := Neg(e);
          }
        }
      case TClose =>
    }

    /** Extend lhs as long as operators of at least the given precedence follow. */
    method ParseExpressionRec(lhs: Ast, limit: nat) returns (ok: bool, e: Ast)
      requires Valid()
      modifies this
      ensures Follows(Climb(lhs, limit, old(Rest())), ok, e)
      decreases |tokens| - pos, 1
    {
      ok, e := true, lhs;
      var more, op := OperatorHere(limit);
      while more
        invariant ok && Valid() && old(pos) <= pos && Climb(e, limit, Rest()) == Climb(lhs, limit, old(Rest()))
        invariant more == OpAhead(Rest(), limit) && (more ==> op == Rest()[0].op)
        decreases |tokens| - pos
      {
        ghost var ts := Rest();
        Next();
        var rhs;
        ok, rhs := ParsePathOrUnaryExpression();
        if !ok {
          return;
        }
        ok, rhs := ParseRightOperand(rhs, op);
        if !ok || (op == OpUnion && !(IsSet(e) && IsSet(rhs))) {
          ok := false;
          return;
        }
        e := Bin(op, e, rhs);
        more, op := OperatorHere(limit);
      }
    }

    /** The inner loop: a right operand takes the operators that bind tighter than the one before it. */
    method ParseRightOperand(rhs: Ast, op: Op) returns (ok: bool, e: Ast)
      requires Valid()
      modifies this
      ensures Follows(Tighten(rhs, Prec(op), old(Rest())), ok, e)
      decreases |tokens| - pos, 2
    {
      ok, e := true, rhs;
      var more, nextop := OperatorHere(Prec(op) + 1);
      while more
        invariant ok && Valid() && old(pos) <= pos && Tighten(e, Prec(op), Rest()) == Tighten(rhs, Prec(op), old(Rest()))
        invariant more == OpAhead(Rest(), Prec(op) + 1) && (more ==> nextop == Rest()[0].op)
        decreases |tokens| - pos
      {
        ok, e := ParseExpressionRec(e, Prec(nextop));
        if !ok {
          return;
        }
        more, nextop := OperatorHere(Prec(op) + 1);
      }
    }

    /** A whole expression: accepted with exactly the tree that the grammar gives these tokens. */
    method ParseExpression() returns (ok: bool, e: Ast)
      requires pos == 0
      modifies this
      ensures Valid() && ok == Parse(tokens).Ok?
      ensures ok && pos == |tokens| ==> Grammar(e, 1) && Typed(e) && Yield(e) == tokens
      ensures !(ok && pos == |tokens|) ==> !exists x :: Grammar(x, 1) && Typed(x) && Yield(x) == tokens
    {
      assert Rest() == tokens;
      ok, e := ParsePathOrUnaryExpression();
      if ok {
        ok, e := ParseExpressionRec(e, 0);
      }
      assert Follows(Parse(tokens), ok, e);
      if ok && pos == |tokens| {
        ParsedExactly(tokens, e);
      } else {
        forall x | Grammar(x, 1) && Typed(x) && Yield(x) == tokens ensures false {
          ParsedExactly(tokens, x);
        }
      }
    }
  }
}
