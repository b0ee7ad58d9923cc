/** Operator precedence in the XPath parser: precedence climbing accepts exactly the layered grammar, with its trees. */
module Precedence {

  datatype Op = OpOr | OpAnd | OpEq | OpNe | OpLt | OpGt | OpLe | OpGe | OpAdd | OpSub | OpMul | OpDiv | OpMod | OpUnion

  /** A path or a primary expression counts as one token; isSet says whether it is of type node set. */
  datatype Token = TAtom(id: nat, isSet: bool) | TOp(op: Op) | TOpen | TClose

  /** Parentheses are kept, so that a tree tells how it was written. */
  datatype Ast = Leaf(id: nat, isSet: bool) | Paren(inner: Ast) | Neg(arg: Ast) | Bin(op: Op, left: Ast, right: Ast)

  function Prec(op: Op): (p: nat)
    ensures 1 <= p <= 7
  {
    match op
    case OpOr => 1
    case OpAnd => 2
    case OpEq => 3
    case OpNe => 3
    case OpLt => 4
    case OpGt => 4
    case OpLe => 4
    case OpGe => 4
    case OpAdd => 5
    case OpSub => 5
    case OpMul => 6
    case OpDiv => 6
    case OpMod => 6
    case OpUnion => 7
  }

  // The grammar, sections 3.1 to 3.5 of XPath 1.0: levels 1 to 6 are the binary operators, 7 is UnaryExpr,
  // 8 UnionExpr and 9 PathExpr.

  function Level(op: Op): nat {
    if op == OpUnion then 8 else Prec(op)
  }

  /** Is e an expression of level n or above? Operators associate to the left, right operands bind tighter. */
  predicate Grammar(e: Ast, n: nat) {
    match e
    case Leaf(_, _) => n <= 9
    case Paren(x) => n <= 9 && Grammar(x, 1)
    case Neg(x) => n <= 7 && Grammar(x, 7)
    case Bin(op, l, r) => n <= Level(op) && Grammar(l, Level(op)) && Grammar(r, Level(op) + 1)
  }

  predicate IsSet(e: Ast) {
    match e
    case Leaf(_, isSet) => isSet
    case Paren(x) => IsSet(x)
    case Neg(_) => false
    case Bin(op, _, _) => op == OpUnion
  }

  /** Unions are of node sets only. */
  predicate Typed(e: Ast) {
    match e
    case Leaf(_, _) => true
    case Paren(x) => Typed(x)
    case Neg(x) => Typed(x)
    case Bin(op, l, r) => Typed(l) && Typed(r) && (op == OpUnion ==> IsSet(l) && IsSet(r))
  }

  /** The tokens of a tree. */
  function Yield(e: Ast): (ts: seq<Token>)
    ensures ts != []
  {
    match e
    case Leaf(id, isSet) => [TAtom(id, isSet)]
    case Paren(x) => [TOpen] + Yield(x) + [TClose]
    case Neg(x) => [TOp(OpSub)] + Yield(x)
    case Bin(op, l, r) => Yield(l) + [TOp(op)] + Yield(r)
  }

  // The parser as functions on the remaining tokens.

  datatype Parsed = Fail | Ok(e: Ast, rest: seq<Token>)

  /** The next token is an operator of at least that precedence. */
  predicate OpAhead(ts: seq<Token>, limit: nat) {
    ts != [] && ts[0].TOp? && Prec(ts[0].op) >= limit
  }

  function Primary(ts: seq<Token>): (r: Parsed)
    ensures r.Ok? ==> |r.rest| < |ts|
    decreases |ts|, 0
  {
    if ts == [] then Fail
    else match ts[0]
      case TAtom(id, isSet) => Ok(Leaf(id, isSet), ts[1..])
      case TOpen =>
        var r := Primary(ts[1..]);
        if r.Fail? then Fail else
          var s := Climb(r.e, 0, r.rest);
          if s.Fail? || s.rest == [] || s.rest[0] != TClose then Fail else Ok(Paren(s.e), s.rest[1..])
      case TOp(op) =>
        if op != OpSub then Fail else
          var r := Primary(ts[1..]);
          if r.Fail? then Fail else
            var s := Climb(r.e, 7, r.rest);
            if s.Fail? then Fail else Ok(Neg(s.e), s.rest)
      case TClose => Fail
  }

  /** Extend lhs by operators of at least the given precedence. */
  function Climb(lhs: Ast, limit: nat, ts: seq<Token>): (r: Parsed)
    ensures r.Ok? ==> |r.rest| <= |ts| && (OpAhead(ts, limit) ==> |r.rest| < |ts|)
    decreases |ts|, 1
  {
    if !OpAhead(ts, limit) then Ok(lhs, ts) else
      var op := ts[0].op;
      var r := Primary(ts[1..]);
      if r.Fail? then Fail else
        var s := Tighten(r.e, Prec(op), r.rest);
        if s.Fail? || (op == OpUnion && !(IsSet(lhs) && IsSet(s.e))) then Fail
        else Climb(Bin(op, lhs, s.e), limit, s.rest)
  }

  /** Let a right operand take the operators that bind tighter than the one before it. */
  function Tighten(rhs: Ast, p: nat, ts: seq<Token>): (r: Parsed)
    ensures r.Ok? ==> |r.rest| <= |ts|
    decreases |ts|, 2
  {
    if !OpAhead(ts, p + 1) then Ok(rhs, ts) else
      var r := Climb(rhs, Prec(ts[0].op), ts);
      if r.Fail? then Fail else Tighten(r.e, p, r.rest)
  }

  function Parse(ts: seq<Token>): Parsed {
    var r := Primary(ts);
    if r.Fail? then Fail else Climb(r.e, 0, r.rest)
  }

  // Soundness.

  lemma {:induction false} GrammarDown(e: Ast, m: nat, n: nat)
    requires Grammar(e, m) && n <= m
    ensures Grammar(e, n)
  {
  }

  /** Where an operator follows, e can be its left operand. */
  predicate Fits(e: Ast, ts: seq<Token>) {
    ts != [] && ts[0].TOp? ==> Grammar(e, Level(ts[0].op))
  }

  /** What climbing with a limit gives at least. */
  function LevelOf(limit: nat): nat {
    if limit <= 6 then limit else 8
  }

  /** A primary expression: it stands for the tokens that were read, and an operator may follow. */
  ghost predicate PrimaryOk(ts: seq<Token>, r: Parsed) {
    r.Ok? ==> Typed(r.e) && ts == Yield(r.e) + r.rest && Grammar(r.e, 7) && (!r.e.Neg? ==> Grammar(r.e, 9)) && Fits(r.e, r.rest)
  }

  lemma {:induction false} PrimarySound(ts: seq<Token>)
    ensures PrimaryOk(ts, Primary(ts))
    decreases |ts|, 0
  {
    if ts != [] && Primary(ts).Ok? {
      assert ts == [ts[0]] + ts[1..];
      if ts[0].TOpen? || ts[0].TOp? {
        var r := Primary(ts[1..]);
        PrimarySound(ts[1..]);
        var limit := if ts[0].TOpen? then 0 else 7;
        ClimbSound(r.e, limit, r.rest);
        var s := Climb(r.e, limit, r.rest);
        if ts[0].TOpen? {
          ParenYield(s.e, ts, s.rest);
          GrammarDown(s.e, 1, 1);
        } else {
          assert Yield(Neg(s.e)) + s.rest == [ts[0]] + (Yield(s.e) + s.rest);
        }
      }
    }
  }

  lemma ParenYield(e: Ast, ts: seq<Token>, rest: seq<Token>)
    requires ts != [] && ts[0] == TOpen && ts[1..] == Yield(e) + rest && rest != [] && rest[0] == TClose
    ensures ts == Yield(Paren(e)) + rest[1..]
  {
    assert rest == [TClose] + rest[1..];
    assert ts == [TOpen] + ts[1..];
  }

  /** Climbing: the result stands for what lhs stood for and what was read, and no operator of the limit follows. */
  ghost predicate ClimbOk(lhs: Ast, limit: nat, ts: seq<Token>, r: Parsed) {
    r.Ok? ==>
      && Typed(r.e) && Yield(lhs) + ts == Yield(r.e) + r.rest && Fits(r.e, r.rest) && !OpAhead(r.rest, limit)
      && Grammar(r.e, 1) && (Grammar(lhs, LevelOf(limit)) || OpAhead(ts, limit) ==> Grammar(r.e, LevelOf(limit)))
      && (!OpAhead(ts, limit) ==> r.e == lhs)
  }

  lemma {:induction false} ClimbSound(lhs: Ast, limit: nat, ts: seq<Token>)
    requires limit <= 7 && Typed(lhs) && Grammar(lhs, 1) && Fits(lhs, ts)
    ensures ClimbOk(lhs, limit, ts, Climb(lhs, limit, ts))
    decreases |ts|, 1
  {
    if OpAhead(ts, limit) && Climb(lhs, limit, ts).Ok? {
      var op := ts[0].op;
      var r := Primary(ts[1..]);
      PrimarySound(ts[1..]);
      TightenSound(r.e, op, r.rest);
      var s := Tighten(r.e, Prec(op), r.rest);
      var e := Bin(op, lhs, s.e);
      BinYield(lhs, op, s.e, ts, r.e, r.rest, s.rest);
      BinFits(lhs, op, s.e, s.rest);
      GrammarDown(e, Level(op), 1);
      GrammarDown(e, Level(op), LevelOf(limit));
      ClimbSound(e, limit, s.rest);
    }
  }

  lemma BinYield(lhs: Ast, op: Op, rhs: Ast, ts: seq<Token>, prim: Ast, mid: seq<Token>, rest: seq<Token>)
    requires ts != [] && ts[0] == TOp(op) && ts[1..] == Yield(prim) + mid && Yield(prim) + mid == Yield(rhs) + rest
    ensures Yield(lhs) + ts == Yield(Bin(op, lhs, rhs)) + rest
  {
    assert ts == [TOp(op)] + ts[1..];
    assert Yield(lhs) + ([TOp(op)] + (Yield(rhs) + rest)) == Yield(lhs) + [TOp(op)] + Yield(rhs) + rest;
  }

  lemma BinFits(lhs: Ast, op: Op, rhs: Ast, rest: seq<Token>)
    requires Grammar(lhs, Level(op)) && Grammar(rhs, Level(op) + 1) && !OpAhead(rest, Prec(op) + 1)
    ensures Grammar(Bin(op, lhs, rhs), Level(op)) && Fits(Bin(op, lhs, rhs), rest)
  {
  }

  /** A right operand with everything that binds tighter: it may stand to the right of the operator. */
  ghost predicate TightenOk(rhs: Ast, op: Op, ts: seq<Token>, r: Parsed) {
    r.Ok? ==>
      && Typed(r.e) && Yield(rhs) + ts == Yield(r.e) + r.rest && !OpAhead(r.rest, Prec(op) + 1)
      && Grammar(r.e, 1) && (op != OpUnion || IsSet(r.e) ==> Grammar(r.e, Level(op) + 1))
  }

  lemma {:induction false} TightenSound(rhs: Ast, op: Op, ts: seq<Token>)
    requires Typed(rhs) && Grammar(rhs, 1) && Fits(rhs, ts) && (op != OpUnion ==> Grammar(rhs, Level(op) + 1))
    requires op == OpUnion && IsSet(rhs) ==> Grammar(rhs, 9)
    ensures TightenOk(rhs, op, ts, Tighten(rhs, Prec(op), ts))
    decreases |ts|, 2
  {
    if OpAhead(ts, Prec(op) + 1) && Tighten(rhs, Prec(op), ts).Ok? {
      var limit := Prec(ts[0].op);
      var r := Climb(rhs, limit, ts);
      ClimbSound(rhs, limit, ts);
      GrammarDown(r.e, LevelOf(limit), Level(op) + 1);
      TightenSound(r.e, op, r.rest);
    }
  }

  // Completeness: the parser finds the tree of its yield.

  /** Parsing the tokens of e and what follows comes to climbing on from e. */
  ghost predicate Finds(e: Ast, limit: nat, rest: seq<Token>) {
    var r := Primary(Yield(e) + rest);
    r.Ok? && Climb(r.e, limit, r.rest) == Climb(e, limit, rest)
  }

  ghost predicate FindsTight(e: Ast, p: nat, rest: seq<Token>) {
    var r := Primary(Yield(e) + rest);
    r.Ok? && Tighten(r.e, p, r.rest) == Tighten(e, p, rest)
  }

  /** Leaves, parentheses and negations are primary. */
  lemma {:induction false} PrimaryFinds(e: Ast, rest: seq<Token>)
    requires !e.Bin? && Grammar(e, 1) && Typed(e) && Fits(e, rest)
    ensures Primary(Yield(e) + rest) == Ok(e, rest)
    decreases e, 0
  {
    var ts := Yield(e) + rest;
    match e
    case Leaf(id, isSet) => assert ts[1..] == rest;
    case Paren(x) =>
      var after := [TClose] + rest;
      assert ts[1..] == Yield(x) + after;
      ClimbFinds(x, 0, after);
      assert after[1..] == rest;
    case Neg(x) =>
      assert ts[1..] == Yield(x) + rest;
      if x.Neg? {
        PrimaryFinds(x, rest);
      } else {
        NegFits(x, rest);
        ClimbFinds(x, 7, rest);
      }
  }

  lemma NegFits(x: Ast, rest: seq<Token>)
    requires Grammar(x, 7) && !x.Neg? && Fits(Neg(x), rest)
    ensures Grammar(x, 8) && Fits(x, rest) && !OpAhead(rest, 7)
  {
    if rest != [] && rest[0].TOp? {
      GrammarDown(x, 8, Level(rest[0].op));
    }
  }

  /** One turn of the climbing loop. */
  lemma ClimbTurn(op: Op, l: Ast, r: Ast, limit: nat, rest: seq<Token>)
    requires Prec(op) >= limit && FindsTight(r, Prec(op), rest) && !OpAhead(rest, Prec(op) + 1) && Typed(Bin(op, l, r))
    ensures Climb(l, limit, [TOp(op)] + (Yield(r) + rest)) == Climb(Bin(op, l, r), limit, rest)
  {
    var ts := [TOp(op)] + (Yield(r) + rest);
    assert ts[1..] == Yield(r) + rest;
  }

  lemma BinTokens(op: Op, l: Ast, r: Ast, rest: seq<Token>)
    ensures Yield(Bin(op, l, r)) + rest == Yield(l) + ([TOp(op)] + (Yield(r) + rest))
  {
  }

  lemma {:induction false} ClimbFinds(e: Ast, limit: nat, rest: seq<Token>)
    requires limit <= 7 && Grammar(e, LevelOf(limit)) && Grammar(e, 1) && Typed(e) && Fits(e, rest)
    ensures Finds(e, limit, rest)
    decreases e, 1
  {
    if e.Bin? {
      var tail := [TOp(e.op)] + (Yield(e.right) + rest);
      BinTokens(e.op, e.left, e.right, rest);
      Bounds(e, rest);
      GrammarDown(e.left, Level(e.op), LevelOf(limit));
      GrammarDown(e.left, Level(e.op), 1);
      ClimbFinds(e.left, limit, tail);
      TightenFinds(e.right, e.op, rest);
      ClimbTurn(e.op, e.left, e.right, limit, rest);
    } else {
      PrimaryFinds(e, rest);
    }
  }

  /** What may follow e = l op r does not bind tighter than op; so it may follow r. */
  lemma Bounds(e: Ast, rest: seq<Token>)
    requires e.Bin? && Grammar(e, 1) && Fits(e, rest)
    ensures !OpAhead(rest, Prec(e.op) + 1) && Fits(e.right, rest)
  {
    if rest != [] && rest[0].TOp? {
      GrammarDown(e.right, Level(e.op) + 1, Level(rest[0].op));
    }
  }

  /** A right operand is found by letting it take what binds tighter. */
  lemma {:induction false} TightenFinds(e: Ast, op: Op, rest: seq<Token>)
    requires Grammar(e, Level(op) + 1) && Typed(e) && Fits(e, rest)
    ensures FindsTight(e, Prec(op), rest)
    decreases e, 1
  {
    GrammarDown(e, Level(op) + 1, 1);
    if e.Bin? {
      var tail := [TOp(e.op)] + (Yield(e.right) + rest);
      BinTokens(e.op, e.left, e.right, rest);
      Bounds(e, rest);
      GrammarDown(e.left, Level(e.op), Level(op) + 1);
      TightenFinds(e.left, op, tail);
      TightenFinds(e.right, e.op, rest);
      ClimbTurn(e.op, e.left, e.right, Prec(e.op), rest);
      assert Tighten(e.left, Prec(op), tail) == Tighten(e, Prec(op), rest) by {
        TightenTurn(e, op, rest, tail);
      }
    } else {
      PrimaryFinds(e, rest);
    }
  }

  lemma TightenTurn(e: Ast, op: Op, rest: seq<Token>, tail: seq<Token>)
    requires e.Bin? && Prec(e.op) > Prec(op) && tail != [] && tail[0] == TOp(e.op)
    requires Climb(e.left, Prec(e.op), tail) == Climb(e, Prec(e.op), rest) && !OpAhead(rest, Prec(e.op) + 1)
    ensures Tighten(e.left, Prec(op), tail) == Tighten(e, Prec(op), rest)
  {
    if OpAhead(rest, Prec(e.op)) {
      assert Prec(rest[0].op) == Prec(e.op);
    } else {
      assert Climb(e, Prec(e.op), rest) == Ok(e, rest);
    }
  }

  /** Printing and parsing again is the identity on the trees of the grammar. */
  lemma ParsePrinted(e: Ast)
    requires Grammar(e, 1) && Typed(e)
    ensures Parse(Yield(e)) == Ok(e, [])
  {
    assert Yield(e) + [] == Yield(e);
    GrammarDown(e, 1, 0);
    ClimbFinds(e, 0, []);
  }

  /** The whole input is accepted with a tree if and only if it is the yield of that tree of the grammar. */
  lemma ParsedExactly(ts: seq<Token>, e: Ast)
    ensures Parse(ts) == Ok(e, []) <==> Grammar(e, 1) && Typed(e) && Yield(e) == ts
  {
    if Parse(ts) == Ok(e, []) {
      var r := Primary(ts);
      PrimarySound(ts);
      GrammarDown(r.e, 7, 1);
      ClimbSound(r.e, 0, r.rest);
      assert Yield(e) + [] == Yield(e);
    }
    if Grammar(e, 1) && Typed(e) && Yield(e) == ts {
      ParsePrinted(e);
    }
  }
}
