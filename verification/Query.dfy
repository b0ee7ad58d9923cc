/** A query from end to end: optimised once, evaluated with early stops, and still what the expression means. */
module Query {
  import opened Sequences
  import opened XmlTree
  import opened Axes
  import opened Steps
  import opened DocumentOrder
  import opened NodeSets
  import opened DocumentSets
  import opened XPathSyntax
  import opened XPathSemantics
  import opened Optimizer
  import opened OptimizerCorrect
  import opened EvalFacts
  import opened Evaluator
  import opened Readings

  // The optimiser leaves behind what the evaluator relies on.

  lemma {:induction false} OptExprSound(e: Expr)
    requires SoundExpr(e)
    ensures SoundExpr(OptExpr(e))
    decreases e
  {
    match e
    case OfNodes(s) => OptSetSound(s);
    case One(_, a) => OptExprSound(a);
    case OfSet(_, s) => OptSetSound(s);
    case Two(_, l, r) =>
      OptExprSound(l);
      OptExprSound(r);
    case Concat(a, rest) =>
      OptExprSound(a);
      OptExprsSound(rest);
    case Translate(a, from, to) =>
      OptExprSound(a);
      OptExprSound(from);
      OptExprSound(to);
    case Substring3(a, start, length) =>
      OptExprSound(a);
      OptExprSound(start);
      OptExprSound(length);
    case OptTranslateTable(a, _) => OptExprSound(a);
    case _ =>
  }

  lemma {:induction false} OptExprsSound(es: Exprs)
    requires SoundExprs(es)
    ensures SoundExprs(OptExprs(es))
    decreases es
  {
    if es.ECons? {
      OptExprSound(es.e);
      OptExprsSound(es.es);
    }
  }

  lemma {:induction false} OptPredsSound(preds: Preds)
    requires SoundPreds(preds)
    ensures SoundPreds(OptPreds(preds))
    decreases preds
  {
    if preds.PCons? {
      OptExprSound(preds.pred);
      DropPositionSound(OptExpr(preds.pred));
      OptPredsSound(preds.rest);
    }
  }

  lemma DropPositionSound(p: Expr)
    requires SoundExpr(p)
    ensures SoundExpr(DropPosition(p)) && ClassTrue(DropPosition(p), Classify(DropPosition(p)))
  {
  }

  lemma {:induction false} OptSetSound(s: SetExpr)
    requires SoundSet(s)
    ensures SoundSet(OptSet(s))
    decreases s
  {
    match s
    case Union(l, r) =>
      OptSetSound(l);
      OptSetSound(r);
    case Filter(inner, p, _) =>
      OptSetSound(inner);
      OptExprSound(p);
      DropPositionSound(OptExpr(p));
    case IdOf(a) => OptExprSound(a);
    case Step(base, axis, test, preds) =>
      if base.From? {
        OptSetSound(base.s);
      }
      OptPredsSound(preds);
    case _ =>
  }

  // Queries on a context node: r is the optimised query.

  /** The answer is that of the original query for the program, and that of XPath 1.0 as far as the query cannot notice the difference. */
  ghost predicate AnswersSet(t: Tree, env: Env, s: SetExpr, n: XNode, xs: set<XNode>)
    requires Wf(t)
  {
    && xs == EvalSet(t, Program(env), s, Ctx(n, 1, 1))
    && forall u {:trigger SetUses(s, u)} | SetUses(s, u) && Unnoticed(t, env, u) :: xs == EvalSet(t, Standard(env), s, Ctx(n, 1, 1))
  }

  ghost predicate Answers(t: Tree, env: Env, e: Expr, n: XNode, v: Value)
    requires Wf(t)
  {
    && v == Eval(t, Program(env), e, Ctx(n, 1, 1))
    && forall u {:trigger ExprUses(e, u)} | ExprUses(e, u) && Unnoticed(t, env, u) :: v == Eval(t, Standard(env), e, Ctx(n, 1, 1))
  }

  lemma OptimizedAnswers(t: Tree, env: Env, e: Expr, n: XNode)
    requires Wf(t)
    ensures Answers(t, env, e, n, Eval(t, Program(env), OptExpr(e), Ctx(n, 1, 1)))
  {
    OptExprSame(t, Program(env), e, Ctx(n, 1, 1));
    forall u {:trigger ExprUses(e, u)} | ExprUses(e, u) && Unnoticed(t, env, u)
      ensures Eval(t, Program(env), e, Ctx(n, 1, 1)) == Eval(t, Standard(env), e, Ctx(n, 1, 1))
    {
      SameExpr(t, env, u, e, Ctx(n, 1, 1));
    }
  }

  lemma OptimizedAnswersSet(t: Tree, env: Env, s: SetExpr, n: XNode)
    requires Wf(t)
    ensures AnswersSet(t, env, s, n, EvalSet(t, Program(env), OptSet(s), Ctx(n, 1, 1)))
  {
    OptSetSame(t, Program(env), s, Ctx(n, 1, 1));
    forall u {:trigger SetUses(s, u)} | SetUses(s, u) && Unnoticed(t, env, u)
      ensures EvalSet(t, Program(env), s, Ctx(n, 1, 1)) == EvalSet(t, Standard(env), s, Ctx(n, 1, 1))
    {
      SameSet(t, env, u, s, Ctx(n, 1, 1));
    }
  }

  method EvaluateNodeSet(t: Tree, env: Env, ghost s: SetExpr, r: SetExpr, n: XNode) returns (ns: NodeSet)
    requires Wf(t) && EnvOk(t, env) && SoundSet(s) && r == OptSet(s) && (n == XNull || Has(t, n))
    ensures Truthful(t, ns) && Elements(ns.items) == EvalSet(t, Program(env), s, Ctx(n, 1, 1))
    ensures forall u {:trigger SetUses(s, u)} | SetUses(s, u) && Unnoticed(t, env, u) :: Elements(ns.items) == EvalSet(t, Standard(env), s, Ctx(n, 1, 1))
  {
    OptSetSound(s);
    OptimizedAnswersSet(t, env, s, n);
    ns := EvalNodeSet(t, Program(env), r, Ctx(n, 1, 1), All);
    assert Elements(ns.items) == EvalSet(t, Program(env), r, Ctx(n, 1, 1));
  }

  /** x is the first node of a set in document order, or null if there is none. */
  ghost predicate IsFirst(t: Tree, x: XNode, xs: set<XNode>)
    requires Wf(t)
  {
    && (xs == {} ==> x == XNull)
    && (xs != {} ==> x in xs && Has(t, x) && forall y | y in xs :: Has(t, y) && (y == x || DocLess(t, x, y)))
  }

  /** The first node of the result in document order. */
  method EvaluateNode(t: Tree, env: Env, ghost s: SetExpr, r: SetExpr, n: XNode) returns (x: XNode)
    requires Wf(t) && EnvOk(t, env) && SoundSet(s) && r == OptSet(s) && (n == XNull || Has(t, n))
    ensures IsFirst(t, x, EvalSet(t, Program(env), s, Ctx(n, 1, 1)))
    ensures forall u {:trigger SetUses(s, u)} | SetUses(s, u) && Unnoticed(t, env, u) :: IsFirst(t, x, EvalSet(t, Standard(env), s, Ctx(n, 1, 1)))
  {
    OptSetSound(s);
    OptimizedAnswersSet(t, env, s, n);
    x := FirstNode(t, Program(env), r, Ctx(n, 1, 1));
    EvalSetHas(t, Program(env), r, Ctx(n, 1, 1));
    FirstOfIs(t, EvalSet(t, Program(env), r, Ctx(n, 1, 1)));
  }

  method EvaluateBoolean(t: Tree, env: Env, ghost e: Expr, r: Expr, n: XNode) returns (b: bool)
    requires Wf(t) && EnvOk(t, env) && SoundExpr(e) && r == OptExpr(e) && (n == XNull || Has(t, n))
    ensures b == ToBool(Eval(t, Program(env), e, Ctx(n, 1, 1)))
    ensures forall u {:trigger ExprUses(e, u)} | ExprUses(e, u) && Unnoticed(t, env, u) :: b == ToBool(Eval(t, Standard(env), e, Ctx(n, 1, 1)))
  {
    OptExprSound(e);
    OptimizedAnswers(t, env, e, n);
    b := EvalBoolean(t, Program(env), r, Ctx(n, 1, 1));
  }

  method EvaluateNumber(t: Tree, env: Env, ghost e: Expr, r: Expr, n: XNode) returns (x: Num)
    requires Wf(t) && EnvOk(t, env) && SoundExpr(e) && r == OptExpr(e) && (n == XNull || Has(t, n))
    ensures x == ToNum(t, env, Eval(t, Program(env), e, Ctx(n, 1, 1)))
    ensures forall u {:trigger ExprUses(e, u)} | ExprUses(e, u) && Unnoticed(t, env, u) :: x == ToNum(t, env, Eval(t, Standard(env), e, Ctx(n, 1, 1)))
  {
    OptExprSound(e);
    OptimizedAnswers(t, env, e, n);
    x := EvalNumber(t, Program(env), r, Ctx(n, 1, 1));
    assert x == ToNum(t, env, Eval(t, Program(env), r, Ctx(n, 1, 1)));
  }

  method EvaluateString(t: Tree, env: Env, ghost e: Expr, r: Expr, n: XNode) returns (x: string)
    requires Wf(t) && EnvOk(t, env) && SoundExpr(e) && r == OptExpr(e) && (n == XNull || Has(t, n))
    ensures x == ToStr(t, env, Eval(t, Program(env), e, Ctx(n, 1, 1)))
    ensures forall u {:trigger ExprUses(e, u)} | ExprUses(e, u) && Unnoticed(t, env, u) :: x == ToStr(t, env, Eval(t, Standard(env), e, Ctx(n, 1, 1)))
  {
    OptExprSound(e);
    OptimizedAnswers(t, env, e, n);
    x := EvalString(t, Program(env), r, Ctx(n, 1, 1));
    assert x == ToStr(t, env, Eval(t, Program(env), r, Ctx(n, 1, 1)));
  }
}
