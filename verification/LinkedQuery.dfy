/** A query as the program holds it: linked nodes, optimised in place once and evaluated any number of times. */
module LinkedQuery {
  import opened Sequences
  import opened XmlTree
  import opened Steps
  import opened DocumentOrder
  import opened NodeSets
  import opened XPathSyntax
  import opened XPathSemantics
  import opened Optimizer
  import opened EvalFacts
  import opened Evaluator
  import opened AstNode
  import opened AstMeaning
  import opened Readings
  import Query

  // Nodes as they come from the parser carry nothing that evaluation could stumble over.

  lemma {:induction false} RawSound(t: Term, e: Expr)
    requires RepExpr(true, t, e)
    ensures SoundExpr(e)
    decreases e, 1
  {
    match e
    case OfNodes(s) => RawSoundSet(t, s);
    case One(_, a) => RawSound(t.left, a);
    case OfSet(_, s) => RawSoundSet(t.left, s);
    case Two(_, l, r) =>
      RawSound(t.left, l);
      RawSound(t.right, r);
    case Concat(a, rest) =>
      RawSound(t.left, a);
      RawSoundList(t.right, rest);
    case Translate(a, from, to) =>
      RawSound(t.left, a);
      RawSound(t.right, from);
      RawSound(t.right.next, to);
    case Substring3(a, start, length) =>
      RawSound(t.left, a);
      RawSound(t.right, start);
      RawSound(t.right.next, length);
    case _ =>
  }

  lemma {:induction false} RawSoundList(t: Term, es: Exprs)
    requires RepExprs(true, t, es)
    ensures SoundExprs(es)
    decreases es, 0
  {
    if es.ECons? {
      RawSound(t, es.e);
      RawSoundList(t.next, es.es);
    }
  }

  lemma {:induction false} RawSoundPreds(t: Term, preds: Preds)
    requires RepPreds(true, t, preds)
    ensures SoundPreds(preds)
    decreases preds, 0
  {
    if preds.PCons? {
      RawSound(t.right, preds.pred);
      RawSoundPreds(t.next, preds.rest);
    }
  }

  lemma {:induction false} RawSoundSet(t: Term, s: SetExpr)
    requires RepSet(true, t, s)
    ensures SoundSet(s)
    decreases s, 0
  {
    match s
    case Union(l, r) =>
      RawSoundSet(t.left, l);
      RawSoundSet(t.right, r);
    case Filter(inner, p, _) =>
      RawSoundSet(t.left, inner);
      RawSound(t.right, p);
    case IdOf(a) => RawSound(t.left, a);
    case Step(base, _, _, preds) =>
      if base.From? {
        RawSoundSet(t.left, base.s);
      }
      RawSoundPreds(t.right, preds);
    case _ =>
  }

  // What the nodes say.

  lemma IsNode(t: Term, e: Expr)
    requires RepExpr(false, t, e)
    ensures t.Node?
  {
  }

  lemma IsSetNode(t: Term, s: SetExpr)
    requires RepSet(false, t, s)
    ensures t.Node?
  {
  }

  lemma SetsAreNodes(e: Expr)
    ensures TypeOf(e) == TSet <==> e.OfNodes?
  {
  }

  method ReadExpr(n: Ast, ghost e: Expr) returns (r: Expr)
    requires n.Valid() && RepExpr(false, n.Shape(), e)
    ensures r == e
    decreases n.repr, 2
  {
    if n.ret == TSet {
      SetsAreNodes(e);
      var s := ReadSet(n, e.s);
      return OfNodes(s);
    }
    if n.kind.KStr? {
      r := StrConst(n.kind.str);
    } else if n.kind.KNum? {
      r := NumConst(n.kind.num);
    } else if n.kind.KVar? {
      r := Var(n.kind.v, n.ret.ty);
    } else if n.kind.KZero? {
      r := Zero(n.kind.f0);
    } else if n.kind.KOne? {
      IsNode(n.Shape().left, e.arg);
      var a := ReadExpr(n.left, e.arg);
      r := One(n.kind.f1, a);
    } else if n.kind.KOfSet? {
      var s := ReadSet(n.left, e.set_);
      r := OfSet(n.kind.fs, s);
    } else {
      r := ReadOperands(n, e);
    }
  }

  /** Expressions with several operands. */
  method ReadOperands(n: Ast, ghost e: Expr) returns (r: Expr)
    requires n.Valid() && RepExpr(false, n.Shape(), e) && n.ret != TSet
    requires n.kind.KTwo? || n.kind.KConcat? || n.kind.KTranslate? || n.kind.KSubstring3? || n.kind.KTable? || n.kind.KCompareAttribute?
    ensures r == e
    decreases n.repr, 1
  {
    ghost var t := n.Shape();
    match n.kind
    case KTwo(f) =>
      IsNode(t.left, e.left);
      IsNode(t.right, e.right);
      var a := ReadExpr(n.left, e.left);
      var b := ReadExpr(n.right, e.right);
      r := Two(f, a, b);
    case KConcat =>
      var a := ReadExpr(n.left, e.first);
      var rest := ReadExprs(n.right, e.rest);
      r := Concat(a, rest);
    case KTranslate => r := ReadTranslate(n, e);
    case KSubstring3 => r := ReadSubstring(n, e);
    case KTable(table) =>
      var a := ReadExpr(n.left, e.text);
      r := OptTranslateTable(a, table);
    case KCompareAttribute =>
      IsNode(t.right, e.value);
      assert IsNameStep(t.left, e.name) && t.left == ShapeOf(n.left);
      var v := ReadExpr(n.right, e.value);
      r := OptCompareAttribute(n.left.test.nodetest.name, v);
  }

  method ReadTranslate(n: Ast, ghost e: Expr) returns (r: Expr)
    requires n.Valid() && RepExpr(false, n.Shape(), e) && n.ret != TSet && n.kind.KTranslate?
    ensures r == e
    decreases n.repr, 0
  {
    ghost var t := n.Shape();
    IsNode(t.left, e.text);
    IsNode(t.right, e.from);
    IsNode(t.right.next, e.to);
    var a := ReadExpr(n.left, e.text);
    var b := ReadExpr(n.right, e.from);
    var c := ReadExpr(n.right.next, e.to);
    r := Translate(a, b, c);
  }

  method ReadSubstring(n: Ast, ghost e: Expr) returns (r: Expr)
    requires n.Valid() && RepExpr(false, n.Shape(), e) && n.ret != TSet && n.kind.KSubstring3?
    ensures r == e
    decreases n.repr, 0
  {
    ghost var t := n.Shape();
    IsNode(t.left, e.text);
    IsNode(t.right, e.start);
    IsNode(t.right.next, e.length);
    var a := ReadExpr(n.left, e.text);
    var b := ReadExpr(n.right, e.start);
    var c := ReadExpr(n.right.next, e.length);
    r := Substring3(a, b, c);
  }

  method ReadExprs(n: Ast?, ghost es: Exprs) returns (r: Exprs)
    requires (n != null ==> n.Valid()) && RepExprs(false, ShapeOf(n), es)
    ensures r == es
    decreases if n == null then {} else n.repr, 3
  {
    if n == null {
      return ENil;
    }
    var e := ReadExpr(n, es.e);
    var rest := ReadExprs(n.next, es.es);
    r := ECons(e, rest);
  }

  method ReadSet(n: Ast, ghost s: SetExpr) returns (r: SetExpr)
    requires n.Valid() && RepSet(false, n.Shape(), s)
    ensures r == s
    decreases n.repr, 1
  {
    ghost var t := n.Shape();
    match n.kind
    case KUnion => r := ReadUnion(n, s);
    case KFilter => r := ReadFilter(n, s);
    case KId =>
      var a := ReadExpr(n.left, s.arg);
      r := IdOf(a);
    case KStep => r := ReadStep(n, s);
    case KRoot => r := Root;
    case KVar(v) => r := SetVar(v);
  }

  method ReadUnion(n: Ast, ghost s: SetExpr) returns (r: SetExpr)
    requires n.Valid() && RepSet(false, n.Shape(), s) && n.kind == KUnion
    ensures r == s
    decreases n.repr, 0
  {
    IsSetNode(n.Shape().left, s.l);
    IsSetNode(n.Shape().right, s.r);
    var a := ReadSet(n.left, s.l);
    var b := ReadSet(n.right, s.r);
    r := Union(a, b);
  }

  method ReadFilter(n: Ast, ghost s: SetExpr) returns (r: SetExpr)
    requires n.Valid() && RepSet(false, n.Shape(), s) && n.kind == KFilter
    ensures r == s
    decreases n.repr, 0
  {
    IsSetNode(n.Shape().left, s.inner);
    IsNode(n.Shape().right, s.pred);
    var inner := ReadSet(n.left, s.inner);
    var p := ReadExpr(n.right, s.pred);
    r := SetExpr.Filter(inner, p, n.test.cls);
  }

  method ReadStep(n: Ast, ghost s: SetExpr) returns (r: SetExpr)
    requires n.Valid() && RepSet(false, n.Shape(), s) && n.kind == KStep
    ensures r == s
    decreases n.repr, 0
  {
    var base := FromContext;
    assert n.Shape().left == ShapeOf(n.left);
    if s.base.From? {
      IsSetNode(n.Shape().left, s.base.s);
    }
    if n.left != null {
      var from := ReadSet(n.left, s.base.s);
      base := From(from);
    }
    var preds := ReadPreds(n.right, s.preds);
    r := Step(base, n.axis, n.test.nodetest, preds);
  }

  method ReadPreds(n: Ast?, ghost preds: Preds) returns (r: Preds)
    requires (n != null ==> n.Valid()) && RepPreds(false, ShapeOf(n), preds)
    ensures r == preds
    decreases if n == null then {} else n.repr, 3
  {
    if n == null {
      return PNil;
    }
    IsNode(n.Shape().right, preds.pred);
    var p := ReadExpr(n.right, preds.pred);
    var rest := ReadPreds(n.next, preds.rest);
    r := PCons(p, n.test.cls, rest);
  }

  // The query.

  class XPathQuery {
    const root: Ast
    ghost const expr: Expr

    /** The nodes are those of the optimised expression. */
    ghost predicate Valid()
      reads root, root.repr
    {
      root.Valid() && RepExpr(false, root.Shape(), OptExpr(expr)) && SoundExpr(expr)
    }

    /** The nodes of an expression are optimised in place. */
    constructor (n: Ast, ghost e: Expr)
      requires n.Valid() && Complete(n.Shape()) && RepExpr(true, n.Shape(), e)
      modifies n.repr
      ensures Valid() && root == n && expr == e
    {
      root, expr := n, e;
      new;
      RawSound(n.Shape(), e);
      OptimizeExpression(n, e);
    }

    method EvaluateNodeSet(t: Tree, env: Env, n: XNode) returns (ns: NodeSet)
      requires Valid() && expr.OfNodes? && Wf(t) && EnvOk(t, env) && (n == XNull || Has(t, n))
      ensures Truthful(t, ns) && Elements(ns.items) == EvalSet(t, Program(env), expr.s, Ctx(n, 1, 1))
      ensures forall u {:trigger SetUses(expr.s, u)} | SetUses(expr.s, u) && Unnoticed(t, env, u) ::
        Elements(ns.items) == EvalSet(t, Standard(env), expr.s, Ctx(n, 1, 1))
    {
      var s := ReadSet(root, OptSet(expr.s));
      ns := Query.EvaluateNodeSet(t, env, expr.s, s, n);
    }

    method EvaluateNode(t: Tree, env: Env, n: XNode) returns (x: XNode)
      requires Valid() && expr.OfNodes? && Wf(t) && EnvOk(t, env) && (n == XNull || Has(t, n))
      ensures Query.IsFirst(t, x, EvalSet(t, Program(env), expr.s, Ctx(n, 1, 1)))
      ensures forall u {:trigger SetUses(expr.s, u)} | SetUses(expr.s, u) && Unnoticed(t, env, u) ::
        Query.IsFirst(t, x, EvalSet(t, Standard(env), expr.s, Ctx(n, 1, 1)))
    {
      var s := ReadSet(root, OptSet(expr.s));
      x := Query.EvaluateNode(t, env, expr.s, s, n);
    }

    method EvaluateBoolean(t: Tree, env: Env, n: XNode) returns (b: bool)
      requires Valid() && Wf(t) && EnvOk(t, env) && (n == XNull || Has(t, n))
      ensures b == ToBool(Eval(t, Program(env), expr, Ctx(n, 1, 1)))
      ensures forall u {:trigger ExprUses(expr, u)} | ExprUses(expr, u) && Unnoticed(t, env, u) ::
        b == ToBool(Eval(t, Standard(env), expr, Ctx(n, 1, 1)))
    {
      var r := ReadExpr(root, OptExpr(expr));
      b := Query.EvaluateBoolean(t, env, expr, r, n);
    }

    method EvaluateNumber(t: Tree, env: Env, n: XNode) returns (x: Num)
      requires Valid() && Wf(t) && EnvOk(t, env) && (n == XNull || Has(t, n))
      ensures x == ToNum(t, env, Eval(t, Program(env), expr, Ctx(n, 1, 1)))
      ensures forall u {:trigger ExprUses(expr, u)} | ExprUses(expr, u) && Unnoticed(t, env, u) ::
        x == ToNum(t, env, Eval(t, Standard(env), expr, Ctx(n, 1, 1)))
    {
      var r := ReadExpr(root, OptExpr(expr));
      x := Query.EvaluateNumber(t, env, expr, r, n);
    }

    method EvaluateString(t: Tree, env: Env, n: XNode) returns (x: string)
      requires Valid() && Wf(t) && EnvOk(t, env) && (n == XNull || Has(t, n))
      ensures x == ToStr(t, env, Eval(t, Program(env), expr, Ctx(n, 1, 1)))
      ensures forall u {:trigger ExprUses(expr, u)} | ExprUses(expr, u) && Unnoticed(t, env, u) ::
        x == ToStr(t, env, Eval(t, Standard(env), expr, Ctx(n, 1, 1)))
    {
      var r := ReadExpr(root, OptExpr(expr));
      x := Query.EvaluateString(t, env, expr, r, n);
    }
  }
}
