/** The in-place rewriter and the rewriter on expressions do the same. */
module AstMeaning {
  import opened Sequences
  import opened Axes
  import opened Steps
  import opened XPathSyntax
  import opened Optimizer
  import opened AstNode

  // Which expression a linked node stands for. Before optimisation no predicate
  // has been classified and there are no short cuts.

  ghost predicate RepExpr(raw: bool, t: Term, e: Expr)
    decreases e, 1
  {
    && t.Node? && t.ret == TypeOf(e)
    && match e
       case OfNodes(s) => RepSet(raw, t, s)
       case StrConst(x) => t.kind == KStr(x)
       case NumConst(x) => t.kind == KNum(x)
       case Var(v, _) => t.kind == KVar(v)
       case Zero(f) => t.kind == KZero(f) && t.left.Nil? && t.right.Nil?
       case One(f, a) => t.kind == KOne(f) && RepExpr(raw, t.left, a) && t.right.Nil?
       case OfSet(f, s) => t.kind == KOfSet(f) && RepSet(raw, t.left, s) && t.right.Nil?
       case Two(f, l, r) => t.kind == KTwo(f) && RepExpr(raw, t.left, l) && RepLast(raw, t.right, r)
       case Concat(a, rest) => t.kind == KConcat && RepExpr(raw, t.left, a) && RepExprs(raw, t.right, rest)
       case Translate(a, from, to) =>
         t.kind == KTranslate && RepExpr(raw, t.left, a) && RepExpr(raw, t.right, from) && RepLast(raw, t.right.next, to)
       case Substring3(a, start, length) =>
         t.kind == KSubstring3 && RepExpr(raw, t.left, a) && RepExpr(raw, t.right, start) && RepLast(raw, t.right.next, length)
       case OptTranslateTable(a, table) => !raw && t.kind == KTable(table) && RepExpr(raw, t.left, a) && PosinvChain(t.right)
       case OptCompareAttribute(name, v) => !raw && t.kind == KCompareAttribute && IsNameStep(t.left, name) && RepLast(raw, t.right, v)
  }

  /** The last of a list of arguments. */
  ghost predicate RepLast(raw: bool, t: Term, e: Expr)
    decreases e, 2
  {
    RepExpr(raw, t, e) && t.next.Nil?
  }

  predicate IsNameStep(t: Term, name: string) {
    && t.Node? && t.kind == KStep && t.axis == AttributeAxis && t.test == OfStep(NameTest(name)) && t.left.Nil? && t.right.Nil?
  }

  ghost predicate RepExprs(raw: bool, t: Term, es: Exprs)
    decreases es, 0
  {
    match es
    case ENil => t.Nil?
    case ECons(e, rest) => RepExpr(raw, t, e) && RepExprs(raw, t.next, rest)
  }

  ghost predicate RepSet(raw: bool, t: Term, s: SetExpr)
    decreases s, 0
  {
    && t.Node? && t.ret == TSet
    && match s
       case Union(l, r) => t.kind == KUnion && RepSet(raw, t.left, l) && RepSet(raw, t.right, r) && t.right.next.Nil?
       case Filter(inner, p, cls) => t.kind == KFilter && RepSet(raw, t.left, inner) && RepPredicate(raw, t, p, cls)
       case IdOf(a) => t.kind == KId && RepExpr(raw, t.left, a) && t.right.Nil?
       case Step(base, axis, test, preds) =>
         t.kind == KStep && t.axis == axis && t.test == OfStep(test) && RepBase(raw, t.left, base) && RepPreds(raw, t.right, preds)
       case Root => t.kind == KRoot
       case SetVar(v) => t.kind == KVar(v)
  }

  ghost predicate RepPredicate(raw: bool, t: Term, p: Expr, cls: PredClass)
    requires t.Node?
    decreases p, 2
  {
    RepExpr(raw, t.right, p) && t.test == OfPredicate(cls) && (raw ==> cls == DefaultClass)
  }

  ghost predicate RepBase(raw: bool, t: Term, b: Base)
    decreases b, 0
  {
    match b
    case FromContext => t.Nil?
    case From(s) => RepSet(raw, t, s)
  }

  ghost predicate RepPreds(raw: bool, t: Term, preds: Preds)
    decreases preds, 0
  {
    match preds
    case PNil => t.Nil?
    case PCons(p, cls, rest) => t.Node? && t.kind == KPredicate && RepPredicate(raw, t, p, cls) && RepPreds(raw, t.next, rest)
  }

  // The analyses agree.

  lemma LastPosinv(t: Term)
    requires t.Node? && t.next.Nil?
    ensures PosinvChain(t) == PosinvTerm(t)
  {
    assert PosinvChain(t.next);
  }

  lemma {:induction false} PosinvSameExpr(raw: bool, t: Term, e: Expr)
    requires RepExpr(raw, t, e)
    ensures PosinvTerm(t) == PosinvExpr(e)
    decreases e, 1
  {
    match e
    case OfNodes(s) => PosinvSameSet(raw, t, s);
    case One(_, a) => PosinvSameExpr(raw, t.left, a);
    case OfSet(_, s) => PosinvSameSet(raw, t.left, s);
    case Two(_, l, r) =>
      PosinvSameExpr(raw, t.left, l);
      PosinvSameExpr(raw, t.right, r);
      LastPosinv(t.right);
    case Concat(a, rest) =>
      PosinvSameExpr(raw, t.left, a);
      PosinvSameExprs(raw, t.right, rest);
    case Translate(a, from, to) => PosinvSameThree(raw, t, e, a, from, to);
    case Substring3(a, start, length) => PosinvSameThree(raw, t, e, a, start, length);
    case OptTranslateTable(a, _) => PosinvSameExpr(raw, t.left, a);
    case OptCompareAttribute(_, v) =>
      PosinvSameExpr(raw, t.right, v);
      LastPosinv(t.right);
    case _ =>
  }

  lemma {:induction false} PosinvSameThree(raw: bool, t: Term, e: Expr, a: Expr, b: Expr, c: Expr)
    requires t.Node? && t.right.Node? && RepExpr(raw, t.left, a) && RepExpr(raw, t.right, b) && RepLast(raw, t.right.next, c)
    requires a < e && b < e && c < e
    ensures PosinvTerm(t.left) && PosinvChain(t.right) <==> PosinvExpr(a) && PosinvExpr(b) && PosinvExpr(c)
    decreases e, 0
  {
    PosinvSameExpr(raw, t.left, a);
    PosinvSameExpr(raw, t.right, b);
    PosinvSameExpr(raw, t.right.next, c);
    LastPosinv(t.right.next);
  }

  lemma {:induction false} PosinvSameExprs(raw: bool, t: Term, es: Exprs)
    requires RepExprs(raw, t, es)
    ensures PosinvChain(t) == PosinvExprs(es)
    decreases es
  {
    if es.ECons? {
      PosinvSameExpr(raw, t, es.e);
      PosinvSameExprs(raw, t.next, es.es);
    }
  }

  lemma {:induction false} PosinvSameSet(raw: bool, t: Term, s: SetExpr)
    requires RepSet(raw, t, s)
    ensures PosinvTerm(t) == PosinvSet(s)
    decreases s
  {
    match s
    case Union(l, r) =>
      PosinvSameSet(raw, t.left, l);
      PosinvSameSet(raw, t.right, r);
      LastPosinv(t.right);
    case IdOf(a) => PosinvSameExpr(raw, t.left, a);
    case _ =>
  }

  lemma {:induction false} PosinvStepSame(t: Term, preds: Preds)
    requires RepPreds(false, t, preds)
    ensures PosinvStep(t) == AllPosinv(preds)
    decreases preds
  {
    if preds.PCons? {
      PosinvStepSame(t.next, preds.rest);
    }
  }

  // The rewrites agree.

  lemma NextKept(t: Term)
    ensures t.Node? ==> OptTerm(t).Node? && OptTerm(t).next == OptTerm(t.next)
  {
  }

  /** A predicate: its position test is dropped and it is classified. */
  lemma PredicateRep(t: Term, p: Expr)
    requires t.Node? && HasPredicate(t.kind) && t.test == OfPredicate(DefaultClass) && RepExpr(false, t.right, p)
    ensures var u, q := ClassifyTerm(DropPositionTerm(t)), DropPosition(p);
      && u.Node? && RepPredicate(false, u, q, Classify(q))
      && u.kind == t.kind && u.ret == t.ret && u.left == t.left && u.next == t.next
  {
    DropPositionRep(t, p);
    PosinvSameExpr(false, DropPositionTerm(t).right, DropPosition(p));
  }

  lemma DropPositionRep(t: Term, p: Expr)
    requires t.Node? && HasPredicate(t.kind) && RepExpr(false, t.right, p)
    ensures RepExpr(false, DropPositionTerm(t).right, DropPosition(p))
  {
    KindOf(t.right, p);
    if t.right.kind == KTwo(Equal) {
      KindOf(t.right.left, p.left);
      assert RepLast(false, t.right.right, p.right);
    }
  }

  /** The node type tells which expression it is. */
  lemma KindOf(t: Term, e: Expr)
    requires RepExpr(false, t, e)
    ensures t.kind.KTwo? || e.Two? ==> e.Two? && t.kind == KTwo(e.f2) && RepExpr(false, t.left, e.left) && RepLast(false, t.right, e.right)
    ensures t.kind.KZero? || e.Zero? ==> e.Zero? && t.kind == KZero(e.f0)
    ensures t.kind.KStr? || e.StrConst? ==> e.StrConst? && t.kind == KStr(e.str)
    ensures t.kind == KStep ==> e.OfNodes? && e.s.Step? && RepSet(false, t, e.s)
    ensures e.OfNodes? ==> RepSet(false, t, e.s) && (e.s.Step? ==> t.kind == KStep)
    ensures t.kind.KVar? && t.ret == TScalar(TStr) <==> e.Var? && e.ty == TStr
  {
  }

  lemma OnlyPredicates(t: Term)
    requires t.Node?
    ensures !HasPredicate(t.kind) ==> ClassifyTerm(DropPositionTerm(t)) == t
    ensures t.kind != KStep ==> FuseTerm(t) == t
    ensures t.kind != KTranslate ==> TableTerm(t) == t
    ensures t.kind != KTwo(Equal) ==> CompareTerm(t) == t
  {
  }

  lemma StepRep(t: Term, base: Base, axis: Axis, test: NodeTest, preds: Preds)
    requires RepSet(false, t, Step(base, axis, test, preds))
    ensures RepSet(false, FuseTerm(t), Fuse(base, axis, test, preds))
    ensures FuseTerm(t).kind == KStep
  {
    PosinvStepSame(t.right, preds);
    if base.From? {
      StepOf(t.left, base.s);
    }
  }

  lemma StepOf(t: Term, s: SetExpr)
    requires RepSet(false, t, s)
    ensures t.kind == KStep <==> s.Step?
    ensures s.Step? ==> t.axis == s.axis && t.test == OfStep(s.test) && RepBase(false, t.left, s.base)
    ensures s.Step? ==> (t.right.Nil? <==> s.preds == PNil)
    ensures s.Step? ==> (t.left.Nil? <==> s.base == FromContext)
  {
    assert s.Step? && s.base.From? ==> RepSet(false, t.left, s.base.s);
  }

  lemma TranslateRep(t: Term, a: Expr, from: Expr, to: Expr)
    requires RepExpr(false, t, Translate(a, from, to))
    ensures RepExpr(false, TableTerm(t), FuseTranslate(a, from, to))
    ensures TableTerm(t).kind != KTwo(Equal)
  {
    KindOf(t.right, from);
    KindOf(t.right.next, to);
    LastPosinv(t.right.next);
    assert from.StrConst? && to.StrConst? ==> PosinvChain(t.right);
  }

  lemma CompareRep(t: Term, f: TwoFun, l: Expr, r: Expr)
    requires RepExpr(false, t, Two(f, l, r))
    ensures RepExpr(false, CompareTerm(t), FuseCompare(f, l, r))
  {
    KindOf(t.left, l);
    KindOf(t.right, r);
    if l.OfNodes? {
      StepOf(t.left, l.s);
    }
    if CompareTerm(t) != t {
      assert IsNameStep(t.left, l.s.test.name);
    }
  }

  /** A node with its children optimised. */
  function Halfway(t: Term): Term {
    if t.Nil? then Nil else Node(t.kind, t.ret, t.axis, t.test, OptTerm(t.left), OptTerm(t.right), OptTerm(t.next))
  }

  /** Optimising the linked nodes of an expression gives the linked nodes of the optimised expression. */
  lemma {:induction false} OptRepExpr(t: Term, e: Expr)
    requires RepExpr(true, t, e)
    ensures RepExpr(false, OptTerm(t), OptExpr(e))
    decreases e, 2
  {
    OnlyPredicates(Halfway(t));
    match e
    case OfNodes(s) => OptRepSet(t, s);
    case One(_, a) => OptRepExpr(t.left, a);
    case OfSet(_, s) => OptRepSet(t.left, s);
    case Two(_, _, _) => OptRepTwo(t, e);
    case Concat(a, rest) =>
      OptRepExpr(t.left, a);
      OptRepExprs(t.right, rest);
    case Translate(_, _, _) => OptRepTranslate(t, e);
    case Substring3(_, _, _) => OptRepSubstring(t, e);
    case _ =>
  }

  /** On most nodes only the last two rewrites do anything. */
  lemma LateRewrites(t: Term)
    requires t.Node? && !HasPredicate(t.kind) && t.kind != KStep
    ensures OptTerm(t) == CompareTerm(TableTerm(Halfway(t)))
  {
    OnlyPredicates(Halfway(t));
  }

  lemma {:induction false} OptRepTwo(t: Term, e: Expr)
    requires RepExpr(true, t, e) && e.Two?
    ensures RepExpr(false, OptTerm(t), OptExpr(e))
    decreases e, 1
  {
    HalfTwo(t, e);
    LateRewrites(t);
    CompareRep(Halfway(t), e.f2, OptExpr(e.left), OptExpr(e.right));
  }

  lemma {:induction false} HalfTwo(t: Term, e: Expr)
    requires RepExpr(true, t, e) && e.Two?
    ensures RepExpr(false, Halfway(t), Two(e.f2, OptExpr(e.left), OptExpr(e.right)))
    decreases e, 0
  {
    OptRepExpr(t.left, e.left);
    OptRepExpr(t.right, e.right);
    NextKept(t.right);
  }

  lemma {:induction false} OptRepTranslate(t: Term, e: Expr)
    requires RepExpr(true, t, e) && e.Translate?
    ensures RepExpr(false, OptTerm(t), OptExpr(e))
    decreases e, 1
  {
    HalfTranslate(t, e);
    LateRewrites(t);
    var u := TableTerm(Halfway(t));
    TranslateRep(Halfway(t), OptExpr(e.text), OptExpr(e.from), OptExpr(e.to));
    assert CompareTerm(u) == u;
  }

  lemma {:induction false} OptRepSubstring(t: Term, e: Expr)
    requires RepExpr(true, t, e) && e.Substring3?
    ensures RepExpr(false, OptTerm(t), OptExpr(e))
    decreases e, 1
  {
    LateRewrites(t);
    OnlyPredicates(Halfway(t));
    OptRepExpr(t.left, e.text);
    OptRepExpr(t.right, e.start);
    OptRepExpr(t.right.next, e.length);
    NextKept(t.right);
    NextKept(t.right.next);
  }

  lemma {:induction false} HalfTranslate(t: Term, e: Expr)
    requires RepExpr(true, t, e) && e.Translate?
    ensures RepExpr(false, Halfway(t), Translate(OptExpr(e.text), OptExpr(e.from), OptExpr(e.to)))
    decreases e, 0
  {
    OptRepExpr(t.left, e.text);
    OptRepExpr(t.right, e.from);
    OptRepExpr(t.right.next, e.to);
    NextKept(t.right);
    NextKept(t.right.next);
  }

  lemma {:induction false} OptRepExprs(t: Term, es: Exprs)
    requires RepExprs(true, t, es)
    ensures RepExprs(false, OptTerm(t), OptExprs(es))
    decreases es, 0
  {
    if es.ECons? {
      OptRepExpr(t, es.e);
      OptRepExprs(t.next, es.es);
      NextKept(t);
    }
  }

  lemma {:induction false} OptRepSet(t: Term, s: SetExpr)
    requires RepSet(true, t, s)
    ensures RepSet(false, OptTerm(t), OptSet(s))
    decreases s, 0
  {
    var u := Halfway(t);
    OnlyPredicates(u);
    match s
    case Union(l, r) =>
      OptRepSet(t.left, l);
      OptRepSet(t.right, r);
      NextKept(t.right);
    case Filter(inner, p, _) =>
      OptRepSet(t.left, inner);
      OptRepExpr(t.right, p);
      PredicateRep(u, OptExpr(p));
      OnlyPredicates(ClassifyTerm(DropPositionTerm(u)));
    case IdOf(a) => OptRepExpr(t.left, a);
    case Step(base, axis, test, preds) =>
      if base.From? {
        OptRepSet(t.left, base.s);
      }
      OptRepPreds(t.right, preds);
      StepRep(u, OptBase(base), axis, test, OptPreds(preds));
      OnlyPredicates(FuseTerm(u));
    case _ =>
  }

  lemma {:induction false} OptRepPreds(t: Term, preds: Preds)
    requires RepPreds(true, t, preds)
    ensures RepPreds(false, OptTerm(t), OptPreds(preds))
    decreases preds, 0
  {
    if preds.PCons? {
      var u := Halfway(t);
      OptRepExpr(t.right, preds.pred);
      OptRepPreds(t.next, preds.rest);
      PredicateRep(u, OptExpr(preds.pred));
      OnlyPredicates(ClassifyTerm(DropPositionTerm(u)));
    }
  }

  /** The in-place optimiser turns the nodes of an expression into the nodes of the optimised expression. */
  method OptimizeExpression(n: Ast, ghost e: Expr)
    requires n.Valid() && Complete(n.Shape()) && RepExpr(true, n.Shape(), e)
    modifies n.repr
    ensures n.Valid() && RepExpr(false, n.Shape(), OptExpr(e))
  {
    OptRepExpr(n.Shape(), e);
    n.Optimize();
  }
}
