/** The query rewriter as a function on syntax trees, and why it keeps the meaning. */
module Optimizer {
  import opened Sequences
  import opened XmlTree
  import opened Axes
  import opened Steps
  import opened XPathSyntax
  import opened XPathSemantics

  /** The value does not depend on the context position or size. */
  predicate PosinvExpr(e: Expr) {
    match e
    case OfNodes(s) => PosinvSet(s)
    case StrConst(_) => true
    case NumConst(_) => true
    case Var(_, _) => true
    case Zero(f) => f != Last && f != Position
    case One(_, a) => PosinvExpr(a)
    case OfSet(_, s) => PosinvSet(s)
    case Two(_, l, r) => PosinvExpr(l) && PosinvExpr(r)
    case Concat(a, rest) => PosinvExpr(a) && PosinvExprs(rest)
    case Translate(a, from, to) => PosinvExpr(a) && PosinvExpr(from) && PosinvExpr(to)
    case Substring3(a, start, length) => PosinvExpr(a) && PosinvExpr(start) && PosinvExpr(length)
    case OptTranslateTable(a, _) => PosinvExpr(a)
    case OptCompareAttribute(_, v) => PosinvExpr(v)
  }

  predicate PosinvExprs(es: Exprs) {
    es.ECons? ==> PosinvExpr(es.e) && PosinvExprs(es.es)
  }

  predicate PosinvSet(s: SetExpr) {
    match s
    case Union(l, r) => PosinvSet(l) && PosinvSet(r)
    case IdOf(a) => PosinvExpr(a)
    case _ => true
  }

  /** [position() = e] for a number e becomes [e]. */
  function DropPosition(p: Expr): Expr {
    if p.Two? && p.f2 == Equal && p.left == Zero(Position) && IsNumber(p.right) then p.right else p
  }

  /** Numbers that are the same for all nodes of a list. */
  predicate IsConstant(p: Expr) {
    IsNumber(p) && (p.NumConst? || p.Var? || p == Zero(Last))
  }

  function Classify(p: Expr): PredClass {
    if p == NumConst(Fin(1.0)) then ConstantOne
    else if IsConstant(p) then ConstantClass
    else if !IsNumber(p) && PosinvExpr(p) then Posinv
    else DefaultClass
  }

  predicate AllPosinv(preds: Preds) {
    preds.PCons? ==> preds.cls == Posinv && AllPosinv(preds.rest)
  }

  /** A step below descendant-or-self::node() may skip the intermediate set if no predicate looks at positions. */
  function Fuse(base: Base, axis: Axis, test: NodeTest, preds: Preds): SetExpr {
    if axis in {Child, SelfAxis, Descendant, DescendantOrSelf} && base.From? && base.s.Step?
       && base.s.axis == DescendantOrSelf && base.s.test == TypeNode && base.s.preds == PNil && AllPosinv(preds)
    then Step(base.s.base, if axis == Child || axis == Descendant then Descendant else DescendantOrSelf, test, preds)
    else Step(base, axis, test, preds)
  }

  /** Every character that the table has to know is an ASCII one. */
  predicate TableFits(from: string, to: string) {
    && (forall i | 0 <= i < |from| :: from[i] as int < 128)
    && (forall i | 0 <= i < |from| && i < |to| :: to[i] as int < 128)
  }

  function TableEntry(c: nat, from: string, to: string): nat
    requires c < 128
  {
    if (c as char) !in from then c
    else if IndexOf(from, c as char) < |to| then to[IndexOf(from, c as char)] as nat
    else 128
  }

  function TableFor(from: string, to: string): seq<nat> {
    seq(128, c requires 0 <= c < 128 => TableEntry(c, from, to))
  }

  function FuseTranslate(a: Expr, from: Expr, to: Expr): Expr {
    if from.StrConst? && to.StrConst? && TableFits(from.str, to.str)
    then OptTranslateTable(a, TableFor(from.str, to.str))
    else Translate(a, from, to)
  }

  /** @name = 'value' looks the attribute up directly. */
  function FuseCompare(f: TwoFun, l: Expr, r: Expr): Expr {
    if f == Equal && l.OfNodes? && l.s.Step? && l.s.axis == AttributeAxis && l.s.test.NameTest?
       && l.s.base == FromContext && l.s.preds == PNil
       && (r.StrConst? || (r.Var? && r.ty == TStr))
    then OptCompareAttribute(l.s.test.name, r)
    else Two(f, l, r)
  }

  function OptExpr(e: Expr): Expr {
    match e
    case OfNodes(s) => OfNodes(OptSet(s))
    case One(f, a) => One(f, OptExpr(a))
    case OfSet(f, s) => OfSet(f, OptSet(s))
    case Two(f, l, r) => FuseCompare(f, OptExpr(l), OptExpr(r))
    case Concat(a, rest) => Concat(OptExpr(a), OptExprs(rest))
    case Translate(a, from, to) => FuseTranslate(OptExpr(a), OptExpr(from), OptExpr(to))
    case Substring3(a, start, length) => Substring3(OptExpr(a), OptExpr(start), OptExpr(length))
    case OptTranslateTable(a, table) => OptTranslateTable(OptExpr(a), table)
    case OptCompareAttribute(name, v) => OptCompareAttribute(name, OptExpr(v))
    case _ => e
  }

  function OptExprs(es: Exprs): Exprs {
    if es.ENil? then ENil else ECons(OptExpr(es.e), OptExprs(es.es))
  }

  function OptPreds(preds: Preds): Preds {
    if preds.PNil? then PNil else
      var p := DropPosition(OptExpr(preds.pred));
      PCons(p, Classify(p), OptPreds(preds.rest))
  }

  function OptBase(b: Base): Base {
    if b.FromContext? then FromContext else From(OptSet(b.s))
  }

  function OptSet(s: SetExpr): SetExpr {
    match s
    case Union(l, r) => Union(OptSet(l), OptSet(r))
    case Filter(inner, p, _) =>
      var p' := DropPosition(OptExpr(p));
      SetExpr.Filter(OptSet(inner), p', Classify(p'))
    case IdOf(a) => IdOf(OptExpr(a))
    case Step(base, axis, test, preds) => Fuse(OptBase(base), axis, test, OptPreds(preds))
    case Root => Root
    case SetVar(v) => SetVar(v)
  }

  // The classes that optimisation leaves behind are true.

  predicate ClassTrue(p: Expr, cls: PredClass) {
    match cls
    case DefaultClass => true
    case Posinv => !IsNumber(p) && PosinvExpr(p)
    case ConstantClass => IsConstant(p)
    case ConstantOne => p == NumConst(Fin(1.0))
  }

  predicate TableOk(table: seq<nat>) {
    |table| == 128 && forall k | 0 <= k < 128 :: table[k] <= 128
  }

  predicate SoundExpr(e: Expr) {
    match e
    case OfNodes(s) => SoundSet(s)
    case One(_, a) => SoundExpr(a)
    case OfSet(_, s) => SoundSet(s)
    case Two(_, l, r) => SoundExpr(l) && SoundExpr(r)
    case Concat(a, rest) => SoundExpr(a) && SoundExprs(rest)
    case Translate(a, from, to) => SoundExpr(a) && SoundExpr(from) && SoundExpr(to)
    case Substring3(a, start, length) => SoundExpr(a) && SoundExpr(start) && SoundExpr(length)
    case OptTranslateTable(a, table) => SoundExpr(a) && TableOk(table)
    case OptCompareAttribute(_, v) => v.StrConst? || (v.Var? && v.ty == TStr)
    case _ => true
  }

  predicate SoundExprs(es: Exprs) {
    es.ECons? ==> SoundExpr(es.e) && SoundExprs(es.es)
  }

  predicate SoundPreds(preds: Preds) {
    preds.PCons? ==> ClassTrue(preds.pred, preds.cls) && SoundExpr(preds.pred) && SoundPreds(preds.rest)
  }

  predicate SoundBase(b: Base) {
    b.From? ==> SoundSet(b.s)
  }

  predicate SoundSet(s: SetExpr) {
    match s
    case Union(l, r) => SoundSet(l) && SoundSet(r)
    case Filter(inner, p, cls) => SoundSet(inner) && SoundExpr(p) && ClassTrue(p, cls)
    case IdOf(a) => SoundExpr(a)
    case Step(base, _, _, preds) => SoundBase(base) && SoundPreds(preds)
    case _ => true
  }
}
