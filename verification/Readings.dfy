/**
 * Two readings of a query: that of XPath 1.0, and the program's, which stops attribute::name at the first match, has lang() false
 * at attributes, relates a node set and a boolean node by node, and has id() empty. Which of these a query can notice depends on
 * what it uses; for every choice of that, the documents on which the readings agree on all queries are known exactly.
 * Names are taken as they are written, and there are no namespace nodes.
 */
module Readings {
  import opened Sequences
  import opened XmlTree
  import opened Axes
  import opened Steps
  import opened DocumentOrder
  import opened NodeSets
  import opened DocumentSets
  import opened XPathSyntax
  import opened XPathSemantics
  import opened Optimizer
  import opened OptimizerCorrect
  import opened EvalFacts
  import opened Evaluator

  function Program(env: Env): Env {
    env.(quirks := Quirks(true, true, true, true))
  }

  function Standard(env: Env): Env {
    env.(quirks := Quirks(false, false, false, false))
  }

  // What a query uses.

  /** attribute::name, lang(), relations of a node set and a boolean, and id(). */
  datatype Uses = Uses(names: bool, lang: bool, relations: bool, ids: bool)

  predicate IsRelation(f: TwoFun) {
    f in {TwoFun.Less, Greater, LessOrEqual, GreaterOrEqual}
  }

  predicate SetAgainstBool(l: Expr, r: Expr) {
    (TypeOf(l) == TSet && TypeOf(r) == TScalar(TBool)) || (TypeOf(l) == TScalar(TBool) && TypeOf(r) == TSet)
  }

  /** The expression uses no more than u of these, and no namespace axis. */
  predicate ExprUses(e: Expr, u: Uses) {
    match e
    case OfNodes(s) => SetUses(s, u)
    case One(f, a) => (f == Lang ==> u.lang) && ExprUses(a, u)
    case OfSet(_, s) => SetUses(s, u)
    case Two(f, l, r) => (IsRelation(f) && SetAgainstBool(l, r) ==> u.relations) && ExprUses(l, u) && ExprUses(r, u)
    case Concat(a, rest) => ExprUses(a, u) && ExprsUse(rest, u)
    case Translate(a, from, to) => ExprUses(a, u) && ExprUses(from, u) && ExprUses(to, u)
    case Substring3(a, start, length) => ExprUses(a, u) && ExprUses(start, u) && ExprUses(length, u)
    case OptTranslateTable(a, _) => ExprUses(a, u)
    case OptCompareAttribute(_, v) => ExprUses(v, u)
    case _ => true
  }

  predicate ExprsUse(es: Exprs, u: Uses) {
    es.ECons? ==> ExprUses(es.e, u) && ExprsUse(es.es, u)
  }

  predicate PredsUse(preds: Preds, u: Uses) {
    preds.PCons? ==> ExprUses(preds.pred, u) && PredsUse(preds.rest, u)
  }

  predicate StepUses(axis: Axis, test: NodeTest, u: Uses) {
    axis != Namespace && (axis == AttributeAxis && test.NameTest? ==> u.names)
  }

  predicate SetUses(s: SetExpr, u: Uses) {
    match s
    case Union(l, r) => SetUses(l, u) && SetUses(r, u)
    case Filter(inner, p, _) => SetUses(inner, u) && ExprUses(p, u)
    case IdOf(a) => u.ids && ExprUses(a, u)
    case Step(base, axis, test, preds) => StepUses(axis, test, u) && (base.From? ==> SetUses(base.s, u)) && PredsUse(preds, u)
    case _ => true
  }

  // What makes the readings agree.

  /** No element says in which language it is. */
  ghost predicate NoLang(t: Tree) {
    forall n, i {:trigger t.node[n].attrs[i]} | n in t.node && 0 <= i < |t.node[n].attrs| :: t.node[n].attrs[i].name != "xml:lang"
  }

  predicate IsWord(w: string) {
    w != "" && forall i | 0 <= i < |w| :: !Blank(w[i])
  }

  /** No node of the document has an ID. */
  ghost predicate NoIds(t: Tree, env: Env) {
    forall w, n | IsWord(w) && n in env.ids(w) :: n !in t.node
  }

  ghost predicate Unnoticed(t: Tree, env: Env, u: Uses) {
    (u.names ==> NamesUnique(t)) && (u.lang ==> NoLang(t)) && (u.ids ==> NoIds(t, env)) && !u.relations
  }

  lemma SameReached(t: Tree, env: Env, u: Uses, axis: Axis, test: NodeTest, x: XNode)
    requires Wf(t) && Unnoticed(t, env, u) && StepUses(axis, test, u)
    ensures Reached(t, Program(env), axis, test, x) == Reached(t, Standard(env), axis, test, x)
  {
    if axis == AttributeAxis && test.NameTest? {
      NamedAttributeOnce(t, test.name, x);
    }
  }

  lemma {:induction false} NoLangFound(s: seq<Attr>)
    requires forall i | 0 <= i < |s| :: s[i].name != "xml:lang"
    ensures FirstValue(s, name => name == "xml:lang") == Nowhere
  {
    if s != [] {
      NoLangFound(s[1..]);
    }
  }

  lemma {:induction false} NoLangNowhere(t: Tree, n: Ref)
    requires Wf(t) && NoLang(t) && n in t.node
    ensures Inherited(t, n, name => name == "xml:lang") == Nowhere
    decreases t.node[t.root].rank - t.node[n].rank
  {
    NoLangFound(t.node[n].attrs);
    if n != t.root {
      NoLangNowhere(t, Parent(t, n));
    }
  }

  lemma {:induction false} WordsAre(s: string)
    ensures forall w | w in Words(s) :: IsWord(w)
    decreases |s|
  {
    var r := SkipBlanks(s);
    if r != "" {
      WordIs(r);
      WordsAre(r[WordLength(r)..]);
    }
  }

  lemma {:induction false} WordIs(r: string)
    ensures forall i | 0 <= i < WordLength(r) :: !Blank(r[i])
  {
    if r != "" && !Blank(r[0]) {
      WordIs(r[1..]);
    }
  }

  lemma NobodyIdentified(t: Tree, env: Env, v: Value)
    requires Wf(t) && NoIds(t, env)
    ensures IdNodes(t, env, v) == {}
  {
    forall text: string, n | n in t.node ensures !Identified(env, text, n) {
      WordsAre(text);
    }
  }

  // Expressions that cannot notice.

  lemma {:induction false} SameExpr(t: Tree, env: Env, u: Uses, e: Expr, c: Ctx)
    requires Wf(t) && Unnoticed(t, env, u) && ExprUses(e, u)
    ensures Eval(t, Program(env), e, c) == Eval(t, Standard(env), e, c)
    decreases e, 1
  {
    match e
    case OfNodes(s) => SameSet(t, env, u, s, c);
    case Zero(f) => SameZero(t, env, f, c);
    case One(_, _) => SameArgument(t, env, u, e, c);
    case OfSet(_, _) => SameOfSet(t, env, u, e, c);
    case Two(_, _, _) => SameBoth(t, env, u, e, c);
    case Concat(_, _) => SameConcat(t, env, u, e, c);
    case Translate(_, _, _) => SameTranslate(t, env, u, e, c);
    case Substring3(_, _, _) => SameSubstring(t, env, u, e, c);
    case OptTranslateTable(a, _) => SameExpr(t, env, u, a, c);
    case OptCompareAttribute(_, v) => SameExpr(t, env, u, v, c);
    case _ =>
  }

  lemma SameZero(t: Tree, env: Env, f: ZeroFun, c: Ctx)
    requires Wf(t)
    ensures EvalZero(t, Program(env), f, c) == EvalZero(t, Standard(env), f, c)
  {
  }

  lemma {:induction false} SameArgument(t: Tree, env: Env, u: Uses, e: Expr, c: Ctx)
    requires Wf(t) && Unnoticed(t, env, u) && e.One? && ExprUses(e, u)
    ensures Eval(t, Program(env), e, c) == Eval(t, Standard(env), e, c)
    decreases e, 0
  {
    SameExpr(t, env, u, e.arg, c);
    SameOne(t, env, u, e.f1, c.n, Eval(t, Program(env), e.arg, c));
  }

  lemma {:induction false} SameOfSet(t: Tree, env: Env, u: Uses, e: Expr, c: Ctx)
    requires Wf(t) && Unnoticed(t, env, u) && e.OfSet? && ExprUses(e, u)
    ensures Eval(t, Program(env), e, c) == Eval(t, Standard(env), e, c)
    decreases e, 0
  {
    SameSet(t, env, u, e.set_, c);
    SameSum(t, env, InOrder(t, EvalSet(t, Program(env), e.set_, c)));
  }

  lemma {:induction false} SameBoth(t: Tree, env: Env, u: Uses, e: Expr, c: Ctx)
    requires Wf(t) && Unnoticed(t, env, u) && e.Two? && ExprUses(e, u)
    ensures Eval(t, Program(env), e, c) == Eval(t, Standard(env), e, c)
    decreases e, 0
  {
    SameExpr(t, env, u, e.left, c);
    SameExpr(t, env, u, e.right, c);
    if IsRelation(e.f2) {
      NotSetAndBool(t, Program(env), e.left, e.right, c);
    }
    SameTwo(t, env, e.f2, Eval(t, Program(env), e.left, c), Eval(t, Program(env), e.right, c));
  }

  lemma NotSetAndBool(t: Tree, env: Env, l: Expr, r: Expr, c: Ctx)
    requires Wf(t) && !SetAgainstBool(l, r)
    ensures !SetAndBool(Eval(t, env, l, c), Eval(t, env, r, c))
  {
    TypeTrue(t, env, l, c);
    TypeTrue(t, env, r, c);
    OnlySets(l);
    OnlySets(r);
  }

  lemma {:induction false} SameConcat(t: Tree, env: Env, u: Uses, e: Expr, c: Ctx)
    requires Wf(t) && Unnoticed(t, env, u) && e.Concat? && ExprUses(e, u)
    ensures Eval(t, Program(env), e, c) == Eval(t, Standard(env), e, c)
    decreases e, 0
  {
    SameExpr(t, env, u, e.first, c);
    SameExprs(t, env, u, e.rest, c);
  }

  lemma {:induction false} SameTranslate(t: Tree, env: Env, u: Uses, e: Expr, c: Ctx)
    requires Wf(t) && Unnoticed(t, env, u) && e.Translate? && ExprUses(e, u)
    ensures Eval(t, Program(env), e, c) == Eval(t, Standard(env), e, c)
    decreases e, 0
  {
    var p, q := Program(env), Standard(env);
    assert Eval(t, p, e.text, c) == Eval(t, q, e.text, c) && Eval(t, p, e.from, c) == Eval(t, q, e.from, c) && Eval(t, p, e.to, c) == Eval(t, q, e.to, c) by {
      SameExpr(t, env, u, e.text, c);
      SameExpr(t, env, u, e.from, c);
      SameExpr(t, env, u, e.to, c);
    }
  }

  lemma {:induction false} SameSubstring(t: Tree, env: Env, u: Uses, e: Expr, c: Ctx)
    requires Wf(t) && Unnoticed(t, env, u) && e.Substring3? && ExprUses(e, u)
    ensures Eval(t, Program(env), e, c) == Eval(t, Standard(env), e, c)
    decreases e, 0
  {
    var p, q := Program(env), Standard(env);
    assert Eval(t, p, e.text, c) == Eval(t, q, e.text, c) && Eval(t, p, e.start, c) == Eval(t, q, e.start, c) && Eval(t, p, e.length, c) == Eval(t, q, e.length, c) by {
      SameExpr(t, env, u, e.text, c);
      SameExpr(t, env, u, e.start, c);
      SameExpr(t, env, u, e.length, c);
    }
  }

  lemma SameOne(t: Tree, env: Env, u: Uses, f: OneFun, x: XNode, v: Value)
    requires Wf(t) && Unnoticed(t, env, u) && (f == Lang ==> u.lang)
    ensures EvalOne(t, Program(env), f, x, v) == EvalOne(t, Standard(env), f, x, v)
  {
    if f == Lang && Has(t, x) {
      NoLangNowhere(t, Owner(x));
    }
  }

  lemma {:induction false} SameSum(t: Tree, env: Env, s: seq<XNode>)
    requires Wf(t)
    ensures SumOf(t, Program(env), s) == SumOf(t, Standard(env), s)
  {
    if s != [] {
      SameSum(t, env, s[1..]);
    }
  }

  /** Comparisons only use the environment to read numbers. */
  lemma SameEq(t: Tree, env: Env, b: bool, v: Value, w: Value)
    requires Wf(t)
    ensures CompareEq(t, Program(env), b, v, w) == CompareEq(t, Standard(env), b, v, w)
  {
  }

  lemma SameRel(t: Tree, env: Env, b: bool, v: Value, w: Value)
    requires Wf(t) && !SetAndBool(v, w)
    ensures CompareRel(t, Program(env), b, v, w) == CompareRel(t, Standard(env), b, v, w)
  {
  }

  lemma SameTwo(t: Tree, env: Env, f: TwoFun, v: Value, w: Value)
    requires Wf(t) && (IsRelation(f) ==> !SetAndBool(v, w))
    ensures EvalTwo(t, Program(env), f, v, w) == EvalTwo(t, Standard(env), f, v, w)
  {
    match f
    case Equal => SameEq(t, env, true, v, w);
    case NotEqual => SameEq(t, env, false, v, w);
    case Less => SameRel(t, env, true, v, w);
    case Greater => SameRel(t, env, true, w, v);
    case LessOrEqual => SameRel(t, env, false, v, w);
    case GreaterOrEqual => SameRel(t, env, false, w, v);
    case _ =>
  }

  lemma {:induction false} SameExprs(t: Tree, env: Env, u: Uses, es: Exprs, c: Ctx)
    requires Wf(t) && Unnoticed(t, env, u) && ExprsUse(es, u)
    ensures EvalConcat(t, Program(env), es, c) == EvalConcat(t, Standard(env), es, c)
    decreases es, 0
  {
    if es.ECons? {
      SameExpr(t, env, u, es.e, c);
      SameExprs(t, env, u, es.es, c);
    }
  }

  lemma {:induction false} SameKeep(t: Tree, env: Env, u: Uses, p: Expr, s: seq<XNode>, i: nat, size: nat)
    requires Wf(t) && Unnoticed(t, env, u) && ExprUses(p, u)
    ensures Keep(t, Program(env), p, s, i, size) == Keep(t, Standard(env), p, s, i, size)
    decreases p, 2, |s|
  {
    if s != [] {
      SameExpr(t, env, u, p, Ctx(s[0], i + 1, size));
      SameKeep(t, env, u, p, s[1..], i + 1, size);
    }
  }

  lemma {:induction false} SamePreds(t: Tree, env: Env, u: Uses, preds: Preds, s: seq<XNode>)
    requires Wf(t) && Unnoticed(t, env, u) && PredsUse(preds, u)
    ensures ApplyPreds(t, Program(env), preds, s) == ApplyPreds(t, Standard(env), preds, s)
    decreases preds, 0
  {
    if preds.PCons? {
      SameKeep(t, env, u, preds.pred, s, 0, |s|);
      SamePreds(t, env, u, preds.rest, Keep(t, Standard(env), preds.pred, s, 0, |s|));
    }
  }

  lemma {:induction false} SameSet(t: Tree, env: Env, u: Uses, s: SetExpr, c: Ctx)
    requires Wf(t) && Unnoticed(t, env, u) && SetUses(s, u)
    ensures EvalSet(t, Program(env), s, c) == EvalSet(t, Standard(env), s, c)
    decreases s, 0
  {
    match s
    case Union(l, r) =>
      SameSet(t, env, u, l, c);
      SameSet(t, env, u, r, c);
    case Filter(inner, p, _) =>
      SameSet(t, env, u, inner, c);
      var xs := InOrder(t, EvalSet(t, Standard(env), inner, c));
      SameKeep(t, env, u, p, xs, 0, |xs|);
    case IdOf(a) => NobodyIdentified(t, Standard(env), Eval(t, Standard(env), a, c));
    case Step(base, axis, test, preds) =>
      if base.From? {
        SameSet(t, env, u, base.s, c);
      }
      forall x ensures Selected(t, Program(env), axis, test, preds, x) == Selected(t, Standard(env), axis, test, preds, x) {
        SameReached(t, env, u, axis, test, x);
        SamePreds(t, env, u, preds, Reached(t, Standard(env), axis, test, x));
      }
      assert EvalBase(t, Program(env), base, c) == EvalBase(t, Standard(env), base, c);
    case _ =>
  }

  // A repeated name shows.

  /** attribute::name */
  function ByNameStep(name: string): SetExpr {
    Step(FromContext, AttributeAxis, NameTest(name), PNil)
  }

  lemma ByNameSound(name: string)
    ensures SoundSet(ByNameStep(name))
  {
    assert SoundBase(FromContext) && SoundPreds(PNil);
  }

  lemma {:induction false} PickedTwice(test: NodeTest, s: seq<Attr>, p: Ref, i: nat, j: nat)
    requires i < j < |s| && AttrPasses(test, s[i]) && AttrPasses(test, s[j])
    ensures |PickedAttrs(test, s, p)| >= 2
  {
    if i > 0 {
      PickedTwice(test, s[1..], p, i - 1, j - 1);
    } else {
      PickedAttrsMembers(test, s[1..], p, XAttr(s[j].id, p));
      assert s[1..][j - 1] == s[j];
    }
  }

  /** On an element with two attributes of a name, attribute::name finds fewer than there are. */
  lemma RepeatedNameShows(t: Tree, env: Env, n: Ref, i: nat, j: nat)
    requires Wf(t) && n in t.node && i < j < |t.node[n].attrs|
    requires IsXPathAttribute(t.node[n].attrs[i].name) && t.node[n].attrs[j].name == t.node[n].attrs[i].name
    ensures var name, c := t.node[n].attrs[i].name, Ctx(XElem(n), 1, 1);
      && FirstIf(true, StepItems(t, AttributeAxis, NameTest(name), XElem(n))) != StepItems(t, AttributeAxis, NameTest(name), XElem(n))
      && EvalSet(t, Program(env), ByNameStep(name), c) < EvalSet(t, Standard(env), ByNameStep(name), c)
  {
    var s, name, c := t.node[n].attrs, t.node[n].attrs[i].name, Ctx(XElem(n), 1, 1);
    var items := StepItems(t, AttributeAxis, NameTest(name), XElem(n));
    var xs, ys := EvalSet(t, Program(env), ByNameStep(name), c), EvalSet(t, Standard(env), ByNameStep(name), c);
    PickedTwice(NameTest(name), s, n, i, j);
    forall y ensures (y in ys <==> y in items) && (y in xs <==> y == items[0]) {
      FromContextIs(t, Standard(env), AttributeAxis, NameTest(name), c, y);
      FromContextIs(t, Program(env), AttributeAxis, NameTest(name), c, y);
    }
    StepItemsDirection(t, AttributeAxis, NameTest(name), XElem(n));
    assert items[1] in ys && items[1] !in xs && items[0] in items;
  }

  // The other departures show, too.

  /** self::node()[p] */
  function SelfIf(p: Expr): SetExpr {
    Step(FromContext, SelfAxis, TypeNode, PCons(p, DefaultClass, PNil))
  }

  lemma SelfIfSound(p: Expr)
    requires SoundExpr(p)
    ensures SoundSet(SelfIf(p))
  {
    assert SoundPreds(PNil) && SoundPreds(PCons(p, DefaultClass, PNil)) && SoundBase(FromContext);
  }

  lemma SelfIfUses(p: Expr, u: Uses)
    requires ExprUses(p, u)
    ensures SetUses(SelfIf(p), u)
  {
    assert PredsUse(PNil, u) && PredsUse(PCons(p, DefaultClass, PNil), u);
  }

  /** It selects the context node exactly if p holds there. */
  lemma {:induction false} SelfIfMeans(t: Tree, env: Env, p: Expr, x: XNode)
    requires Wf(t) && Has(t, x) && StepItems(t, SelfAxis, TypeNode, x) == [x]
    ensures EvalSet(t, env, SelfIf(p), Ctx(x, 1, 1)) == if Holds(t, env, p, Ctx(x, 1, 1)) then {x} else {}
  {
    var c, preds := Ctx(x, 1, 1), PCons(p, DefaultClass, PNil);
    var kept := Keep(t, env, p, [x], 0, 1);
    assert kept == if Holds(t, env, p, c) then [x] else [] by {
      assert [x][1..] == [];
      assert Keep(t, env, p, [], 1, 1) == [];
    }
    assert Selected(t, env, SelfAxis, TypeNode, preds, x) == kept by {
      assert Reached(t, env, SelfAxis, TypeNode, x) == [x];
      assert ApplyPreds(t, env, PNil, kept) == kept;
    }
    assert EvalBase(t, env, FromContext, c) == {x};
    forall y ensures y in EvalSet(t, env, SelfIf(p), c) <==> y in kept {
    }
  }

  /** An attribute that says the language has it, but the program does not see that. */
  lemma LangShows(t: Tree, env: Env, u: Uses, n: Ref, i: nat) returns (p: Expr, c: Ctx)
    requires Wf(t) && n in t.node && i < |t.node[n].attrs| && t.node[n].attrs[i].name == "xml:lang" && u.lang
    ensures SoundExpr(p) && ExprUses(p, u) && CtxOk(t, c)
    ensures EvalSet(t, Program(env), SelfIf(p), c) != EvalSet(t, Standard(env), SelfIf(p), c)
  {
    var x := XAttr(t.node[n].attrs[i].id, n);
    var v := FirstLang(t.node[n].attrs, i);
    p, c := One(Lang, StrConst(v)), Ctx(x, 1, 1);
    AttrValue(t, n, i);
    assert Inherited(t, n, name => name == "xml:lang") == There(v);
    assert Eval(t, Program(env), p, c) == VBool(false) && Eval(t, Standard(env), p, c) == VBool(true);
    SelfAttrItems(t, n, i);
    SelfIfMeans(t, Program(env), p, x);
    SelfIfMeans(t, Standard(env), p, x);
  }

  lemma {:induction false} FirstLang(s: seq<Attr>, i: nat) returns (v: string)
    requires i < |s| && s[i].name == "xml:lang"
    ensures FirstValue(s, name => name == "xml:lang") == There(v)
  {
    if s[0].name == "xml:lang" {
      v := s[0].value;
    } else {
      v := FirstLang(s[1..], i - 1);
    }
  }

  lemma SelfAttrItems(t: Tree, n: Ref, i: nat)
    requires Wf(t) && n in t.node && i < |t.node[n].attrs| && IsXPathAttribute(t.node[n].attrs[i].name)
    ensures StepItems(t, SelfAxis, TypeNode, XAttr(t.node[n].attrs[i].id, n)) == [XAttr(t.node[n].attrs[i].id, n)]
  {
    AttrValue(t, n, i);
    assert AttrWf(t, n, i);
  }

  lemma SelfRoot(t: Tree)
    requires Wf(t)
    ensures StepItems(t, SelfAxis, TypeNode, XElem(t.root)) == [XElem(t.root)]
    ensures StepItems(t, ParentAxis, TypeNode, XElem(t.root)) == []
  {
    var items, none := StepItems(t, SelfAxis, TypeNode, XElem(t.root)), StepItems(t, ParentAxis, TypeNode, XElem(t.root));
    StepItemsDirection(t, SelfAxis, TypeNode, XElem(t.root));
    forall y ensures (y in items <==> y == XElem(t.root)) && y !in none {
      if y in items {
        StepFromNode(t, SelfAxis, TypeNode, t.root, y);
      }
      if y in none {
        StepFromNode(t, ParentAxis, TypeNode, t.root, y);
      }
      if y == XElem(t.root) {
        StepFromNode(t, SelfAxis, TypeNode, t.root, y);
      }
    }
    EmptySame(none, {});
    OrderedDistinct(t, items);
    AtMostOne(items, XElem(t.root));
  }

  /** ../node() < true() is true at the root for XPath 1.0, as there is no parent, and false for the program. */
  function NoParentLess(): Expr {
    Two(TwoFun.Less, OfNodes(Step(FromContext, ParentAxis, TypeNode, PNil)), Zero(True))
  }

  lemma NoParentFound(t: Tree, env: Env)
    requires Wf(t)
    ensures EvalSet(t, env, Step(FromContext, ParentAxis, TypeNode, PNil), Ctx(XElem(t.root), 1, 1)) == {}
  {
    var c := Ctx(XElem(t.root), 1, 1);
    SelfRoot(t);
    forall y ensures y !in EvalSet(t, env, Step(FromContext, ParentAxis, TypeNode, PNil), c) {
      FromContextIs(t, env, ParentAxis, TypeNode, c, y);
    }
  }

  lemma NothingLess(t: Tree, env: Env)
    requires Wf(t)
    ensures !CompareRel(t, Program(env), true, VSet({}), VBool(true)) && CompareRel(t, Standard(env), true, VSet({}), VBool(true))
  {
  }

  lemma NoParentLessMeans(t: Tree, env: Env)
    requires Wf(t)
    ensures Eval(t, env, NoParentLess(), Ctx(XElem(t.root), 1, 1)) == VBool(CompareRel(t, env, true, VSet({}), VBool(true)))
  {
    NoParentFound(t, env);
    var s, c := Step(FromContext, ParentAxis, TypeNode, PNil), Ctx(XElem(t.root), 1, 1);
    assert Eval(t, env, OfNodes(s), c) == VSet({}) && Eval(t, env, Zero(True), c) == VBool(true);
  }

  lemma RelationShows(t: Tree, env: Env, u: Uses)
    requires Wf(t) && u.relations
    ensures var p, c := NoParentLess(), Ctx(XElem(t.root), 1, 1);
      && SoundExpr(p) && ExprUses(p, u) && CtxOk(t, c)
      && EvalSet(t, Program(env), SelfIf(p), c) == {} && EvalSet(t, Standard(env), SelfIf(p), c) == {XElem(t.root)}
  {
    var p, c := NoParentLess(), Ctx(XElem(t.root), 1, 1);
    SelfRoot(t);
    assert !Holds(t, Program(env), p, c) && Holds(t, Standard(env), p, c) by {
      NoParentLessMeans(t, Program(env));
      NoParentLessMeans(t, Standard(env));
      NothingLess(t, env);
    }
    SelfIfMeans(t, Program(env), p, c.n);
    SelfIfMeans(t, Standard(env), p, c.n);
    NoParentLessSound(u);
  }

  lemma NoParentLessSound(u: Uses)
    requires u.relations
    ensures SoundExpr(NoParentLess()) && ExprUses(NoParentLess(), u)
  {
    assert SoundPreds(PNil) && SoundBase(FromContext) && PredsUse(PNil, u);
  }

  lemma WordAlone(w: string)
    requires IsWord(w)
    ensures Words(w) == [w]
  {
    WordWhole(w);
    assert SkipBlanks(w) == w && w[..|w|] == w && w[|w|..] == "";
  }

  lemma {:induction false} WordWhole(w: string)
    requires forall i | 0 <= i < |w| :: !Blank(w[i])
    ensures WordLength(w) == |w|
  {
    if w != "" {
      WordWhole(w[1..]);
    }
  }

  /** id('w') finds a node that has this ID, but not in the program. */
  lemma IdShows(t: Tree, env: Env, u: Uses, w: string, n: Ref)
    requires Wf(t) && u.ids && IsWord(w) && n in t.node && n in env.ids(w)
    ensures var s, c := IdOf(StrConst(w)), Ctx(XElem(t.root), 1, 1);
      && SoundSet(s) && SetUses(s, u) && CtxOk(t, c)
      && EvalSet(t, Program(env), s, c) == {} && XElem(n) in EvalSet(t, Standard(env), s, c)
  {
    WordAlone(w);
    assert w in Words(w) && Identified(env, w, n);
  }

  // The documents on which nothing shows.

  /** Both readings give every sound query that uses no more than u the same nodes in every context. */
  ghost predicate ReadingsAgree(t: Tree, env: Env, u: Uses)
    requires Wf(t)
  {
    forall s, c | SoundSet(s) && SetUses(s, u) && CtxOk(t, c) :: EvalSet(t, Program(env), s, c) == EvalSet(t, Standard(env), s, c)
  }

  lemma AgreeOnNames(t: Tree, env: Env, u: Uses)
    requires Wf(t) && u.names && ReadingsAgree(t, env, u)
    ensures NamesUnique(t)
  {
    forall n, i, j {:trigger t.node[n].attrs[i], t.node[n].attrs[j]} |
      n in t.node && 0 <= i < j < |t.node[n].attrs| && IsXPathAttribute(t.node[n].attrs[i].name)
      ensures t.node[n].attrs[i].name != t.node[n].attrs[j].name
    {
      var name, c := t.node[n].attrs[i].name, Ctx(XElem(n), 1, 1);
      ByNameSound(name);
      assert PredsUse(PNil, u) && SetUses(ByNameStep(name), u) && CtxOk(t, c);
      if t.node[n].attrs[j].name == name {
        RepeatedNameShows(t, env, n, i, j);
      }
    }
  }

  lemma AgreeOnLang(t: Tree, env: Env, u: Uses)
    requires Wf(t) && u.lang && ReadingsAgree(t, env, u)
    ensures NoLang(t)
  {
    forall n, i {:trigger t.node[n].attrs[i]} | n in t.node && 0 <= i < |t.node[n].attrs| ensures t.node[n].attrs[i].name != "xml:lang" {
      if t.node[n].attrs[i].name == "xml:lang" {
        var p, c := LangShows(t, env, u, n, i);
        SelfIfSound(p);
        SelfIfUses(p, u);
      }
    }
  }

  lemma AgreeOnIds(t: Tree, env: Env, u: Uses)
    requires Wf(t) && u.ids && ReadingsAgree(t, env, u)
    ensures NoIds(t, env)
  {
    forall w, n | IsWord(w) && n in env.ids(w) ensures n !in t.node {
      if n in t.node {
        IdShows(t, env, u, w, n);
      }
    }
  }

  /**
   * What the program computes is what XPath 1.0 says, for all queries that use no more than u, exactly if no element repeats
   * an attribute name, none has xml:lang and no node has an ID, as far as the queries can ask for these, and
   * no query relates a node set and a boolean.
   */
  lemma ReadingsExact(t: Tree, env: Env, u: Uses)
    requires Wf(t)
    ensures ReadingsAgree(t, env, u) <==>
            (u.names ==> NamesUnique(t)) && (u.lang ==> NoLang(t)) && (u.ids ==> NoIds(t, env)) && !u.relations
  {
    if Unnoticed(t, env, u) {
      forall s, c | SoundSet(s) && SetUses(s, u) && CtxOk(t, c) ensures EvalSet(t, Program(env), s, c) == EvalSet(t, Standard(env), s, c) {
        SameSet(t, env, u, s, c);
      }
    }
    if ReadingsAgree(t, env, u) {
      AgreeUnnoticed(t, env, u);
    }
  }

  lemma AgreeUnnoticed(t: Tree, env: Env, u: Uses)
    requires Wf(t) && ReadingsAgree(t, env, u)
    ensures Unnoticed(t, env, u)
  {
    if u.names {
      AgreeOnNames(t, env, u);
    }
    if u.lang {
      AgreeOnLang(t, env, u);
    }
    if u.ids {
      AgreeOnIds(t, env, u);
    }
    if u.relations {
      NeverAgree(t, env, u);
    }
  }

  lemma NeverAgree(t: Tree, env: Env, u: Uses)
    requires Wf(t) && u.relations
    ensures !ReadingsAgree(t, env, u)
  {
    var s, c := SelfIf(NoParentLess()), Ctx(XElem(t.root), 1, 1);
    assert EvalSet(t, Program(env), s, c) != EvalSet(t, Standard(env), s, c) && CtxOk(t, c) by {
      RelationShows(t, env, u);
    }
    assert SoundSet(s) && SetUses(s, u) by {
      NoParentLessSound(u);
      SelfIfSound(NoParentLess());
      SelfIfUses(NoParentLess(), u);
    }
  }
}
