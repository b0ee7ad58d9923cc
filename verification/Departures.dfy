/**
 * Where lang() and the relations of a node set and a boolean depart from XPath 1.0: the exact inputs on which the program's
 * answer is the one of sections 4.3 and 3.4, for all inputs, and a document for each on which it is not.
 */
module Departures {
  import opened Sequences
  import opened XmlTree
  import opened Axes
  import opened Steps
  import opened DocumentOrder
  import opened NodeSets
  import opened XPathSyntax
  import opened XPathSemantics
  import opened Optimizer
  import opened OptimizerCorrect
  import opened EvalFacts
  import opened StringFunctions
  import opened Readings

  // lang().

  /**
   * For every argument on which the readings agree, lang() is answered rightly exactly if the context is no attribute,
   * or the nearest xml:lang at or above its owner does not fit.
   */
  lemma LangExact(t: Tree, env: Env, u: Uses, a: Expr, c: Ctx)
    requires Wf(t) && Unnoticed(t, env, u) && ExprUses(a, u)
    ensures Eval(t, Program(env), One(Lang, a), c) == Eval(t, Standard(env), One(Lang, a), c) <==>
            !(Has(t, c.n) && c.n.XAttr? && Speaks(t, c.n.p, ToStr(t, env, Eval(t, Standard(env), a, c))))
  {
    SameExpr(t, env, u, a, c);
  }

  /** <a xml:lang="en"/> */
  function EnglishTree(): Tree {
    Tree(1,
      map[1 := Node([2], 0, 0, 1, [], Info(NodeType.Document, "", "")),
          2 := Node([], 1, 0, 0, [Attr(3, "xml:lang", "en")], Info(Element, "a", ""))],
      map[3 := 2])
  }

  lemma EnglishWf()
    ensures Wf(EnglishTree())
  {
    var t := EnglishTree();
    forall n, i {:trigger ChildWf(t, n, i)} | n in t.node && 0 <= i < |t.node[n].kids| ensures ChildWf(t, n, i) {
      assert n == 1 && i == 0;
    }
    forall n {:trigger Attached(t, n)} | n in t.node && n != t.root ensures Attached(t, n) {
      assert n == 2;
    }
    forall n, i {:trigger AttrWf(t, n, i)} | n in t.node && 0 <= i < |t.node[n].attrs| ensures AttrWf(t, n, i) {
      assert n == 2 && i == 0;
    }
  }

  /** lang('en') at the attribute itself is true, but the program says false. */
  lemma LangExample(env: Env)
    ensures Wf(EnglishTree()) && Has(EnglishTree(), XAttr(3, 2))
    ensures Eval(EnglishTree(), Standard(env), One(Lang, StrConst("en")), Ctx(XAttr(3, 2), 1, 1)) == VBool(true)
    ensures Eval(EnglishTree(), Program(env), One(Lang, StrConst("en")), Ctx(XAttr(3, 2), 1, 1)) == VBool(false)
  {
    EnglishWf();
    var t := EnglishTree();
    assert t.node[2].attrs[0].name == "xml:lang";
    assert Inherited(t, 2, name => name == "xml:lang") == There("en");
    assert LangMatches("en", "en") && Speaks(t, 2, "en");
  }

  // Relations.

  /** Some node of the set is so related to the number. */
  ghost predicate SomeBelow(t: Tree, env: Env, strict: bool, xs: set<XNode>, r: Num)
    requires Wf(t)
  {
    exists x | x in xs :: RelCmp(strict, NumberOf(t, env, x), r)
  }

  ghost predicate SomeAbove(t: Tree, env: Env, strict: bool, xs: set<XNode>, r: Num)
    requires Wf(t)
  {
    exists x | x in xs :: RelCmp(strict, r, NumberOf(t, env, x))
  }

  /** When xs < b, or xs <= b, is answered rightly node by node: numbers that are NaN are in no relation. */
  ghost predicate SetLessFits(t: Tree, env: Env, strict: bool, xs: set<XNode>, b: bool)
    requires Wf(t)
  {
    if strict then !SomeBelow(t, env, true, xs, BoolNum(b)) && (b ==> xs != {})
    else if b then SomeBelow(t, env, false, xs, Fin(1.0))
    else xs != {} && !SomeBelow(t, env, false, xs, Fin(0.0))
  }

  /** When b < xs, or b <= xs, is. */
  ghost predicate BoolLessFits(t: Tree, env: Env, strict: bool, b: bool, xs: set<XNode>)
    requires Wf(t)
  {
    if strict && b then !SomeAbove(t, env, true, xs, Fin(1.0))
    else if !strict && !b then SomeAbove(t, env, false, xs, Fin(0.0))
    else xs == {} || SomeAbove(t, env, strict, xs, BoolNum(b))
  }

  lemma SetLessExact(t: Tree, env: Env, strict: bool, xs: set<XNode>, b: bool)
    requires Wf(t)
    ensures CompareRel(t, Program(env), strict, VSet(xs), VBool(b)) == CompareRel(t, Standard(env), strict, VSet(xs), VBool(b)) <==>
            SetLessFits(t, env, strict, xs, b)
  {
    assert CompareRel(t, Program(env), strict, VSet(xs), VBool(b)) == SomeBelow(t, env, strict, xs, BoolNum(b));
    assert CompareRel(t, Standard(env), strict, VSet(xs), VBool(b)) == RelCmp(strict, BoolNum(xs != {}), BoolNum(b));
  }

  lemma BoolLessExact(t: Tree, env: Env, strict: bool, b: bool, xs: set<XNode>)
    requires Wf(t)
    ensures CompareRel(t, Program(env), strict, VBool(b), VSet(xs)) == CompareRel(t, Standard(env), strict, VBool(b), VSet(xs)) <==>
            BoolLessFits(t, env, strict, b, xs)
  {
    assert CompareRel(t, Program(env), strict, VBool(b), VSet(xs)) == SomeAbove(t, env, strict, xs, BoolNum(b));
    assert CompareRel(t, Standard(env), strict, VBool(b), VSet(xs)) == RelCmp(strict, BoolNum(b), BoolNum(xs != {}));
  }

  /** The four relations on values of any types. */
  ghost predicate RelationFits(t: Tree, env: Env, strict: bool, v: Value, w: Value)
    requires Wf(t)
  {
    (v.VSet? && w.VBool? ==> SetLessFits(t, env, strict, v.xs, w.b)) && (v.VBool? && w.VSet? ==> BoolLessFits(t, env, strict, v.b, w.xs))
  }

  lemma CompareExact(t: Tree, env: Env, strict: bool, v: Value, w: Value)
    requires Wf(t)
    ensures CompareRel(t, Program(env), strict, v, w) == CompareRel(t, Standard(env), strict, v, w) <==> RelationFits(t, env, strict, v, w)
  {
    if v.VSet? && w.VBool? {
      SetLessExact(t, env, strict, v.xs, w.b);
    } else if v.VBool? && w.VSet? {
      BoolLessExact(t, env, strict, v.b, w.xs);
    } else {
      SameRel(t, env, strict, v, w);
    }
  }

  /** For all operands on which the readings agree, a relation is answered rightly exactly if the numbers in the set and the boolean fit. */
  lemma RelationExact(t: Tree, env: Env, u: Uses, f: TwoFun, l: Expr, r: Expr, c: Ctx)
    requires Wf(t) && IsRelation(f) && Unnoticed(t, env, u) && ExprUses(l, u) && ExprUses(r, u)
    ensures var v, w := Eval(t, Standard(env), l, c), Eval(t, Standard(env), r, c);
      Eval(t, Program(env), Two(f, l, r), c) == Eval(t, Standard(env), Two(f, l, r), c) <==>
        if f in {TwoFun.Less, LessOrEqual} then RelationFits(t, env, f == TwoFun.Less, v, w) else RelationFits(t, env, f == Greater, w, v)
  {
    SameExpr(t, env, u, l, c);
    SameExpr(t, env, u, r, c);
    TwoExact(t, env, f, Eval(t, Standard(env), l, c), Eval(t, Standard(env), r, c));
  }

  lemma TwoExact(t: Tree, env: Env, f: TwoFun, v: Value, w: Value)
    requires Wf(t) && IsRelation(f)
    ensures EvalTwo(t, Program(env), f, v, w) == EvalTwo(t, Standard(env), f, v, w) <==>
            if f in {TwoFun.Less, LessOrEqual} then RelationFits(t, env, f == TwoFun.Less, v, w) else RelationFits(t, env, f == Greater, w, v)
  {
    if f in {TwoFun.Less, LessOrEqual} {
      CompareExact(t, env, f == TwoFun.Less, v, w);
    } else {
      CompareExact(t, env, f == Greater, w, v);
    }
  }

  /** A document with one text. */
  function TextTree(text: string): Tree {
    Tree(1,
      map[1 := Node([2], 0, 0, 1, [], Info(NodeType.Document, "", "")),
          2 := Node([], 1, 0, 0, [], Info(Pcdata, "", text))],
      map[])
  }

  lemma TextWf(text: string)
    ensures Wf(TextTree(text))
  {
    var t := TextTree(text);
    forall n, i {:trigger ChildWf(t, n, i)} | n in t.node && 0 <= i < |t.node[n].kids| ensures ChildWf(t, n, i) {
      assert n == 1 && i == 0;
    }
    forall n {:trigger Attached(t, n)} | n in t.node && n != t.root ensures Attached(t, n) {
      assert n == 2;
    }
  }

  /** The children of the root. */
  lemma TextChild(text: string, env: Env)
    requires Wf(TextTree(text))
    ensures EvalSet(TextTree(text), env, Step(FromContext, Child, TypeNode, PNil), Ctx(XElem(1), 1, 1)) == {XElem(2)}
  {
    var t, c := TextTree(text), Ctx(XElem(1), 1, 1);
    forall y ensures y in EvalSet(t, env, Step(FromContext, Child, TypeNode, PNil), c) <==> y == XElem(2) {
      FromContextIs(t, env, Child, TypeNode, c, y);
      StepFromNode(t, Child, TypeNode, 1, y);
    }
  }

  /** With one child of value 0, node() < true() is false, as both sides are true, but the program finds that 0 is less than 1. */
  lemma RelationExample(env: Env)
    requires env.parse("0") == Fin(0.0)
    ensures Wf(TextTree("0"))
    ensures var e := Two(TwoFun.Less, OfNodes(Step(FromContext, Child, TypeNode, PNil)), Zero(True));
      && Eval(TextTree("0"), Standard(env), e, Ctx(XElem(1), 1, 1)) == VBool(false)
      && Eval(TextTree("0"), Program(env), e, Ctx(XElem(1), 1, 1)) == VBool(true)
  {
    TextWf("0");
    var t, c := TextTree("0"), Ctx(XElem(1), 1, 1);
    RelationMeans(t, Program(env), c);
    RelationMeans(t, Standard(env), c);
    TextChild("0", Program(env));
    TextChild("0", Standard(env));
    ZeroLess(t, env);
  }

  lemma RelationMeans(t: Tree, env: Env, c: Ctx)
    requires Wf(t)
    ensures var s := Step(FromContext, Child, TypeNode, PNil);
      Eval(t, env, Two(TwoFun.Less, OfNodes(s), Zero(True)), c) == VBool(CompareRel(t, env, true, VSet(EvalSet(t, env, s, c)), VBool(true)))
  {
    var s := Step(FromContext, Child, TypeNode, PNil);
    assert Eval(t, env, OfNodes(s), c) == VSet(EvalSet(t, env, s, c)) && Eval(t, env, Zero(True), c) == VBool(true);
  }

  lemma ZeroLess(t: Tree, env: Env)
    requires Wf(t) && t == TextTree("0") && env.parse("0") == Fin(0.0)
    ensures CompareRel(t, Program(env), true, VSet({XElem(2)}), VBool(true)) && !CompareRel(t, Standard(env), true, VSet({XElem(2)}), VBool(true))
  {
    assert StringValue(t, XElem(2)) == "0";
    assert NumberOf(t, Program(env), XElem(2)) == Fin(0.0);
  }
}
