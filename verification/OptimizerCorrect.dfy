/** Optimising an expression never changes its value. */
module OptimizerCorrect {
  import opened Sequences
  import opened XmlTree
  import opened Axes
  import opened Steps
  import opened XPathSyntax
  import opened XPathSemantics
  import opened Optimizer

  // Position and size matter only to expressions that are not posinv.

  /** A node set never depends on the position or size of its context, as id() is empty. */
  lemma {:induction false} SetIgnoresPosition(t: Tree, env: Env, s: SetExpr, c: Ctx, d: Ctx)
    requires Wf(t) && env.quirks.noIds && c.n == d.n
    ensures EvalSet(t, env, s, c) == EvalSet(t, env, s, d)
  {
    match s
    case Union(l, r) =>
      SetIgnoresPosition(t, env, l, c, d);
      SetIgnoresPosition(t, env, r, c, d);
    case Filter(inner, _, _) =>
      SetIgnoresPosition(t, env, inner, c, d);
    case Step(base, _, _, _) =>
      if base.From? {
        SetIgnoresPosition(t, env, base.s, c, d);
      }
    case _ =>
  }

  lemma {:induction false} PosinvIgnoresPosition(t: Tree, env: Env, e: Expr, c: Ctx, d: Ctx)
    requires Wf(t) && env.quirks.noIds && c.n == d.n && PosinvExpr(e)
    ensures Eval(t, env, e, c) == Eval(t, env, e, d)
  {
    match e
    case OfNodes(s) => SetIgnoresPosition(t, env, s, c, d);
    case OfSet(_, s) => SetIgnoresPosition(t, env, s, c, d);
    case One(_, a) => PosinvIgnoresPosition(t, env, a, c, d);
    case Two(_, l, r) =>
      PosinvIgnoresPosition(t, env, l, c, d);
      PosinvIgnoresPosition(t, env, r, c, d);
    case Concat(a, rest) =>
      PosinvIgnoresPosition(t, env, a, c, d);
      PosinvIgnorePosition(t, env, rest, c, d);
    case Translate(a, from, to) =>
      PosinvIgnoresPosition(t, env, a, c, d);
      PosinvIgnoresPosition(t, env, from, c, d);
      PosinvIgnoresPosition(t, env, to, c, d);
    case Substring3(a, start, length) =>
      PosinvIgnoresPosition(t, env, a, c, d);
      PosinvIgnoresPosition(t, env, start, c, d);
      PosinvIgnoresPosition(t, env, length, c, d);
    case OptTranslateTable(a, _) => PosinvIgnoresPosition(t, env, a, c, d);
    case OptCompareAttribute(_, v) => PosinvIgnoresPosition(t, env, v, c, d);
    case _ =>
  }

  lemma {:induction false} PosinvIgnorePosition(t: Tree, env: Env, es: Exprs, c: Ctx, d: Ctx)
    requires Wf(t) && env.quirks.noIds && c.n == d.n && PosinvExprs(es)
    ensures EvalConcat(t, env, es, c) == EvalConcat(t, env, es, d)
  {
    if es.ECons? {
      PosinvIgnoresPosition(t, env, es.e, c, d);
      PosinvIgnorePosition(t, env, es.es, c, d);
    }
  }

  // Predicates without positions keep exactly the nodes at which they hold.

  ghost predicate HoldsAt(t: Tree, env: Env, p: Expr, x: XNode)
    requires Wf(t)
  {
    Holds(t, env, p, Ctx(x, 1, 1))
  }

  ghost predicate AllHold(t: Tree, env: Env, preds: Preds, x: XNode)
    requires Wf(t)
  {
    preds.PCons? ==> HoldsAt(t, env, preds.pred, x) && AllHold(t, env, preds.rest, x)
  }

  /** Every predicate of the list is marked posinv, and rightly so. */
  predicate PosinvPreds(preds: Preds) {
    preds.PCons? ==> !IsNumber(preds.pred) && PosinvExpr(preds.pred) && PosinvPreds(preds.rest)
  }

  lemma {:induction false} KeepPosinv(t: Tree, env: Env, p: Expr, s: seq<XNode>, i: nat, size: nat, x: XNode)
    requires Wf(t) && env.quirks.noIds && !IsNumber(p) && PosinvExpr(p)
    ensures x in Keep(t, env, p, s, i, size) <==> x in s && HoldsAt(t, env, p, x)
  {
    if s != [] {
      KeepPosinv(t, env, p, s[1..], i + 1, size, x);
      PosinvIgnoresPosition(t, env, p, Ctx(s[0], i + 1, size), Ctx(s[0], 1, 1));
      assert x in s <==> x == s[0] || x in s[1..];
    }
  }

  lemma {:induction false} ApplyPosinv(t: Tree, env: Env, preds: Preds, s: seq<XNode>, x: XNode)
    requires Wf(t) && env.quirks.noIds && PosinvPreds(preds)
    ensures x in ApplyPreds(t, env, preds, s) <==> x in s && AllHold(t, env, preds, x)
  {
    if preds.PCons? {
      var kept := Keep(t, env, preds.pred, s, 0, |s|);
      KeepPosinv(t, env, preds.pred, s, 0, |s|, x);
      ApplyPosinv(t, env, preds.rest, kept, x);
    }
  }

  // Which nodes a step without predicates selects.

  lemma {:induction false} PickedMembers(t: Tree, test: NodeTest, s: seq<Ref>, x: XNode)
    requires Wf(t)
    ensures x in Picked(t, test, s) <==> x.XElem? && x.n in s && x.n in t.node && NodePasses(test, t.node[x.n].info)
  {
    if s != [] {
      PickedMembers(t, test, s[1..], x);
      assert s == [s[0]] + s[1..];
    }
  }

  lemma AxisMembers(t: Tree, axis: Axis, n: Ref, m: Ref)
    requires Wf(t) && n in t.node
    ensures m in AxisNodes(t, axis, n) <==> m in t.node && OnAxis(t, axis, n, m)
  {
    var keep := m => m in t.node && OnAxis(t, axis, n, m);
    FilterMembers(Nodes(t), keep, m);
    ReverseMembers(Sequences.Filter(Nodes(t), keep), m);
    NodesAll(t);
  }

  lemma StepFromNode(t: Tree, axis: Axis, test: NodeTest, n: Ref, x: XNode)
    requires Wf(t) && n in t.node && axis != AttributeAxis
    ensures x in StepItems(t, axis, test, XElem(n)) <==>
            x.XElem? && x.n in t.node && OnAxis(t, axis, n, x.n) && NodePasses(test, t.node[x.n].info)
  {
    PickedMembers(t, test, AxisNodes(t, axis, n), x);
    if x.XElem? {
      AxisMembers(t, axis, n, x.n);
    }
  }

  predicate Fusible(axis: Axis) {
    axis in {Child, SelfAxis, Descendant, DescendantOrSelf}
  }

  function FusedAxis(axis: Axis): Axis {
    if axis == Child || axis == Descendant then Descendant else DescendantOrSelf
  }

  /** Going down in two steps reaches m exactly if one step does. */
  lemma TwoStepsDown(t: Tree, axis: Axis, n: Ref, m: Ref) returns (k: Ref)
    requires Wf(t) && n in t.node && m in t.node && Fusible(axis)
    ensures OnAxis(t, FusedAxis(axis), n, m) ==> k in t.node && Under(t, k, n) && OnAxis(t, axis, k, m)
    ensures forall j | j in t.node && Under(t, j, n) && OnAxis(t, axis, j, m) :: OnAxis(t, FusedAxis(axis), n, m)
  {
    k := if axis == Child then t.node[m].parent else if axis == SelfAxis then m else n;
    if axis == Child && OnAxis(t, Descendant, n, m) {
      assert Under(t, Parent(t, m), n);
    }
    forall j | j in t.node && Under(t, j, n) && OnAxis(t, axis, j, m) ensures OnAxis(t, FusedAxis(axis), n, m) {
      StepDown(t, axis, n, j, m);
    }
  }

  lemma StepDown(t: Tree, axis: Axis, n: Ref, j: Ref, m: Ref)
    requires Wf(t) && n in t.node && m in t.node && j in t.node && Fusible(axis)
    requires Under(t, j, n) && OnAxis(t, axis, j, m)
    ensures OnAxis(t, FusedAxis(axis), n, m)
  {
    if axis == Child {
      assert Parent(t, m) == j;
      UnderRank(t, j, n);
    } else {
      UnderTransitive(t, m, j, n);
      UnderRank(t, m, j);
      UnderRank(t, j, n);
    }
  }

  /** A step below descendant-or-self::node() selects what the fused step selects. */
  lemma FusedFromNode(t: Tree, axis: Axis, test: NodeTest, n: Ref, x: XNode)
    requires Wf(t) && n in t.node && Fusible(axis)
    ensures x in StepItems(t, FusedAxis(axis), test, XElem(n)) <==>
            exists z :: z in StepItems(t, DescendantOrSelf, TypeNode, XElem(n)) && x in StepItems(t, axis, test, z)
  {
    StepFromNode(t, FusedAxis(axis), test, n, x);
    if x.XElem? && x.n in t.node {
      var k := TwoStepsDown(t, axis, n, x.n);
      StepFromNode(t, DescendantOrSelf, TypeNode, n, XElem(k));
      if k in t.node {
        StepFromNode(t, axis, test, k, x);
      }
    }
    forall z | z in StepItems(t, DescendantOrSelf, TypeNode, XElem(n)) && x in StepItems(t, axis, test, z)
      ensures x in StepItems(t, FusedAxis(axis), test, XElem(n))
    {
      StepFromNode(t, DescendantOrSelf, TypeNode, n, z);
      StepFromNode(t, axis, test, z.n, x);
      StepDown(t, axis, n, z.n, x.n);
    }
  }

  lemma FusedFromAny(t: Tree, axis: Axis, test: NodeTest, w: XNode, x: XNode)
    requires Wf(t) && Fusible(axis)
    ensures x in StepItems(t, FusedAxis(axis), test, w) <==>
            exists z :: z in StepItems(t, DescendantOrSelf, TypeNode, w) && x in StepItems(t, axis, test, z)
  {
    if Has(t, w) {
      if w.XElem? {
        FusedFromNode(t, axis, test, w.n, x);
      } else {
        var own := StepItems(t, DescendantOrSelf, TypeNode, w);
        assert own == SelfAttr(t, TypeNode, w.a, w.p);
        if own != [] {
          assert own[0] == w;
        }
      }
    }
  }

  lemma FuseSame(t: Tree, env: Env, base: Base, axis: Axis, test: NodeTest, preds: Preds, c: Ctx)
    requires Wf(t) && env.quirks.noIds && (AllPosinv(preds) ==> PosinvPreds(preds))
    ensures EvalSet(t, env, Fuse(base, axis, test, preds), c) == EvalSet(t, env, Step(base, axis, test, preds), c)
  {
    if Fuse(base, axis, test, preds) != Step(base, axis, test, preds) {
      var inner := base.s.base;
      var fused := Step(inner, FusedAxis(axis), test, preds);
      assert Fuse(base, axis, test, preds) == fused;
      forall x ensures x in EvalSet(t, env, fused, c) <==> x in EvalSet(t, env, Step(base, axis, test, preds), c) {
        FuseSameAt(t, env, inner, axis, test, preds, c, x);
      }
    }
  }

  lemma SelectedPosinv(t: Tree, env: Env, axis: Axis, test: NodeTest, preds: Preds, w: XNode, x: XNode)
    requires Wf(t) && env.quirks.noIds && PosinvPreds(preds) && axis != AttributeAxis
    ensures x in Selected(t, env, axis, test, preds, w) <==> x in StepItems(t, axis, test, w) && AllHold(t, env, preds, x)
  {
    ApplyPosinv(t, env, preds, StepItems(t, axis, test, w), x);
  }

  lemma SelectedTwice(t: Tree, env: Env, axis: Axis, test: NodeTest, preds: Preds, w: XNode, x: XNode) returns (z: XNode)
    requires Wf(t) && env.quirks.noIds && PosinvPreds(preds) && Fusible(axis)
    ensures x in Selected(t, env, FusedAxis(axis), test, preds, w) ==>
            z in Selected(t, env, DescendantOrSelf, TypeNode, PNil, w) && x in Selected(t, env, axis, test, preds, z)
  {
    FusedFromAny(t, axis, test, w, x);
    SelectedPosinv(t, env, FusedAxis(axis), test, preds, w, x);
    z := if x in Selected(t, env, FusedAxis(axis), test, preds, w) then
      (var y :| y in StepItems(t, DescendantOrSelf, TypeNode, w) && x in StepItems(t, axis, test, y); y) else XNull;
    SelectedPosinv(t, env, axis, test, preds, z, x);
  }

  lemma SelectedBack(t: Tree, env: Env, axis: Axis, test: NodeTest, preds: Preds, w: XNode, z: XNode, x: XNode)
    requires Wf(t) && env.quirks.noIds && PosinvPreds(preds) && Fusible(axis)
    requires z in Selected(t, env, DescendantOrSelf, TypeNode, PNil, w) && x in Selected(t, env, axis, test, preds, z)
    ensures x in Selected(t, env, FusedAxis(axis), test, preds, w)
  {
    SelectedPosinv(t, env, axis, test, preds, z, x);
    FusedFromAny(t, axis, test, w, x);
    SelectedPosinv(t, env, FusedAxis(axis), test, preds, w, x);
  }

  /** What a step selects from a node of its base is in its set. */
  lemma StepTakes(t: Tree, env: Env, base: Base, axis: Axis, test: NodeTest, preds: Preds, c: Ctx, w: XNode, x: XNode)
    requires Wf(t) && w in EvalBase(t, env, base, c) && x in Selected(t, env, axis, test, preds, w)
    ensures x in EvalSet(t, env, Step(base, axis, test, preds), c)
  {
  }

  /** What is in the set of a step is selected from some node of its base. */
  lemma StepFrom(t: Tree, env: Env, base: Base, axis: Axis, test: NodeTest, preds: Preds, c: Ctx, x: XNode) returns (w: XNode)
    requires Wf(t) && x in EvalSet(t, env, Step(base, axis, test, preds), c)
    ensures w in EvalBase(t, env, base, c) && x in Selected(t, env, axis, test, preds, w)
  {
    w :| w in EvalBase(t, env, base, c) && x in Selected(t, env, axis, test, preds, w);
  }

  lemma FuseSameAt(t: Tree, env: Env, inner: Base, axis: Axis, test: NodeTest, preds: Preds, c: Ctx, x: XNode)
    requires Wf(t) && env.quirks.noIds && PosinvPreds(preds) && Fusible(axis)
    ensures x in EvalSet(t, env, Step(inner, FusedAxis(axis), test, preds), c) <==>
            x in EvalSet(t, env, Step(From(Step(inner, DescendantOrSelf, TypeNode, PNil)), axis, test, preds), c)
  {
    var below := Step(inner, DescendantOrSelf, TypeNode, PNil);
    assert EvalBase(t, env, From(below), c) == EvalSet(t, env, below, c);
    if x in EvalSet(t, env, Step(inner, FusedAxis(axis), test, preds), c) {
      var w := StepFrom(t, env, inner, FusedAxis(axis), test, preds, c, x);
      var z := SelectedTwice(t, env, axis, test, preds, w, x);
      StepTakes(t, env, inner, DescendantOrSelf, TypeNode, PNil, c, w, z);
      StepTakes(t, env, From(below), axis, test, preds, c, z, x);
    }
    if x in EvalSet(t, env, Step(From(below), axis, test, preds), c) {
      var z := StepFrom(t, env, From(below), axis, test, preds, c, x);
      var w := StepFrom(t, env, inner, DescendantOrSelf, TypeNode, PNil, c, z);
      SelectedBack(t, env, axis, test, preds, w, z, x);
      StepTakes(t, env, inner, FusedAxis(axis), test, preds, c, w, x);
    }
  }

  // The other rewrites.

  /** Expressions of type number evaluate to numbers. */
  lemma TypeTrue(t: Tree, env: Env, e: Expr, c: Ctx)
    requires Wf(t)
    ensures TypeOf(e) == TScalar(TNum) <==> Eval(t, env, e, c).VNum?
    ensures TypeOf(e) == TScalar(TStr) <==> Eval(t, env, e, c).VStr?
    ensures TypeOf(e) == TSet <==> Eval(t, env, e, c).VSet?
  {
    match e
    case Zero(f) => match f { case _ => }
    case One(f, a) => match f { case _ => }
    case OfSet(f, s) => match f { case _ => }
    case Two(f, l, r) => TypeTwo(t, env, f, l, r, c);
    case _ =>
  }

  lemma {:induction false} TypeTwo(t: Tree, env: Env, f: TwoFun, l: Expr, r: Expr, c: Ctx)
    requires Wf(t)
    ensures TypeOf(Two(f, l, r)) == TScalar(TNum) <==> Eval(t, env, Two(f, l, r), c).VNum?
    ensures TypeOf(Two(f, l, r)) == TScalar(TStr) <==> Eval(t, env, Two(f, l, r), c).VStr?
    ensures TypeOf(Two(f, l, r)) == TSet <==> Eval(t, env, Two(f, l, r), c).VSet?
  {
    match f { case _ => }
  }

  lemma DropPositionSame(t: Tree, env: Env, p: Expr, c: Ctx)
    requires Wf(t)
    ensures Holds(t, env, DropPosition(p), c) == Holds(t, env, p, c)
  {
    if DropPosition(p) != p {
      TypeTrue(t, env, p.right, c);
      assert Eval(t, env, p.left, c) == VNum(Fin(c.pos as real));
      assert Holds(t, env, p, c) == NumCmp(true, Fin(c.pos as real), ToNum(t, env, Eval(t, env, p.right, c)));
    }
  }

  lemma {:induction false} TableSame(s: string, from: string, to: string)
    requires TableFits(from, to)
    ensures TranslateByTable(s, TableFor(from, to)) == TranslateText(s, from, to)
  {
    if s != "" {
      TableSame(s[1..], from, to);
      TableAt(s[0], from, to);
    }
  }

  lemma TableAt(c: char, from: string, to: string)
    requires TableFits(from, to)
    ensures c as int >= 128 ==> c !in from
    ensures c as int < 128 && c !in from ==> TableFor(from, to)[c as int] == c as nat
    ensures c in from ==> var e := TableFor(from, to)[c as int];
      if IndexOf(from, c) < |to| then e < 128 && e as char == to[IndexOf(from, c)] else e == 128
  {
  }

  /** Some attribute of that name has that value. */
  ghost predicate SomeNamedIs(s: seq<Attr>, name: string, value: string) {
    exists i :: 0 <= i < |s| && s[i].name == name && s[i].value == value
  }

  /** Attributes of the same name have the same value. */
  ghost predicate NamesAgree(s: seq<Attr>, name: string) {
    forall i, j | 0 <= i < |s| && 0 <= j < |s| && s[i].name == name && s[j].name == name :: s[i].value == s[j].value
  }

  /** In each element, attributes of the same name have the same value; namespace declarations do not count. */
  ghost predicate AttributesAgree(t: Tree) {
    forall n, name {:trigger NamesAgree(t.node[n].attrs, name)} | n in t.node && IsXPathAttribute(name) :: NamesAgree(t.node[n].attrs, name)
  }

  /** The direct look-up of an attribute is right: only the first one of a name counts, or all of them agree. */
  ghost predicate OptimizerFits(t: Tree, env: Env) {
    env.quirks.noIds && (env.quirks.firstNamed || AttributesAgree(t))
  }

  /** Looking at the first attribute of a name is right for every value exactly if all of that name agree. */
  lemma {:induction false} FirstNamedExact(s: seq<Attr>, name: string)
    ensures (forall v :: FirstNamedIs(s, name, v) == SomeNamedIs(s, name, v)) <==> NamesAgree(s, name)
  {
    if NamesAgree(s, name) {
      forall v ensures FirstNamedIs(s, name, v) == SomeNamedIs(s, name, v) {
        FirstNamedSame(s, name, v);
      }
    }
    if forall v :: FirstNamedIs(s, name, v) == SomeNamedIs(s, name, v) {
      forall i, j | 0 <= i < |s| && 0 <= j < |s| && s[i].name == name && s[j].name == name ensures s[i].value == s[j].value {
        assert SomeNamedIs(s, name, s[i].value) && SomeNamedIs(s, name, s[j].value);
        FirstNamedOnce(s, name, s[i].value, s[j].value);
      }
    }
  }

  lemma {:induction false} FirstNamedOnce(s: seq<Attr>, name: string, v: string, w: string)
    requires FirstNamedIs(s, name, v) && FirstNamedIs(s, name, w)
    ensures v == w
  {
    if s[0].name != name {
      FirstNamedOnce(s[1..], name, v, w);
    }
  }

  lemma {:induction false} FirstNamedSame(s: seq<Attr>, name: string, v: string)
    requires NamesAgree(s, name)
    ensures FirstNamedIs(s, name, v) == SomeNamedIs(s, name, v)
  {
    if s != [] {
      FirstNamedSame(s[1..], name, v);
      if SomeNamedIs(s, name, v) {
        var i :| 0 <= i < |s| && s[i].name == name && s[i].value == v;
        assert i > 0 ==> s[1..][i - 1] == s[i];
      }
      if SomeNamedIs(s[1..], name, v) {
        var i :| 0 <= i < |s[1..]| && s[1..][i].name == name && s[1..][i].value == v;
        assert s[i + 1] == s[1..][i];
      }
    }
  }

  lemma {:induction false} PickedAttrsMembers(test: NodeTest, s: seq<Attr>, p: Ref, x: XNode)
    ensures x in PickedAttrs(test, s, p) <==> exists i :: 0 <= i < |s| && x == XAttr(s[i].id, p) && AttrPasses(test, s[i])
  {
    if s != [] {
      PickedAttrsMembers(test, s[1..], p, x);
      forall i | 0 < i < |s| ensures s[i] == s[1..][i - 1] { }
      if x in PickedAttrs(test, s[1..], p) {
        var i :| 0 <= i < |s[1..]| && x == XAttr(s[1..][i].id, p) && AttrPasses(test, s[1..][i]);
        assert s[i + 1] == s[1..][i];
      }
    }
  }

  /** The first attribute of a name is the first one that a step by this name finds. */
  lemma {:induction false} FirstPicked(s: seq<Attr>, p: Ref, name: string, v: string)
    requires IsXPathAttribute(name)
    ensures FirstNamedIs(s, name, v) <==>
            PickedAttrs(NameTest(name), s, p) != [] && exists i :: 0 <= i < |s| && FindNamed(s, name) == i && s[i].value == v
    ensures PickedAttrs(NameTest(name), s, p) != [] ==>
            FindNamed(s, name) < |s| && PickedAttrs(NameTest(name), s, p)[0] == XAttr(s[FindNamed(s, name)].id, p)
  {
    if s != [] && s[0].name != name {
      FirstPicked(s[1..], p, name, v);
    }
  }

  function FindNamed(s: seq<Attr>, name: string): (i: nat)
    ensures i <= |s|
  {
    if s == [] || s[0].name == name then 0 else 1 + FindNamed(s[1..], name)
  }

  lemma CompareFirstSame(t: Tree, env: Env, x: XNode, name: string, v: string)
    requires Wf(t) && env.quirks.firstNamed
    ensures FirstAttributeIs(t, x, name, v) <==>
            exists y :: y in Reached(t, env, AttributeAxis, NameTest(name), x) && StringValue(t, y) == v
  {
    if x.XElem? && x.n in t.node {
      var s := t.node[x.n].attrs;
      var items := StepItems(t, AttributeAxis, NameTest(name), x);
      if IsXPathAttribute(name) {
        FirstPicked(s, x.n, name, v);
        var i := FindNamed(s, name);
        if items != [] {
          AttrValue(t, x.n, i);
          assert Reached(t, env, AttributeAxis, NameTest(name), x) == [items[0]];
          assert items[0] in Reached(t, env, AttributeAxis, NameTest(name), x);
        }
      } else if items != [] {
        PickedAttrsMembers(NameTest(name), s, x.n, items[0]);
        assert false;
      }
    }
  }

  lemma CompareAttributeSame(t: Tree, env: Env, x: XNode, name: string, v: string)
    requires Wf(t) && OptimizerFits(t, env)
    ensures FirstAttributeIs(t, x, name, v) <==>
            exists y :: y in Reached(t, env, AttributeAxis, NameTest(name), x) && StringValue(t, y) == v
  {
    if env.quirks.firstNamed {
      CompareFirstSame(t, env, x, name, v);
    } else {
      CompareAllSame(t, x, name, v);
    }
  }

  lemma CompareAllSame(t: Tree, x: XNode, name: string, v: string)
    requires Wf(t) && AttributesAgree(t)
    ensures FirstAttributeIs(t, x, name, v) <==>
            exists y :: y in StepItems(t, AttributeAxis, NameTest(name), x) && StringValue(t, y) == v
  {
    if x.XElem? && x.n in t.node {
      var s := t.node[x.n].attrs;
      if IsXPathAttribute(name) {
        FirstNamedSame(s, name, v);
      }
      if IsXPathAttribute(name) && SomeNamedIs(s, name, v) {
        var i :| 0 <= i < |s| && s[i].name == name && s[i].value == v;
        AttrValue(t, x.n, i);
        PickedAttrsMembers(NameTest(name), s, x.n, XAttr(s[i].id, x.n));
      }
      forall y | y in StepItems(t, AttributeAxis, NameTest(name), x) && StringValue(t, y) == v
        ensures IsXPathAttribute(name) && SomeNamedIs(s, name, v)
      {
        PickedAttrsMembers(NameTest(name), s, x.n, y);
        var i :| 0 <= i < |s| && y == XAttr(s[i].id, x.n) && AttrPasses(NameTest(name), s[i]);
        AttrValue(t, x.n, i);
      }
    }
  }

  lemma AttrValue(t: Tree, n: Ref, i: nat)
    requires Wf(t) && n in t.node && i < |t.node[n].attrs|
    ensures Has(t, XAttr(t.node[n].attrs[i].id, n)) && StringValue(t, XAttr(t.node[n].attrs[i].id, n)) == t.node[n].attrs[i].value
  {
    assert AttrWf(t, n, i);
  }

  lemma FromContextIs(t: Tree, env: Env, axis: Axis, test: NodeTest, c: Ctx, y: XNode)
    requires Wf(t)
    ensures y in EvalSet(t, env, Step(FromContext, axis, test, PNil), c) <==> y in Reached(t, env, axis, test, c.n)
  {
    assert Selected(t, env, axis, test, PNil, c.n) == Reached(t, env, axis, test, c.n);
    assert EvalBase(t, env, FromContext, c) == {c.n};
    if y in EvalSet(t, env, Step(FromContext, axis, test, PNil), c) {
      var w := StepFrom(t, env, FromContext, axis, test, PNil, c, y);
    }
    if y in Reached(t, env, axis, test, c.n) {
      StepTakes(t, env, FromContext, axis, test, PNil, c, c.n, y);
    }
  }

  lemma CompareStepSame(t: Tree, env: Env, name: string, v: string, c: Ctx)
    requires Wf(t) && OptimizerFits(t, env)
    ensures FirstAttributeIs(t, c.n, name, v) <==>
            exists y | y in EvalSet(t, env, Step(FromContext, AttributeAxis, NameTest(name), PNil), c) :: StrCmp(true, v, StringValue(t, y))
  {
    CompareAttributeSame(t, env, c.n, name, v);
    var items := Reached(t, env, AttributeAxis, NameTest(name), c.n);
    forall y ensures y in EvalSet(t, env, Step(FromContext, AttributeAxis, NameTest(name), PNil), c) <==> y in items {
      FromContextIs(t, env, AttributeAxis, NameTest(name), c, y);
    }
  }

  lemma {:induction false} FuseCompareSame(t: Tree, env: Env, f: TwoFun, l: Expr, r: Expr, c: Ctx)
    requires Wf(t) && OptimizerFits(t, env)
    ensures Eval(t, env, FuseCompare(f, l, r), c) == Eval(t, env, Two(f, l, r), c)
  {
    if FuseCompare(f, l, r) != Two(f, l, r) {
      var name := l.s.test.name;
      var v := if r.StrConst? then r.str else env.strs(r.v);
      assert Eval(t, env, r, c) == VStr(v);
      var xs := EvalSet(t, env, l.s, c);
      assert Eval(t, env, l, c) == VSet(xs);
      assert FirstAttributeIs(t, c.n, name, v) <==> exists y | y in xs :: StrCmp(true, v, StringValue(t, y)) by {
        CompareStepSame(t, env, name, v, c);
      }
    }
  }

  // The whole rewriter.

  lemma {:induction false} KeepSame(t: Tree, env: Env, p: Expr, q: Expr, s: seq<XNode>, i: nat, size: nat)
    requires Wf(t) && forall d :: Holds(t, env, p, d) == Holds(t, env, q, d)
    ensures Keep(t, env, p, s, i, size) == Keep(t, env, q, s, i, size)
  {
    if s != [] {
      KeepSame(t, env, p, q, s[1..], i + 1, size);
    }
  }

  lemma {:induction false} OptPredSame(t: Tree, env: Env, p: Expr)
    requires Wf(t) && OptimizerFits(t, env)
    ensures forall d :: Holds(t, env, DropPosition(OptExpr(p)), d) == Holds(t, env, p, d)
    decreases p, 1
  {
    forall d ensures Holds(t, env, DropPosition(OptExpr(p)), d) == Holds(t, env, p, d) {
      OptExprSame(t, env, p, d);
      DropPositionSame(t, env, OptExpr(p), d);
      TypeTrue(t, env, p, d);
      TypeTrue(t, env, OptExpr(p), d);
    }
  }

  lemma {:induction false} OptPredsSame(t: Tree, env: Env, preds: Preds, s: seq<XNode>)
    requires Wf(t) && OptimizerFits(t, env)
    ensures ApplyPreds(t, env, OptPreds(preds), s) == ApplyPreds(t, env, preds, s)
    decreases preds, 1
  {
    if preds.PCons? {
      OptPredSame(t, env, preds.pred);
      KeepSame(t, env, DropPosition(OptExpr(preds.pred)), preds.pred, s, 0, |s|);
      OptPredsSame(t, env, preds.rest, Keep(t, env, preds.pred, s, 0, |s|));
    }
  }

  lemma {:induction false} OptPredsPosinv(preds: Preds)
    ensures AllPosinv(OptPreds(preds)) ==> PosinvPreds(OptPreds(preds))
  {
    if preds.PCons? {
      OptPredsPosinv(preds.rest);
    }
  }

  /** Optimising a node set expression does not change the set, in any context. */
  lemma {:induction false} OptSetSame(t: Tree, env: Env, s: SetExpr, c: Ctx)
    requires Wf(t) && OptimizerFits(t, env)
    ensures EvalSet(t, env, OptSet(s), c) == EvalSet(t, env, s, c)
    decreases s, 1
  {
    match s
    case Union(l, r) =>
      OptSetSame(t, env, l, c);
      OptSetSame(t, env, r, c);
    case Filter(inner, p, _) =>
      OptSetSame(t, env, inner, c);
      OptPredSame(t, env, p);
      var xs := InOrder(t, EvalSet(t, env, inner, c));
      KeepSame(t, env, DropPosition(OptExpr(p)), p, xs, 0, |xs|);
    case Step(base, axis, test, preds) =>
      OptPredsPosinv(preds);
      FuseSame(t, env, OptBase(base), axis, test, OptPreds(preds), c);
      OptStepSame(t, env, base, axis, test, preds, c);
    case _ =>
  }

  lemma {:induction false} OptStepSame(t: Tree, env: Env, base: Base, axis: Axis, test: NodeTest, preds: Preds, c: Ctx)
    requires Wf(t) && OptimizerFits(t, env)
    ensures EvalSet(t, env, Step(OptBase(base), axis, test, OptPreds(preds)), c) == EvalSet(t, env, Step(base, axis, test, preds), c)
    decreases Step(base, axis, test, preds), 0
  {
    if base.From? {
      OptSetSame(t, env, base.s, c);
    }
    forall x ensures Selected(t, env, axis, test, OptPreds(preds), x) == Selected(t, env, axis, test, preds, x) {
      OptPredsSame(t, env, preds, Reached(t, env, axis, test, x));
    }
  }

  /** Optimising an expression never changes its value: any document, context node, position and size. */
  lemma {:induction false} OptExprSame(t: Tree, env: Env, e: Expr, c: Ctx)
    requires Wf(t) && OptimizerFits(t, env)
    ensures Eval(t, env, OptExpr(e), c) == Eval(t, env, e, c)
    decreases e, 0
  {
    match e
    case OfNodes(s) => OptSetSame(t, env, s, c);
    case One(_, a) => OptExprSame(t, env, a, c);
    case OfSet(_, s) => OptSetSame(t, env, s, c);
    case Two(f, l, r) =>
      OptExprSame(t, env, l, c);
      OptExprSame(t, env, r, c);
      FuseCompareSame(t, env, f, OptExpr(l), OptExpr(r), c);
    case Concat(a, rest) =>
      OptExprSame(t, env, a, c);
      OptExprsSame(t, env, rest, c);
    case Translate(a, from, to) =>
      OptExprSame(t, env, a, c);
      OptExprSame(t, env, from, c);
      OptExprSame(t, env, to, c);
      FuseTranslateSame(t, env, OptExpr(a), OptExpr(from), OptExpr(to), c);
    case Substring3(a, start, length) =>
      OptExprSame(t, env, a, c);
      OptExprSame(t, env, start, c);
      OptExprSame(t, env, length, c);
    case OptTranslateTable(a, _) => OptExprSame(t, env, a, c);
    case OptCompareAttribute(_, v) => OptExprSame(t, env, v, c);
    case _ =>
  }

  lemma FuseTranslateSame(t: Tree, env: Env, a: Expr, from: Expr, to: Expr, c: Ctx)
    requires Wf(t)
    ensures Eval(t, env, FuseTranslate(a, from, to), c) == Eval(t, env, Translate(a, from, to), c)
  {
    if FuseTranslate(a, from, to) != Translate(a, from, to) {
      TableSame(ToStr(t, env, Eval(t, env, a, c)), from.str, to.str);
    }
  }

  lemma {:induction false} OptExprsSame(t: Tree, env: Env, es: Exprs, c: Ctx)
    requires Wf(t) && OptimizerFits(t, env)
    ensures EvalConcat(t, env, OptExprs(es), c) == EvalConcat(t, env, es, c)
    decreases es, 0
  {
    if es.ECons? {
      OptExprSame(t, env, es.e, c);
      OptExprsSame(t, env, es.es, c);
    }
  }

  // When attributes of one name disagree, the attribute shortcut gives a different answer.

  /** @name = 'v' */
  function ByName(name: string, v: string): Expr {
    Two(Equal, OfNodes(Step(FromContext, AttributeAxis, NameTest(name), PNil)), StrConst(v))
  }

  lemma ByNameOptimised(name: string, v: string)
    ensures OptExpr(ByName(name, v)) == OptCompareAttribute(name, StrConst(v))
  {
    var step := Step(FromContext, AttributeAxis, NameTest(name), PNil);
    assert OptSet(step) == Fuse(OptBase(FromContext), AttributeAxis, NameTest(name), OptPreds(PNil)) == step;
    assert OptExpr(OfNodes(step)) == OfNodes(step);
  }

  lemma {:induction false} ByNameMeans(t: Tree, env: Env, n: Ref, name: string, v: string)
    requires Wf(t) && !env.quirks.firstNamed && n in t.node && IsXPathAttribute(name)
    ensures Eval(t, env, ByName(name, v), Ctx(XElem(n), 1, 1)) == VBool(SomeNamedIs(t.node[n].attrs, name, v))
  {
    var step := Step(FromContext, AttributeAxis, NameTest(name), PNil);
    var c, s := Ctx(XElem(n), 1, 1), t.node[n].attrs;
    var xs := EvalSet(t, env, step, c);
    if SomeNamedIs(s, name, v) {
      var i :| 0 <= i < |s| && s[i].name == name && s[i].value == v;
      var y := XAttr(s[i].id, n);
      AttrValue(t, n, i);
      PickedAttrsMembers(NameTest(name), s, n, y);
      FromContextIs(t, env, AttributeAxis, NameTest(name), c, y);
      assert y in xs && StrCmp(true, v, StringValue(t, y));
    }
    forall y | y in xs && StrCmp(true, v, StringValue(t, y)) ensures SomeNamedIs(s, name, v) {
      FromContextIs(t, env, AttributeAxis, NameTest(name), c, y);
      PickedAttrsMembers(NameTest(name), s, n, y);
      var i :| 0 <= i < |s| && y == XAttr(s[i].id, n) && AttrPasses(NameTest(name), s[i]);
      AttrValue(t, n, i);
    }
    assert Eval(t, env, OfNodes(step), c) == VSet(xs);
  }

  /** Every expression keeps its value in every context. */
  ghost predicate OptimizerRight(t: Tree, env: Env)
    requires Wf(t)
  {
    forall e, c :: Eval(t, env, OptExpr(e), c) == Eval(t, env, e, c)
  }

  lemma DisagreementShows(t: Tree, env: Env, n: Ref, name: string)
    requires Wf(t) && n in t.node && IsXPathAttribute(name)
    requires OptimizerRight(t, env) && !env.quirks.firstNamed
    ensures NamesAgree(t.node[n].attrs, name)
  {
    forall v ensures FirstNamedIs(t.node[n].attrs, name, v) == SomeNamedIs(t.node[n].attrs, name, v) {
      var c := Ctx(XElem(n), 1, 1);
      ByNameMeans(t, env, n, name, v);
      ByNameOptimised(name, v);
      assert Eval(t, env, OptExpr(ByName(name, v)), c) == Eval(t, env, ByName(name, v), c);
      assert Eval(t, env, OptCompareAttribute(name, StrConst(v)), c) == VBool(FirstAttributeIs(t, XElem(n), name, v));
    }
    FirstNamedExact(t.node[n].attrs, name);
  }

  /** Under the program's reading the optimiser is always right, under the standard's exactly if the attributes of each element agree. */
  lemma OptimizerExact(t: Tree, env: Env)
    requires Wf(t) && env.quirks.noIds
    ensures OptimizerRight(t, env) <==> env.quirks.firstNamed || AttributesAgree(t)
  {
    if OptimizerFits(t, env) {
      forall e, c ensures Eval(t, env, OptExpr(e), c) == Eval(t, env, e, c) {
        OptExprSame(t, env, e, c);
      }
    }
    if OptimizerRight(t, env) && !env.quirks.firstNamed {
      forall n, name {:trigger NamesAgree(t.node[n].attrs, name)} | n in t.node && IsXPathAttribute(name) ensures NamesAgree(t.node[n].attrs, name) {
        DisagreementShows(t, env, n, name);
      }
    }
  }
}
