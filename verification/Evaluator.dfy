/**
 * The evaluator: it pushes into lists, stops as early as the caller allows, keeps order tags
 * and takes short cuts that the optimiser has marked, and still computes the meaning.
 */
module Evaluator {
  import opened Sequences
  import opened XmlTree
  import opened Axes
  import opened Steps
  import opened DocumentOrder
  import opened NodeSets
  import opened DocumentSets
  import opened XPathSyntax
  import opened XPathSemantics
  import opened Optimizer
  import opened OptimizerCorrect
  import opened EvalFacts
  import opened TextFunctions
  import opened StringFunctions

  /** How much of a node set the caller needs. */
  datatype Mode = All | Any | First

  predicate EvalOnce(ty: SetType, mode: Mode) {
    if ty == Sorted then mode != All else mode == Any
  }

  /** The list is good enough for the mode: complete, or not empty, or with the first node. */
  ghost predicate GoodFor(t: Tree, mode: Mode, s: seq<XNode>, xs: set<XNode>)
    requires Wf(t)
  {
    && (forall x | x in s :: x in xs)
    && match mode
       case All => forall x | x in xs :: x in s
       case Any => xs != {} ==> s != []
       case First => xs != {} ==> FirstOf(t, xs) in s
  }

  /** Attribute names are unique in each element, leaving namespace declarations aside. */
  ghost predicate NamesUnique(t: Tree) {
    forall n, i, j {:trigger t.node[n].attrs[i], t.node[n].attrs[j]} |
      n in t.node && 0 <= i < j < |t.node[n].attrs| && IsXPathAttribute(t.node[n].attrs[i].name) ::
      t.node[n].attrs[i].name != t.node[n].attrs[j].name
  }

  /** The environment has the program's way, except that stopping at the first attribute of a name may be all there is. */
  ghost predicate AsProgrammed(t: Tree, env: Env) {
    (env.quirks.firstNamed || NamesUnique(t)) && env.quirks.noAttributeLang && env.quirks.nodeByNode && env.quirks.noIds
  }

  predicate CtxOk(t: Tree, c: Ctx)
    requires Wf(t)
  {
    c.n == XNull || Has(t, c.n)
  }

  /** With unique names, attribute::name selects at most one node. */
  lemma NamedAttributeOnce(t: Tree, name: string, x: XNode)
    requires Wf(t) && NamesUnique(t)
    ensures |StepItems(t, AttributeAxis, NameTest(name), x)| <= 1
  {
    if Has(t, x) && x.XElem? {
      var s := t.node[x.n].attrs;
      NamedOnce(t, x.n, name, 0);
      assert s[0..] == s;
    }
  }

  lemma {:induction false} NamedOnce(t: Tree, n: Ref, name: string, k: nat)
    requires Wf(t) && NamesUnique(t) && n in t.node && k <= |t.node[n].attrs|
    ensures |PickedAttrs(NameTest(name), t.node[n].attrs[k..], n)| <= 1
    decreases |t.node[n].attrs| - k
  {
    var s := t.node[n].attrs;
    if k < |s| {
      NamedOnce(t, n, name, k + 1);
      assert s[k..][0] == s[k] && s[k..][1..] == s[k + 1..];
      if AttrPasses(NameTest(name), s[k]) {
        NamedNone(t, n, name, k + 1);
      }
    }
  }

  lemma {:induction false} NamedNone(t: Tree, n: Ref, name: string, k: nat)
    requires Wf(t) && NamesUnique(t) && n in t.node && 0 < k <= |t.node[n].attrs|
    requires exists j :: 0 <= j < k && AttrPasses(NameTest(name), t.node[n].attrs[j])
    ensures PickedAttrs(NameTest(name), t.node[n].attrs[k..], n) == []
    decreases |t.node[n].attrs| - k
  {
    var s := t.node[n].attrs;
    if k < |s| {
      NamedNone(t, n, name, k + 1);
      assert s[k..][0] == s[k] && s[k..][1..] == s[k + 1..];
    }
  }

  // Predicates, in place: nodes that stay are moved down to the write position.

  lemma KeepNext(t: Tree, env: Env, p: Expr, s: seq<XNode>, k: nat, size: nat)
    requires Wf(t) && k < |s|
    ensures Holds(t, env, p, Ctx(s[k], k + 1, size)) ==> Keep(t, env, p, s[..k + 1], 0, size) == Keep(t, env, p, s[..k], 0, size) + [s[k]]
    ensures !Holds(t, env, p, Ctx(s[k], k + 1, size)) ==> Keep(t, env, p, s[..k + 1], 0, size) == Keep(t, env, p, s[..k], 0, size)
  {
    assert s[..k + 1] == s[..k] + [s[k]];
    KeepAppend(t, env, p, s[..k], [s[k]], 0, size);
    assert Keep(t, env, p, [], k + 1, size) == [];
  }

  /** Does the predicate accept this node at this position? */
  method Accepts(t: Tree, env: Env, p: Expr, c: Ctx) returns (b: bool)
    requires Wf(t) && EnvOk(t, env) && AsProgrammed(t, env) && SoundExpr(p) && CtxOk(t, c)
    ensures b == Holds(t, env, p, c)
    decreases p, 9, 0
  {
    if IsNumber(p) {
      var n := EvalNumber(t, env, p, c);
      b := NumEq(n, Fin(c.pos as real));
    } else {
      b := EvalBoolean(t, env, p, c);
    }
  }

  method ApplyPredicateEach(t: Tree, env: Env, ns0: seq<XNode>, first: nat, p: Expr, once: bool) returns (ns: seq<XNode>)
    requires Wf(t) && EnvOk(t, env) && AsProgrammed(t, env) && SoundExpr(p)
    requires first <= |ns0| && AllHas(t, ns0[first..])
    ensures ns == ns0[..first] + FirstIf(once, Keep(t, env, p, ns0[first..], 0, |ns0| - first))
    decreases p, 10, 0
  {
    ns := ns0;
    var last: nat := first;
    ghost var kept := [];
    ApplyingStart(t, env, p, ns0, first);
    for it: nat := first to |ns0|
      invariant Applying(t, env, p, ns0, ns, first, last, it, kept)
      invariant once ==> kept == []
    {
      var holds := false;
      ns, last, kept, holds := ApplyTo(t, env, p, ns0, ns, first, last, it, kept);
      if once && holds {
        ApplyingStop(t, env, p, ns0, ns, first, last, it + 1, kept);
        return ns[..last];
      }
    }
    ApplyingDone(t, env, p, ns0, ns, first, last, kept);
    ns := ns[..last];
  }

  /** One entry: it is moved down if the predicate accepts it. */
  method ApplyTo(t: Tree, env: Env, p: Expr, ghost ns0: seq<XNode>, was: seq<XNode>, first: nat, last0: nat, it: nat, ghost kept0: seq<XNode>)
    returns (ns: seq<XNode>, last: nat, ghost kept: seq<XNode>, holds: bool)
    requires Wf(t) && EnvOk(t, env) && AsProgrammed(t, env) && SoundExpr(p)
    requires first <= it < |ns0| && AllHas(t, ns0[first..]) && Applying(t, env, p, ns0, was, first, last0, it, kept0)
    ensures Applying(t, env, p, ns0, ns, first, last, it + 1, kept)
    ensures kept == if holds then kept0 + [was[it]] else kept0
    decreases p, 9, 1
  {
    ApplyingNext(t, env, p, ns0, was, first, last0, it, kept0);
    ns, last, kept := was, last0, kept0;
    holds := Accepts(t, env, p, Ctx(was[it], it - first + 1, |was| - first));
    if holds {
      kept := kept + [ns[it]];
      ns := ns[last := ns[it]];
      last := last + 1;
    }
  }

  /** kept is what the predicate keeps of the entries from first to it. */
  ghost predicate Applying(t: Tree, env: Env, p: Expr, ns0: seq<XNode>, ns: seq<XNode>, first: nat, last: nat, it: nat, kept: seq<XNode>)
    requires Wf(t)
  {
    && Compacting(ns0, ns, first, last, it, kept)
    && kept == Keep(t, env, p, ns0[first..][..it - first], 0, |ns0| - first)
  }

  lemma ApplyingStart(t: Tree, env: Env, p: Expr, ns0: seq<XNode>, first: nat)
    requires Wf(t) && first <= |ns0|
    ensures Applying(t, env, p, ns0, ns0, first, first, first, [])
  {
    assert ns0[first..][..0] == [];
  }

  lemma ApplyingNext(t: Tree, env: Env, p: Expr, ns0: seq<XNode>, ns: seq<XNode>, first: nat, last: nat, it: nat, kept: seq<XNode>)
    requires Wf(t) && it < |ns0| && Applying(t, env, p, ns0, ns, first, last, it, kept)
    ensures ns[it] in ns0[first..]
    ensures var c := Ctx(ns[it], it - first + 1, |ns0| - first);
      && (Holds(t, env, p, c) ==> Applying(t, env, p, ns0, ns[last := ns[it]], first, last + 1, it + 1, kept + [ns[it]]))
      && (!Holds(t, env, p, c) ==> Applying(t, env, p, ns0, ns, first, last, it + 1, kept))
  {
    CompactingAt(ns0, ns, first, last, it, kept);
    KeepNext(t, env, p, ns0[first..], it - first, |ns0| - first);
  }

  lemma ApplyingDone(t: Tree, env: Env, p: Expr, ns0: seq<XNode>, ns: seq<XNode>, first: nat, last: nat, kept: seq<XNode>)
    requires Wf(t) && Applying(t, env, p, ns0, ns, first, last, |ns0|, kept)
    ensures ns[..last] == ns0[..first] + Keep(t, env, p, ns0[first..], 0, |ns0| - first)
  {
    assert ns0[first..][..|ns0| - first] == ns0[first..];
  }

  /** A loop that may stop early stops with its first kept node. */
  lemma ApplyingStop(t: Tree, env: Env, p: Expr, ns0: seq<XNode>, ns: seq<XNode>, first: nat, last: nat, it: nat, kept: seq<XNode>)
    requires Wf(t) && Applying(t, env, p, ns0, ns, first, last, it, kept) && |kept| == 1
    ensures ns[..last] == ns0[..first] + FirstIf(true, Keep(t, env, p, ns0[first..], 0, |ns0| - first))
  {
    var s, k := ns0[first..], it - first;
    assert s == s[..k] + s[k..];
    KeepAppend(t, env, p, s[..k], s[k..], 0, |s|);
  }

  /** ns0 is being compacted in place: kept has been written after first, it is the read position. */
  ghost predicate Compacting(ns0: seq<XNode>, ns: seq<XNode>, first: nat, last: nat, it: nat, kept: seq<XNode>) {
    && |ns| == |ns0| && first <= last <= it <= |ns|
    && ns[..last] == ns0[..first] + kept && ns[it..] == ns0[it..]
  }

  lemma CompactingAt(ns0: seq<XNode>, ns: seq<XNode>, first: nat, last: nat, it: nat, kept: seq<XNode>)
    requires Compacting(ns0, ns, first, last, it, kept) && it < |ns|
    ensures ns[it] == ns0[first..][it - first]
    ensures Compacting(ns0, ns, first, last, it + 1, kept)
    ensures Compacting(ns0, ns[last := ns[it]], first, last + 1, it + 1, kept + [ns[it]])
  {
    assert ns[it] == ns[it..][0] == ns0[it];
    assert ns[it + 1..] == ns[it..][1..] == ns0[it + 1..];
    var r := ns[last := ns[it]];
    assert r[..last + 1] == ns[..last] + [ns[it]];
    assert r[it + 1..] == ns[it + 1..];
  }

  /** A constant predicate is computed once; the node at that position, if any, stays. */
  method ApplyPredicateConst(t: Tree, env: Env, ns0: seq<XNode>, first: nat, p: Expr) returns (ns: seq<XNode>)
    requires Wf(t) && EnvOk(t, env) && AsProgrammed(t, env) && SoundExpr(p) && IsConstant(p) && first <= |ns0|
    ensures ns == ns0[..first] + Keep(t, env, p, ns0[first..], 0, |ns0| - first)
    decreases p, 10, 0
  {
    var size := |ns0| - first;
    var er := EvalNumber(t, env, p, Ctx(XNull, 1, size));
    ConstantValue(t, env, p, Ctx(XNull, 1, size), Ctx(XNull, 1, size));
    KeepConstant(t, env, p, ns0[first..], 0, size, er);
    ns := ns0;
    var last := first;
    if er.Fin? && 1.0 <= er.r <= size as real {
      var eri := er.r.Floor;
      if er.r == eri as real {
        ns := ns[last := ns[first + eri - 1]];
        last := last + 1;
      }
    }
    ns := ns[..last];
  }

  method ApplyPredicate(t: Tree, env: Env, ns0: seq<XNode>, first: nat, p: Expr, cls: PredClass, once: bool) returns (ns: seq<XNode>)
    requires Wf(t) && EnvOk(t, env) && AsProgrammed(t, env) && SoundExpr(p) && ClassTrue(p, cls)
    requires first <= |ns0| && AllHas(t, ns0[first..])
    ensures ns == ns0[..first] + FirstIf(once, Keep(t, env, p, ns0[first..], 0, |ns0| - first))
    decreases p, 11, 0
  {
    if |ns0| == first {
      assert ns0 == ns0[..first];
      return ns0;
    }
    if cls == ConstantClass || cls == ConstantOne {
      ns := ApplyPredicateConst(t, env, ns0, first, p);
      ConstantAtMostOne(t, env, p, ns0[first..]);
    } else {
      ns := ApplyPredicateEach(t, env, ns0, first, p, once);
    }
  }

  lemma ConstantAtMostOne(t: Tree, env: Env, p: Expr, s: seq<XNode>)
    requires Wf(t) && IsConstant(p)
    ensures |Keep(t, env, p, s, 0, |s|)| <= 1
  {
    ConstantValue(t, env, p, Ctx(XNull, 1, |s|), Ctx(XNull, 1, |s|));
    KeepConstant(t, env, p, s, 0, |s|, Eval(t, env, p, Ctx(XNull, 1, |s|)).n);
  }

  /** All predicates of a step on the nodes from first on; the last one may stop early. */
  method ApplyPredicates(t: Tree, env: Env, ns0: seq<XNode>, first: nat, preds: Preds, once: bool) returns (ns: seq<XNode>)
    requires Wf(t) && EnvOk(t, env) && AsProgrammed(t, env) && SoundPreds(preds) && preds.PCons?
    requires first <= |ns0| && AllHas(t, ns0[first..])
    ensures ns == ns0[..first] + FirstIf(once, ApplyPreds(t, env, preds, ns0[first..]))
    decreases preds, 0, 0
  {
    ns := ns0;
    var rest := preds;
    while rest.PCons?
      invariant SoundPreds(rest) && (rest == preds || rest < preds)
      invariant first <= |ns| && ns[..first] == ns0[..first] && AllHas(t, ns[first..])
      invariant rest.PCons? ==> ApplyPreds(t, env, rest, ns[first..]) == ApplyPreds(t, env, preds, ns0[first..])
      invariant rest.PNil? ==> ns == ns0[..first] + FirstIf(once, ApplyPreds(t, env, preds, ns0[first..]))
      decreases rest
    {
      ghost var s := ns[first..];
      ghost var kept := Keep(t, env, rest.pred, s, 0, |s|);
      ns := ApplyPredicate(t, env, ns, first, rest.pred, rest.cls, rest.rest.PNil? && once);
      KeptHas(t, env, rest.pred, s);
      assert rest.rest.PCons? ==> ns[first..] == kept;
      rest := rest.rest;
    }
  }

  lemma KeptHas(t: Tree, env: Env, p: Expr, s: seq<XNode>)
    requires Wf(t) && AllHas(t, s)
    ensures AllHas(t, Keep(t, env, p, s, 0, |s|))
  {
    forall x | x in Keep(t, env, p, s, 0, |s|) ensures Has(t, x) {
      KeepMembers(t, env, p, s, 0, |s|, x);
    }
  }

  // Steps.

  /** May the axis loop stop at its first hit? */
  predicate StopsEarly(axis: Axis, test: NodeTest, preds: Preds, mode: Mode) {
    || (axis == AttributeAxis && test.NameTest?)
    || (preds.PNil? && EvalOnce(if IsReverse(axis) then SortedReverse else Sorted, mode))
    || (preds.PCons? && preds.rest.PNil? && preds.cls == ConstantOne)
  }

  lemma ConstantOneFirst(t: Tree, env: Env, preds: Preds, s: seq<XNode>)
    requires Wf(t) && SoundPreds(preds) && preds.PCons? && preds.rest.PNil? && preds.cls == ConstantOne
    ensures ApplyPreds(t, env, preds, FirstIf(true, s)) == ApplyPreds(t, env, preds, s)
  {
    var one := preds.pred;
    KeepConstant(t, env, one, s, 0, |s|, Fin(1.0));
    KeepConstant(t, env, one, FirstIf(true, s), 0, |FirstIf(true, s)|, Fin(1.0));
    assert preds.rest == PNil;
  }

  /** What one context node adds: everything the step selects from it, or the first of that when the mode allows. */
  method Batch(t: Tree, env: Env, axis: Axis, test: NodeTest, preds: Preds, items0: seq<XNode>, x: XNode, once: bool, ty: SetType, mode: Mode)
    returns (items: seq<XNode>, ghost o: bool)
    requires Wf(t) && EnvOk(t, env) && AsProgrammed(t, env) && SoundPreds(preds) && axis != Namespace && (x == XNull || Has(t, x))
    requires once == StopsEarly(axis, test, preds, mode)
    requires ty == Sorted ==> !IsReverse(axis)
    ensures items == items0 + FirstIf(o, Selected(t, env, axis, test, preds, x))
    ensures o ==> mode == Any || (mode == First && !IsReverse(axis))
    decreases preds, 1, 0
  {
    items := StepFill(t, axis, test, items0, x, once);
    ghost var all := Reached(t, env, axis, test, x);
    if axis == AttributeAxis && test.NameTest? && !env.quirks.firstNamed {
      NamedAttributeOnce(t, test.name, x);
    }
    assert FirstIf(once, StepItems(t, axis, test, x)) == FirstIf(once, all);
    o := if preds.PNil? then EvalOnce(if IsReverse(axis) then SortedReverse else Sorted, mode) else EvalOnce(ty, mode);
    assert |all| <= 1 ==> FirstIf(true, all) == all;
    if preds.PCons? {
      ReachedDirection(t, env, axis, test, x);
      ghost var pushed := items[|items0|..];
      assert pushed == FirstIf(once, all) && items[..|items0|] == items0;
      items := ApplyPredicates(t, env, items, |items0|, preds, EvalOnce(ty, mode));
      if preds.rest.PNil? && preds.cls == ConstantOne {
        ConstantOneFirst(t, env, preds, all);
      }
      assert ApplyPreds(t, env, preds, pushed) == Selected(t, env, axis, test, preds, x);
    } else {
      assert Selected(t, env, axis, test, preds, x) == all;
      assert FirstIf(once, all) == FirstIf(o, all);
    }
  }

  /** Enough of sel is in the list for the mode. */
  ghost predicate Covered(t: Tree, mode: Mode, s: seq<XNode>, sel: seq<XNode>)
    requires Wf(t)
  {
    match mode
    case All => forall x | x in sel :: x in s
    case Any => sel != [] ==> s != []
    case First => sel != [] ==> FirstOf(t, Elements(sel)) in s
  }

  lemma BatchCovers(t: Tree, mode: Mode, back: bool, s: seq<XNode>, o: bool, sel: seq<XNode>)
    requires Wf(t) && InDirection(t, back, sel) && (o ==> mode == Any || (mode == First && !back))
    ensures Covered(t, mode, s + FirstIf(o, sel), sel)
    ensures InDirection(t, back, FirstIf(o, sel))
    ensures forall x | x in FirstIf(o, sel) :: x in sel
  {
    if sel != [] && mode == First {
      FirstOfIs(t, Elements(sel));
      assert sel[0] in Elements(sel);
      if o {
        FirstOfUnique(t, Elements(sel), sel[0]);
        assert (s + [sel[0]])[|s|] == sel[0];
      }
    }
  }

  lemma CoveredMore(t: Tree, mode: Mode, s: seq<XNode>, more: seq<XNode>, sel: seq<XNode>)
    requires Wf(t) && Covered(t, mode, s, sel)
    ensures Covered(t, mode, s + more, sel)
  {
  }

  /** If every part is covered, so is the union. */
  lemma CoveredUnion(t: Tree, env: Env, axis: Axis, test: NodeTest, preds: Preds, mode: Mode, from: seq<XNode>, s: seq<XNode>, xs: set<XNode>)
    requires Wf(t) && SetHas(t, xs)
    requires forall y :: y in xs <==> exists x :: x in from && y in Selected(t, env, axis, test, preds, x)
    requires forall y | y in s :: exists x :: x in from && y in Selected(t, env, axis, test, preds, x)
    requires forall x | x in from :: Covered(t, mode, s, Selected(t, env, axis, test, preds, x))
    ensures GoodFor(t, mode, s, xs)
  {
    match mode
    case All =>
      forall y | y in xs ensures y in s {
        var x :| x in from && y in Selected(t, env, axis, test, preds, x);
        assert Covered(t, mode, s, Selected(t, env, axis, test, preds, x));
      }
    case Any =>
      if xs != {} {
        var y :| y in xs;
        var x :| x in from && y in Selected(t, env, axis, test, preds, x);
        assert Covered(t, mode, s, Selected(t, env, axis, test, preds, x));
      }
    case First =>
      if xs != {} {
        FirstOfIs(t, xs);
        var f := FirstOf(t, xs);
        var x :| x in from && f in Selected(t, env, axis, test, preds, x);
        var sel := Selected(t, env, axis, test, preds, x);
        assert Covered(t, mode, s, sel);
        forall y | y in Elements(sel) ensures y in xs {
          assert x in from && y in Selected(t, env, axis, test, preds, x);
        }
        FirstOfUnique(t, Elements(sel), f);
      }
  }

  /** On these axes a node is reached from one context node only. */
  predicate SingleSource(axis: Axis) {
    axis in {Child, AttributeAxis, SelfAxis}
  }

  lemma SourceUnique(t: Tree, axis: Axis, test: NodeTest, x: XNode, x': XNode, y: XNode)
    requires Wf(t) && SingleSource(axis) && Has(t, x) && Has(t, x')
    requires y in StepItems(t, axis, test, x) && y in StepItems(t, axis, test, x')
    ensures x == x'
  {
    SourceOf(t, axis, test, x, y);
    SourceOf(t, axis, test, x', y);
  }

  lemma SourceOf(t: Tree, axis: Axis, test: NodeTest, x: XNode, y: XNode)
    requires Wf(t) && SingleSource(axis) && Has(t, x) && y in StepItems(t, axis, test, x)
    ensures axis == SelfAxis ==> x == y
    ensures axis == Child ==> y.XElem? && y.n in t.node && y.n != t.root && x == XElem(Parent(t, y.n))
    ensures axis == AttributeAxis ==> y.XAttr? && x == XElem(y.p)
  {
    if x.XElem? {
      if axis == AttributeAxis {
        PickedAttrsMembers(test, t.node[x.n].attrs, x.n, y);
      } else {
        StepFromNode(t, axis, test, x.n, y);
      }
    }
  }

  /** The state of the loop over the context nodes of a step, after the first k of them. */
  /** Each item has been selected from one of the first k context nodes. */
  ghost predicate Gathered(t: Tree, env: Env, axis: Axis, test: NodeTest, preds: Preds, from: NodeSet, k: nat, items: seq<XNode>)
    requires Wf(t) && k <= |from.items|
  {
    forall y | y in items :: exists j :: 0 <= j < k && y in Selected(t, env, axis, test, preds, from.items[j])
  }

  /** What the mode asks for has been found for each of the first k context nodes. */
  ghost predicate AllCovered(t: Tree, env: Env, axis: Axis, test: NodeTest, preds: Preds, mode: Mode, from: NodeSet, k: nat, items: seq<XNode>)
    requires Wf(t) && k <= |from.items|
  {
    forall j | 0 <= j < k :: Covered(t, mode, items, Selected(t, env, axis, test, preds, from.items[j]))
  }

  lemma GatheredNext(t: Tree, env: Env, axis: Axis, test: NodeTest, preds: Preds, from: NodeSet, k: nat, items: seq<XNode>, b: seq<XNode>)
    requires Wf(t) && k < |from.items| && Gathered(t, env, axis, test, preds, from, k, items)
    requires forall x | x in b :: x in Selected(t, env, axis, test, preds, from.items[k])
    ensures Gathered(t, env, axis, test, preds, from, k + 1, items + b)
  {
    forall y | y in items + b ensures exists j :: 0 <= j < k + 1 && y in Selected(t, env, axis, test, preds, from.items[j]) {
      if y in b {
        assert y in Selected(t, env, axis, test, preds, from.items[k]);
      }
    }
  }

  lemma AllCoveredNext(t: Tree, env: Env, axis: Axis, test: NodeTest, preds: Preds, mode: Mode, from: NodeSet, k: nat, items: seq<XNode>, b: seq<XNode>)
    requires Wf(t) && k < |from.items| && AllCovered(t, env, axis, test, preds, mode, from, k, items)
    requires Covered(t, mode, items + b, Selected(t, env, axis, test, preds, from.items[k]))
    ensures AllCovered(t, env, axis, test, preds, mode, from, k + 1, items + b)
  {
    forall j | 0 <= j < k + 1 ensures Covered(t, mode, items + b, Selected(t, env, axis, test, preds, from.items[j])) {
      if j < k {
        CoveredMore(t, mode, items, b, Selected(t, env, axis, test, preds, from.items[j]));
      }
    }
  }

  ghost predicate StepLoop(t: Tree, env: Env, axis: Axis, test: NodeTest, preds: Preds, mode: Mode, from: NodeSet, k: nat, ty: SetType, items: seq<XNode>)
    requires Wf(t) && k <= |from.items|
  {
    && AllHas(t, items)
    && Gathered(t, env, axis, test, preds, from, k, items)
    && AllCovered(t, env, axis, test, preds, mode, from, k, items)
    && (axis == SelfAxis ==> ty == from.ty)
    && (axis != SelfAxis ==> ty == Unsorted || ty == if IsReverse(axis) then SortedReverse else Sorted)
    && (ty == Sorted ==> Forward(t, items))
    && (ty == SortedReverse ==> Backward(t, items))
    && (SingleSource(axis) ==> Distinct(items))
  }

  /** A batch for one more context node keeps the loop's state. */
  lemma StepLoopNext(t: Tree, env: Env, axis: Axis, test: NodeTest, preds: Preds, mode: Mode, from: NodeSet, k: nat, ty: SetType, items: seq<XNode>, o: bool)
    requires Wf(t) && Truthful(t, from) && k < |from.items| && axis != Namespace
    requires StepLoop(t, env, axis, test, preds, mode, from, k, ty, items)
    requires axis != SelfAxis && items != [] ==> ty == Unsorted
    requires o ==> mode == Any || (mode == First && !IsReverse(axis))
    ensures StepLoop(t, env, axis, test, preds, mode, from, k + 1, ty, items + FirstIf(o, Selected(t, env, axis, test, preds, from.items[k])))
  {
    var x := from.items[k];
    var sel := Selected(t, env, axis, test, preds, x);
    var b := FirstIf(o, sel);
    assert InDirection(t, IsReverse(axis), b) && (forall y | y in b :: y in sel) && Covered(t, mode, items + b, sel) by {
      SelectedDirection(t, env, axis, test, preds, x);
      BatchCovers(t, mode, IsReverse(axis), items, o, sel);
    }
    OrderNext(t, env, axis, test, preds, from, k, ty, items, b);
    if SingleSource(axis) {
      BatchDistinct(t, env, axis, test, preds, from, k, items, b);
    }
    GatheredNext(t, env, axis, test, preds, from, k, items, b);
    AllCoveredNext(t, env, axis, test, preds, mode, from, k, items, b);
  }

  /** The order tag stays true. */
  lemma OrderNext(t: Tree, env: Env, axis: Axis, test: NodeTest, preds: Preds, from: NodeSet, k: nat, ty: SetType, items: seq<XNode>, b: seq<XNode>)
    requires Wf(t) && Truthful(t, from) && k < |from.items| && AllHas(t, items) && Gathered(t, env, axis, test, preds, from, k, items)
    requires InDirection(t, IsReverse(axis), b) && forall y | y in b :: y in Selected(t, env, axis, test, preds, from.items[k])
    requires (ty == Sorted ==> Forward(t, items)) && (ty == SortedReverse ==> Backward(t, items))
    requires if axis == SelfAxis then ty == from.ty else ty == Unsorted || (items == [] && ty == if IsReverse(axis) then SortedReverse else Sorted)
    ensures AllHas(t, items + b) && (ty == Sorted ==> Forward(t, items + b)) && (ty == SortedReverse ==> Backward(t, items + b))
  {
    if axis == SelfAxis {
      SelfBatch(t, env, test, preds, from, k, items, b);
    } else if items == [] {
      assert items + b == b;
    }
  }

  /** What a step selects is among the items of its axis. */
  lemma SelectedItems(t: Tree, env: Env, axis: Axis, test: NodeTest, preds: Preds, x: XNode, y: XNode)
    requires Wf(t) && y in Selected(t, env, axis, test, preds, x)
    ensures y in StepItems(t, axis, test, x)
  {
    ApplyMembers(t, env, preds, Reached(t, env, axis, test, x), y);
  }

  lemma AtMostOne(b: seq<XNode>, x: XNode)
    requires Distinct(b) && forall y | y in b :: y == x
    ensures |b| <= 1
  {
    DistinctSize(b);
    assert Elements(b) == {} || Elements(b) == {x};
  }

  /** The self axis only lets context nodes through, in their order. */
  lemma SelfBatch(t: Tree, env: Env, test: NodeTest, preds: Preds, from: NodeSet, k: nat, items: seq<XNode>, b: seq<XNode>)
    requires Wf(t) && Truthful(t, from) && k < |from.items| && AllHas(t, items) && AllHas(t, b)
    requires forall y | y in items :: exists j :: 0 <= j < k && y in Selected(t, env, SelfAxis, test, preds, from.items[j])
    requires forall y | y in b :: y in Selected(t, env, SelfAxis, test, preds, from.items[k])
    requires InDirection(t, false, b)
    requires (from.ty == Sorted ==> Forward(t, items)) && (from.ty == SortedReverse ==> Backward(t, items))
    ensures (from.ty == Sorted ==> Forward(t, items + b)) && (from.ty == SortedReverse ==> Backward(t, items + b))
  {
    var x := from.items[k];
    forall y | y in b ensures y == x {
      SelectedItems(t, env, SelfAxis, test, preds, x, y);
      SourceOf(t, SelfAxis, test, x, y);
    }
    OrderedDistinct(t, b);
    AtMostOne(b, x);
    forall y | y in items ensures exists j :: 0 <= j < k && y == from.items[j] {
      var j :| 0 <= j < k && y in Selected(t, env, SelfAxis, test, preds, from.items[j]);
      SelectedItems(t, env, SelfAxis, test, preds, from.items[j], y);
      SourceOf(t, SelfAxis, test, from.items[j], y);
    }
    if from.ty != Unsorted {
      var back := from.ty == SortedReverse;
      forall y, z | y in items && z in b ensures Goes(t, back, y, z) {
      }
      DirectionAppend(t, back, items, b);
    }
  }

  /** On a single-source axis a new batch does not repeat earlier nodes. */
  lemma BatchDistinct(t: Tree, env: Env, axis: Axis, test: NodeTest, preds: Preds, from: NodeSet, k: nat, items: seq<XNode>, b: seq<XNode>)
    requires Wf(t) && Truthful(t, from) && k < |from.items| && SingleSource(axis) && Distinct(items)
    requires forall y | y in items :: exists j :: 0 <= j < k && y in Selected(t, env, axis, test, preds, from.items[j])
    requires forall y | y in b :: y in Selected(t, env, axis, test, preds, from.items[k])
    requires InDirection(t, IsReverse(axis), b)
    ensures Distinct(items + b)
  {
    OrderedDistinct(t, b);
    forall y | y in items ensures y !in b {
      if y in b {
        var j :| 0 <= j < k && y in Selected(t, env, axis, test, preds, from.items[j]);
        SelectedItems(t, env, axis, test, preds, from.items[j], y);
        SelectedItems(t, env, axis, test, preds, from.items[k], y);
        SourceUnique(t, axis, test, from.items[j], from.items[k], y);
      }
    }
    DistinctAppend(items, b);
  }

  lemma StepDone(t: Tree, env: Env, base: Base, axis: Axis, test: NodeTest, preds: Preds, c: Ctx, mode: Mode, from: NodeSet, ty: SetType, items: seq<XNode>)
    requires Wf(t) && EnvOk(t, env) && (forall x :: x in from.items <==> x in EvalBase(t, env, base, c) && x != XNull)
    requires StepLoop(t, env, axis, test, preds, mode, from, |from.items|, ty, items)
    ensures GoodFor(t, mode, items, EvalSet(t, env, Step(base, axis, test, preds), c))
  {
    var s := Step(base, axis, test, preds);
    var xs := EvalSet(t, env, s, c);
    EvalSetHas(t, env, s, c);
    forall y ensures y in xs <==> exists x :: x in from.items && y in Selected(t, env, axis, test, preds, x) {
      if y in xs {
        var x :| x in EvalBase(t, env, base, c) && y in Selected(t, env, axis, test, preds, x);
        SelectedItems(t, env, axis, test, preds, x, y);
        assert x in from.items;
      }
    }
    forall y | y in items ensures exists x :: x in from.items && y in Selected(t, env, axis, test, preds, x) {
      var j :| 0 <= j < |from.items| && y in Selected(t, env, axis, test, preds, from.items[j]);
      assert from.items[j] in from.items;
    }
    CoveredUnion(t, env, axis, test, preds, mode, from.items, items, xs);
  }

  method StepDo(t: Tree, env: Env, base: Base, axis: Axis, test: NodeTest, preds: Preds, c: Ctx, mode: Mode, ghost s: SetExpr) returns (ns: NodeSet)
    requires Wf(t) && EnvOk(t, env) && AsProgrammed(t, env) && s == Step(base, axis, test, preds) && SoundSet(s) && CtxOk(t, c)
    requires axis != Namespace
    ensures Truthful(t, ns) && GoodFor(t, mode, ns.items, EvalSet(t, env, s, c))
    decreases s, 2, 0
  {
    var axisType := if IsReverse(axis) then SortedReverse else Sorted;
    var once := StopsEarly(axis, test, preds, mode);
    var ty, items := axisType, [];
    ghost var from;
    if base.From? {
      var given := EvalNodeSet(t, env, base.s, c, All);
      from := given;
      if axis == SelfAxis {
        ty := given.ty;
      }
      StepLoopStart(t, env, axis, test, preds, mode, given, ty);
      for k: nat := 0 to |given.items|
        invariant StepLoop(t, env, axis, test, preds, mode, given, k, ty, items)
      {
        ty, items := StepOne(t, env, axis, test, preds, given, k, once, mode, ty, items);
      }
    } else {
      ghost var o;
      items, o := Batch(t, env, axis, test, preds, [], c.n, once, ty, mode);
      from := NodeSet(Sorted, if c.n == XNull then [] else [c.n]);
      if c.n == XNull {
        SelectedFromNothing(t, env, axis, test, preds);
      } else {
        StepLoopNext(t, env, axis, test, preds, mode, from, 0, ty, [], o);
        assert [] + FirstIf(o, Selected(t, env, axis, test, preds, c.n)) == items;
      }
    }
    StepDone(t, env, base, axis, test, preds, c, mode, from, ty, items);
    ns := StepResult(t, axis, mode, ty, items, EvalSet(t, env, s, c));
  }

  /** Only batches on axes that lead to a node from several others can have repeats. */
  method StepResult(t: Tree, axis: Axis, mode: Mode, ty: SetType, items: seq<XNode>, ghost xs: set<XNode>) returns (ns: NodeSet)
    requires Wf(t) && AllHas(t, items) && GoodFor(t, mode, items, xs) && (SingleSource(axis) ==> Distinct(items))
    requires (ty == Sorted ==> Forward(t, items)) && (ty == SortedReverse ==> Backward(t, items))
    ensures Truthful(t, ns) && GoodFor(t, mode, ns.items, xs)
  {
    if !SingleSource(axis) && ty == Unsorted {
      var r := RemoveDuplicates(t, NodeSet(Unsorted, items));
      GoodForSame(t, mode, items, r, xs);
      return NodeSet(ty, r);
    }
    if ty != Unsorted {
      OrderedDistinct(t, items);
    }
    ns := NodeSet(ty, items);
  }

  lemma StepLoopStart(t: Tree, env: Env, axis: Axis, test: NodeTest, preds: Preds, mode: Mode, from: NodeSet, ty: SetType)
    requires Wf(t) && ty == if axis == SelfAxis then from.ty else if IsReverse(axis) then SortedReverse else Sorted
    ensures StepLoop(t, env, axis, test, preds, mode, from, 0, ty, [])
  {
  }

  /** The batch of one more context node; a second batch on another axis may spoil the order. */
  method StepOne(t: Tree, env: Env, axis: Axis, test: NodeTest, preds: Preds, from: NodeSet, k: nat, once: bool, mode: Mode, ty0: SetType, items0: seq<XNode>)
    returns (ty: SetType, items: seq<XNode>)
    requires Wf(t) && EnvOk(t, env) && AsProgrammed(t, env) && SoundPreds(preds) && axis != Namespace && Truthful(t, from) && k < |from.items|
    requires once == StopsEarly(axis, test, preds, mode) && StepLoop(t, env, axis, test, preds, mode, from, k, ty0, items0)
    ensures StepLoop(t, env, axis, test, preds, mode, from, k + 1, ty, items)
    decreases preds, 1, 1
  {
    ty := if axis != SelfAxis && |items0| != 0 then Unsorted else ty0;
    ghost var o;
    assert Has(t, from.items[k]);
    items, o := Batch(t, env, axis, test, preds, items0, from.items[k], once, ty, mode);
    StepLoopNext(t, env, axis, test, preds, mode, from, k, ty, items0, o);
  }

  lemma SelectedFromNothing(t: Tree, env: Env, axis: Axis, test: NodeTest, preds: Preds)
    requires Wf(t)
    ensures Selected(t, env, axis, test, preds, XNull) == []
  {
    StepItemsDirection(t, axis, test, XNull);
    forall x | x in Selected(t, env, axis, test, preds, XNull) ensures false {
      ApplyMembers(t, env, preds, [], x);
    }
    EmptySame(Selected(t, env, axis, test, preds, XNull), {});
  }

  lemma GoodForSame(t: Tree, mode: Mode, s: seq<XNode>, r: seq<XNode>, xs: set<XNode>)
    requires Wf(t) && GoodFor(t, mode, s, xs) && forall x :: x in r <==> x in s
    ensures GoodFor(t, mode, r, xs)
  {
    if mode == Any && xs != {} {
      assert s[0] in r;
    }
  }

  method EvalNodeSet(t: Tree, env: Env, s: SetExpr, c: Ctx, mode: Mode) returns (ns: NodeSet)
    requires Wf(t) && EnvOk(t, env) && AsProgrammed(t, env) && SoundSet(s) && CtxOk(t, c)
    ensures Truthful(t, ns) && GoodFor(t, mode, ns.items, EvalSet(t, env, s, c))
    decreases s, 3, 0
  {
    match s
    case Union(l, r) =>
      var ls := EvalNodeSet(t, env, l, c, mode);
      var rs := EvalNodeSet(t, env, r, c, mode);
      var items := RemoveDuplicates(t, NodeSet(Unsorted, rs.items + ls.items));
      UnionGood(t, env, l, r, c, mode, ls.items, rs.items, items);
      ns := NodeSet(Unsorted, items);
    case Filter(inner, p, cls) =>
      ns := EvalFilter(t, env, inner, p, cls, c, mode, s);
    case IdOf(_) =>
      ns := NodeSet(Unsorted, []);
    case Step(base, axis, test, preds) =>
      if axis == Namespace {
        ns := NodeSet(Unsorted, []);
        NamespaceEmpty(t, env, base, test, preds, c);
      } else {
        ns := StepDo(t, env, base, axis, test, preds, c, mode, s);
      }
    case Root =>
      if c.n == XNull {
        ns := NodeSet(Sorted, []);
      } else {
        ns := NodeSet(Sorted, [XElem(t.root)]);
        RootGood(t, env, c, mode);
      }
    case SetVar(v) =>
      ns := env.sets(v);
      assert Truthful(t, ns);
      EvalSetHas(t, env, s, c);
      AllGood(t, mode, ns.items, EvalSet(t, env, s, c));
  }

  lemma AllGood(t: Tree, mode: Mode, s: seq<XNode>, xs: set<XNode>)
    requires Wf(t) && SetHas(t, xs) && forall x :: x in s <==> x in xs
    ensures GoodFor(t, mode, s, xs)
  {
    FirstOfIs(t, xs);
    EmptySame(s, xs);
  }

  lemma RootGood(t: Tree, env: Env, c: Ctx, mode: Mode)
    requires Wf(t) && c.n != XNull
    ensures GoodFor(t, mode, [XElem(t.root)], EvalSet(t, env, Root, c))
  {
    AllGood(t, mode, [XElem(t.root)], {XElem(t.root)});
  }

  lemma NamespaceEmpty(t: Tree, env: Env, base: Base, test: NodeTest, preds: Preds, c: Ctx)
    requires Wf(t)
    ensures EvalSet(t, env, Step(base, Namespace, test, preds), c) == {}
  {
    forall x, y | y in Selected(t, env, Namespace, test, preds, x) ensures false {
      SelectedItems(t, env, Namespace, test, preds, x, y);
      if Has(t, x) && x.XElem? {
        StepFromNode(t, Namespace, test, x.n, y);
      }
    }
  }

  lemma UnionGood(t: Tree, env: Env, l: SetExpr, r: SetExpr, c: Ctx, mode: Mode, ls: seq<XNode>, rs: seq<XNode>, items: seq<XNode>)
    requires Wf(t) && EnvOk(t, env)
    requires GoodFor(t, mode, ls, EvalSet(t, env, l, c)) && GoodFor(t, mode, rs, EvalSet(t, env, r, c))
    requires forall x :: x in items <==> x in rs + ls
    ensures GoodFor(t, mode, items, EvalSet(t, env, Union(l, r), c))
  {
    var a, b, xs := EvalSet(t, env, l, c), EvalSet(t, env, r, c), EvalSet(t, env, Union(l, r), c);
    EvalSetHas(t, env, Union(l, r), c);
    assert xs == a + b;
    match mode
    case All =>
    case Any =>
      EmptySame(items, Elements(items));
      if xs != {} {
        var y := if ls != [] then ls[0] else rs[0];
        assert y in rs + ls;
      }
    case First =>
      if xs != {} {
        FirstOfIs(t, xs);
        var f := FirstOf(t, xs);
        if f in a {
          FirstOfUnique(t, a, f);
        } else {
          FirstOfUnique(t, b, f);
        }
      }
  }

  // Filters.

  /** The kept nodes, or the first of them when the tag and the mode allow it, are good enough. */
  lemma KeptGood(t: Tree, mode: Mode, ty: SetType, kept: seq<XNode>, xs: set<XNode>)
    requires Wf(t) && Truthful(t, NodeSet(ty, kept)) && SetHas(t, xs) && forall x :: x in kept <==> x in xs
    ensures Truthful(t, NodeSet(ty, FirstIf(EvalOnce(ty, mode), kept)))
    ensures GoodFor(t, mode, FirstIf(EvalOnce(ty, mode), kept), xs)
  {
    EmptySame(kept, xs);
    if xs != {} {
      FirstOfIs(t, xs);
      if mode == First && ty == Sorted {
        forall y | y in xs ensures y == kept[0] || DocLess(t, kept[0], y) {
          var i := IndexOf(kept, y);
        }
        assert kept[0] in kept;
        FirstOfUnique(t, xs, kept[0]);
      }
    }
  }

  lemma {:induction false} KeepDistinct(t: Tree, env: Env, p: Expr, s: seq<XNode>, i: nat, size: nat)
    requires Wf(t) && Distinct(s)
    ensures Distinct(Keep(t, env, p, s, i, size))
  {
    if s != [] {
      KeepDistinct(t, env, p, s[1..], i + 1, size);
      KeepMembers(t, env, p, s[1..], i + 1, size, s[0]);
      assert s[0] !in s[1..];
      DistinctAppend([s[0]], Keep(t, env, p, s[1..], i + 1, size));
    }
  }

  lemma KeepTruthful(t: Tree, env: Env, p: Expr, ns: NodeSet)
    requires Wf(t) && Truthful(t, ns)
    ensures Truthful(t, NodeSet(ns.ty, Keep(t, env, p, ns.items, 0, |ns.items|)))
  {
    KeptHas(t, env, p, ns.items);
    KeepDistinct(t, env, p, ns.items, 0, |ns.items|);
    if ns.ty != Unsorted {
      KeepDirection(t, env, ns.ty == SortedReverse, p, ns.items, 0, |ns.items|);
    }
  }

  /** Does the filter keep from the given list what it means to keep of the inner set? */
  ghost predicate Filtered(t: Tree, env: Env, inner: SetExpr, p: Expr, c: Ctx, s: seq<XNode>)
    requires Wf(t)
  {
    forall x :: x in Keep(t, env, p, s, 0, |s|) <==> x in EvalSet(t, env, SetExpr.Filter(inner, p, DefaultClass), c)
  }

  /** [1] only needs the first node. */
  lemma FilterFirst(t: Tree, env: Env, inner: SetExpr, p: Expr, c: Ctx, s: seq<XNode>)
    requires Wf(t) && EnvOk(t, env) && p == NumConst(Fin(1.0))
    requires AllHas(t, s) && Forward(t, s) && GoodFor(t, First, s, EvalSet(t, env, inner, c))
    ensures Filtered(t, env, inner, p, c, s)
  {
    var all := EvalSet(t, env, inner, c);
    var xs := InOrder(t, all);
    EvalSetHas(t, env, inner, c);
    FirstOfIs(t, all);
    InOrderIs(t, all);
    EmptySame(xs, all);
    KeepConstant(t, env, p, s, 0, |s|, Fin(1.0));
    KeepConstant(t, env, p, xs, 0, |xs|, Fin(1.0));
    if s != [] {
      assert s[0] in s;
      HeadIsFirst(t, s, all);
    }
  }

  lemma HeadIsFirst(t: Tree, s: seq<XNode>, xs: set<XNode>)
    requires Wf(t) && SetHas(t, xs) && AllHas(t, s) && Forward(t, s) && s != [] && (forall x | x in s :: x in xs) && FirstOf(t, xs) in s
    ensures FirstOf(t, xs) == s[0]
  {
    assert s[0] in xs;
    FirstOfIs(t, xs);
    DocLessTotal(t, s[0], FirstOf(t, xs));
    var i := IndexOf(s, FirstOf(t, xs));
  }

  lemma FilterSorted(t: Tree, env: Env, inner: SetExpr, p: Expr, c: Ctx, s: seq<XNode>)
    requires Wf(t) && EnvOk(t, env) && AllHas(t, s) && Forward(t, s) && GoodFor(t, All, s, EvalSet(t, env, inner, c))
    ensures Filtered(t, env, inner, p, c, s)
  {
    InOrderUnique(t, EvalSet(t, env, inner, c), s);
  }

  lemma FilterPosinv(t: Tree, env: Env, inner: SetExpr, p: Expr, c: Ctx, s: seq<XNode>)
    requires Wf(t) && env.quirks.noIds && EnvOk(t, env) && ClassTrue(p, Posinv) && GoodFor(t, All, s, EvalSet(t, env, inner, c))
    ensures Filtered(t, env, inner, p, c, s)
  {
    var all := EvalSet(t, env, inner, c);
    var xs := InOrder(t, all);
    EvalSetHas(t, env, inner, c);
    InOrderIs(t, all);
    forall x ensures x in Keep(t, env, p, s, 0, |s|) <==> x in Keep(t, env, p, xs, 0, |xs|) {
      KeepPosinv(t, env, p, s, 0, |s|, x);
      KeepPosinv(t, env, p, xs, 0, |xs|, x);
    }
  }

  /** What a predicate keeps from a sufficient part of the inner set is good for the mode. */
  lemma FilterGood(t: Tree, env: Env, inner: SetExpr, p: Expr, cls: PredClass, c: Ctx, mode: Mode, given: NodeSet)
    requires Wf(t) && env.quirks.noIds && EnvOk(t, env) && Truthful(t, given) && ClassTrue(p, cls)
    requires cls != Posinv ==> Forward(t, given.items)
    requires GoodFor(t, if cls == ConstantOne then First else All, given.items, EvalSet(t, env, inner, c))
    ensures var r := FirstIf(EvalOnce(given.ty, mode), Keep(t, env, p, given.items, 0, |given.items|));
      Truthful(t, NodeSet(given.ty, r)) && GoodFor(t, mode, r, EvalSet(t, env, SetExpr.Filter(inner, p, cls), c))
  {
    var s := SetExpr.Filter(inner, p, cls);
    if cls == ConstantOne {
      FilterFirst(t, env, inner, p, c, given.items);
    } else if cls == Posinv {
      FilterPosinv(t, env, inner, p, c, given.items);
    } else {
      FilterSorted(t, env, inner, p, c, given.items);
    }
    KeepTruthful(t, env, p, given);
    EvalSetHas(t, env, s, c);
    assert EvalSet(t, env, s, c) == EvalSet(t, env, SetExpr.Filter(inner, p, DefaultClass), c);
    KeptGood(t, mode, given.ty, Keep(t, env, p, given.items, 0, |given.items|), EvalSet(t, env, s, c));
  }

  lemma SortedGood(t: Tree, mode: Mode, s: seq<XNode>, r: seq<XNode>, xs: set<XNode>)
    requires Wf(t) && AllHas(t, s) && GoodFor(t, mode, s, xs) && multiset(r) == multiset(s)
    ensures GoodFor(t, mode, r, xs)
  {
    SameElements(t, s, r);
    GoodForSame(t, mode, s, r, xs);
  }

  method EvalFilter(t: Tree, env: Env, inner: SetExpr, p: Expr, cls: PredClass, c: Ctx, mode: Mode, ghost s: SetExpr) returns (ns: NodeSet)
    requires Wf(t) && EnvOk(t, env) && AsProgrammed(t, env) && s == SetExpr.Filter(inner, p, cls) && SoundSet(s) && CtxOk(t, c)
    ensures Truthful(t, ns) && GoodFor(t, mode, ns.items, EvalSet(t, env, s, c))
    decreases s, 2, 0
  {
    var innerMode := if cls == ConstantOne then First else All;
    var given := EvalNodeSet(t, env, inner, c, innerMode);
    ghost var all := EvalSet(t, env, inner, c);
    if cls != Posinv {
      ghost var was := given.items;
      given := SortDo(t, given);
      SortedGood(t, innerMode, was, given.items, all);
    }
    var items := ApplyPredicate(t, env, given.items, 0, p, cls, EvalOnce(given.ty, mode));
    assert given.items[0..] == given.items;
    FilterGood(t, env, inner, p, cls, c, mode, given);
    ns := NodeSet(given.ty, items);
  }

  // Comparisons.

  /** All nodes of a set expression, for the loops of a comparison. */
  method AllNodes(t: Tree, env: Env, e: Expr, c: Ctx) returns (s: seq<XNode>)
    requires Wf(t) && EnvOk(t, env) && AsProgrammed(t, env) && SoundExpr(e) && CtxOk(t, c) && e.OfNodes?
    ensures AllIn(t, s) && forall x :: x in s <==> x in Eval(t, env, e, c).xs
    decreases e, 3, 0
  {
    var ns := EvalNodeSet(t, env, e.s, c, All);
    s := ns.items;
  }

  method CompareSetEq(t: Tree, env: Env, equal: bool, l: Expr, r: Expr, c: Ctx, ghost e: Expr) returns (b: bool)
    requires Wf(t) && EnvOk(t, env) && AsProgrammed(t, env) && SoundExpr(l) && SoundExpr(r) && CtxOk(t, c)
    requires l < e && r < e && r.OfNodes? && !l.OfNodes?
    ensures b == CompareEq(t, env, equal, Eval(t, env, l, c), Eval(t, env, r, c))
    decreases e, 1, 0
  {
    ghost var v := Eval(t, env, l, c);
    TypeTrue(t, env, l, c);
    match TypeOf(l)
    case TScalar(TBool) =>
      var x := EvalBoolean(t, env, l, c);
      var y := EvalBoolean(t, env, r, c);
      b := (x == y) == equal;
    case TScalar(TNum) =>
      var x := EvalNumber(t, env, l, c);
      var s := AllNodes(t, env, r, c);
      b := AnyNumber(t, env, (x, y) => NumCmp(equal, x, y), x, s);
    case TScalar(TStr) =>
      var x := EvalString(t, env, l, c);
      var s := AllNodes(t, env, r, c);
      b := AnyString(t, (x, y) => StrCmp(equal, x, y), x, s);
    case TSet =>
      assert false;
  }

  method CompareEquality(t: Tree, env: Env, equal: bool, l: Expr, r: Expr, c: Ctx, ghost e: Expr) returns (b: bool)
    requires Wf(t) && EnvOk(t, env) && AsProgrammed(t, env) && SoundExpr(l) && SoundExpr(r) && CtxOk(t, c) && l < e && r < e
    ensures b == CompareEq(t, env, equal, Eval(t, env, l, c), Eval(t, env, r, c))
    decreases e, 2, 0
  {
    TypeTrue(t, env, l, c);
    TypeTrue(t, env, r, c);
    if l.OfNodes? && r.OfNodes? {
      var ls := AllNodes(t, env, l, c);
      var rs := AllNodes(t, env, r, c);
      b := AnyPairOfStrings(t, (x, y) => StrCmp(equal, x, y), ls, rs);
    } else if r.OfNodes? {
      b := CompareSetEq(t, env, equal, l, r, c, e);
    } else if l.OfNodes? {
      b := CompareSetEq(t, env, equal, r, l, c, e);
      CompareSwap(t, env, equal, Eval(t, env, l, c), Eval(t, env, r, c));
    } else {
      b := CompareScalars(t, env, equal, l, r, c, e);
    }
  }

  lemma CompareSwap(t: Tree, env: Env, equal: bool, v: Value, w: Value)
    requires Wf(t) && v.VSet? && !w.VSet?
    ensures CompareEq(t, env, equal, v, w) == CompareEq(t, env, equal, w, v)
  {
  }

  method CompareScalars(t: Tree, env: Env, equal: bool, l: Expr, r: Expr, c: Ctx, ghost e: Expr) returns (b: bool)
    requires Wf(t) && EnvOk(t, env) && AsProgrammed(t, env) && SoundExpr(l) && SoundExpr(r) && CtxOk(t, c)
    requires l < e && r < e && !l.OfNodes? && !r.OfNodes?
    ensures b == CompareEq(t, env, equal, Eval(t, env, l, c), Eval(t, env, r, c))
    decreases e, 1, 0
  {
    if TypeOf(l) == TScalar(TBool) || TypeOf(r) == TScalar(TBool) {
      b := CompareAsBooleans(t, env, equal, l, r, c, e);
    } else if IsNumber(l) || IsNumber(r) {
      b := CompareAsNumbers(t, env, equal, l, r, c, e);
    } else {
      OnlySets(l);
      OnlySets(r);
      b := CompareAsStrings(t, env, equal, l, r, c, e);
    }
  }

  lemma OnlySets(e: Expr)
    ensures e.OfNodes? || TypeOf(e) == TScalar(TBool) || TypeOf(e) == TScalar(TNum) || TypeOf(e) == TScalar(TStr)
  {
    if TypeOf(e).TScalar? {
      match TypeOf(e).ty
      case TBool =>
      case TNum =>
      case TStr =>
    }
  }

  method CompareAsBooleans(t: Tree, env: Env, equal: bool, l: Expr, r: Expr, c: Ctx, ghost e: Expr) returns (b: bool)
    requires Wf(t) && EnvOk(t, env) && AsProgrammed(t, env) && SoundExpr(l) && SoundExpr(r) && CtxOk(t, c)
    requires l < e && r < e && !l.OfNodes? && !r.OfNodes?
    requires TypeOf(l) == TScalar(TBool) || TypeOf(r) == TScalar(TBool)
    ensures b == CompareEq(t, env, equal, Eval(t, env, l, c), Eval(t, env, r, c))
    decreases e, 0, 0
  {
    TypeTrue(t, env, l, c);
    TypeTrue(t, env, r, c);
    var x := EvalBoolean(t, env, l, c);
    var y := EvalBoolean(t, env, r, c);
    b := (x == y) == equal;
  }

  method CompareAsNumbers(t: Tree, env: Env, equal: bool, l: Expr, r: Expr, c: Ctx, ghost e: Expr) returns (b: bool)
    requires Wf(t) && EnvOk(t, env) && AsProgrammed(t, env) && SoundExpr(l) && SoundExpr(r) && CtxOk(t, c)
    requires l < e && r < e && !l.OfNodes? && !r.OfNodes?
    requires TypeOf(l) != TScalar(TBool) && TypeOf(r) != TScalar(TBool) && (IsNumber(l) || IsNumber(r))
    ensures b == CompareEq(t, env, equal, Eval(t, env, l, c), Eval(t, env, r, c))
    decreases e, 0, 0
  {
    TypeTrue(t, env, l, c);
    TypeTrue(t, env, r, c);
    var x := EvalNumber(t, env, l, c);
    var y := EvalNumber(t, env, r, c);
    b := NumCmp(equal, x, y);
  }

  method CompareAsStrings(t: Tree, env: Env, equal: bool, l: Expr, r: Expr, c: Ctx, ghost e: Expr) returns (b: bool)
    requires Wf(t) && EnvOk(t, env) && AsProgrammed(t, env) && SoundExpr(l) && SoundExpr(r) && CtxOk(t, c)
    requires l < e && r < e && !l.OfNodes? && !r.OfNodes?
    requires TypeOf(l) == TScalar(TStr) && TypeOf(r) == TScalar(TStr)
    ensures b == CompareEq(t, env, equal, Eval(t, env, l, c), Eval(t, env, r, c))
    decreases e, 0, 0
  {
    TypeTrue(t, env, l, c);
    TypeTrue(t, env, r, c);
    var x := EvalString(t, env, l, c);
    var y := EvalString(t, env, r, c);
    b := StrCmp(equal, x, y);
  }

  method CompareRelation(t: Tree, env: Env, strict: bool, l: Expr, r: Expr, c: Ctx, ghost e: Expr) returns (b: bool)
    requires Wf(t) && EnvOk(t, env) && AsProgrammed(t, env) && SoundExpr(l) && SoundExpr(r) && CtxOk(t, c) && l < e && r < e
    ensures b == CompareRel(t, env, strict, Eval(t, env, l, c), Eval(t, env, r, c))
    decreases e, 2, 0
  {
    if l.OfNodes? && r.OfNodes? {
      b := RelateSets(t, env, strict, l, r, c, e);
    } else if r.OfNodes? {
      b := RelateToSet(t, env, strict, l, r, c, e);
    } else if l.OfNodes? {
      b := RelateSetTo(t, env, strict, l, r, c, e);
    } else {
      b := RelateNumbers(t, env, strict, l, r, c, e);
    }
  }

  method RelateSets(t: Tree, env: Env, strict: bool, l: Expr, r: Expr, c: Ctx, ghost e: Expr) returns (b: bool)
    requires Wf(t) && EnvOk(t, env) && AsProgrammed(t, env) && SoundExpr(l) && SoundExpr(r) && CtxOk(t, c) && l < e && r < e
    requires l.OfNodes? && r.OfNodes?
    ensures b == CompareRel(t, env, strict, Eval(t, env, l, c), Eval(t, env, r, c))
    decreases e, 1, 0
  {
    var ls := AllNodes(t, env, l, c);
    var rs := AllNodes(t, env, r, c);
    b := AnyPairOfNumbers(t, env, (x, y) => RelCmp(strict, x, y), ls, rs);
  }

  /** A single value against all nodes of a set. */
  method RelateToSet(t: Tree, env: Env, strict: bool, l: Expr, r: Expr, c: Ctx, ghost e: Expr) returns (b: bool)
    requires Wf(t) && EnvOk(t, env) && AsProgrammed(t, env) && SoundExpr(l) && SoundExpr(r) && CtxOk(t, c) && l < e && r < e
    requires !l.OfNodes? && r.OfNodes?
    ensures b == CompareRel(t, env, strict, Eval(t, env, l, c), Eval(t, env, r, c))
    decreases e, 1, 0
  {
    TypeTrue(t, env, l, c);
    var x := EvalNumber(t, env, l, c);
    var rs := AllNodes(t, env, r, c);
    b := AnyNumber(t, env, (x, y) => RelCmp(strict, x, y), x, rs);
  }

  method RelateSetTo(t: Tree, env: Env, strict: bool, l: Expr, r: Expr, c: Ctx, ghost e: Expr) returns (b: bool)
    requires Wf(t) && EnvOk(t, env) && AsProgrammed(t, env) && SoundExpr(l) && SoundExpr(r) && CtxOk(t, c) && l < e && r < e
    requires l.OfNodes? && !r.OfNodes?
    ensures b == CompareRel(t, env, strict, Eval(t, env, l, c), Eval(t, env, r, c))
    decreases e, 1, 0
  {
    TypeTrue(t, env, r, c);
    var ls := AllNodes(t, env, l, c);
    var y := EvalNumber(t, env, r, c);
    b := AnyNumber(t, env, (y, x) => RelCmp(strict, x, y), y, ls);
  }

  method RelateNumbers(t: Tree, env: Env, strict: bool, l: Expr, r: Expr, c: Ctx, ghost e: Expr) returns (b: bool)
    requires Wf(t) && EnvOk(t, env) && AsProgrammed(t, env) && SoundExpr(l) && SoundExpr(r) && CtxOk(t, c) && l < e && r < e
    requires !l.OfNodes? && !r.OfNodes?
    ensures b == CompareRel(t, env, strict, Eval(t, env, l, c), Eval(t, env, r, c))
    decreases e, 1, 0
  {
    TypeTrue(t, env, l, c);
    TypeTrue(t, env, r, c);
    var x := EvalNumber(t, env, l, c);
    var y := EvalNumber(t, env, r, c);
    b := RelCmp(strict, x, y);
  }

  // Values.

  /** Work still to do when an expression is converted to another type than its own. */
  function Detour(e: Expr, own: ScalarType): nat {
    if TypeOf(e) == TScalar(own) || (own == TStr && TypeOf(e) == TSet) then 0 else 1
  }

  /** The first attribute of that name, or the number of attributes. */
  method FirstAttribute(t: Tree, n: Ref, name: string) returns (k: nat)
    requires Wf(t) && n in t.node
    ensures k <= |t.node[n].attrs| && forall j | 0 <= j < k :: t.node[n].attrs[j].name != name
    ensures k < |t.node[n].attrs| ==> t.node[n].attrs[k].name == name
  {
    k := 0;
    while k < |t.node[n].attrs| && t.node[n].attrs[k].name != name
      invariant k <= |t.node[n].attrs| && forall j | 0 <= j < k :: t.node[n].attrs[j].name != name
    {
      k := k + 1;
    }
  }

  lemma {:induction false} FirstNamedAt(s: seq<Attr>, name: string, value: string, k: nat)
    requires k <= |s| && (forall j | 0 <= j < k :: s[j].name != name) && (k < |s| ==> s[k].name == name)
    ensures FirstNamedIs(s, name, value) <==> k < |s| && s[k].value == value
  {
    if k > 0 {
      FirstNamedAt(s[1..], name, value, k - 1);
    }
  }

  method CompareAttribute(t: Tree, x: XNode, name: string, value: string) returns (b: bool)
    requires Wf(t) && (x == XNull || Has(t, x))
    ensures b == FirstAttributeIs(t, x, name, value)
  {
    if !x.XElem? {
      return false;
    }
    var k := FirstAttribute(t, x.n, name);
    var s := t.node[x.n].attrs;
    FirstNamedAt(s, name, value, k);
    b := k < |s| && s[k].value == value && IsXPathAttribute(s[k].name);
  }

  method EvalBoolean(t: Tree, env: Env, e: Expr, c: Ctx) returns (b: bool)
    requires Wf(t) && EnvOk(t, env) && AsProgrammed(t, env) && SoundExpr(e) && CtxOk(t, c)
    ensures b == ToBool(Eval(t, env, e, c))
    decreases e, 3, Detour(e, TBool)
  {
    TypeTrue(t, env, e, c);
    match TypeOf(e)
    case TScalar(TNum) =>
      var n := EvalNumber(t, env, e, c);
      b := !n.NaN? && n != Fin(0.0);
    case TScalar(TStr) =>
      var s := EvalString(t, env, e, c);
      b := s != "";
    case TSet =>
      var ns := EvalNodeSet(t, env, e.s, c, Any);
      b := ns.items != [];
      EmptySame(ns.items, Elements(ns.items));
    case TScalar(TBool) =>
      if e.Two? {
        b := BooleanOfTwo(t, env, e, c);
      } else {
        b := BooleanOfOther(t, env, e, c);
      }
  }

  method BooleanOfOther(t: Tree, env: Env, e: Expr, c: Ctx) returns (b: bool)
    requires Wf(t) && EnvOk(t, env) && AsProgrammed(t, env) && SoundExpr(e) && CtxOk(t, c)
    requires TypeOf(e) == TScalar(TBool) && !e.Two?
    ensures b == ToBool(Eval(t, env, e, c))
    decreases e, 2, 0
  {
    match e
    case Var(v, _) => b := env.bools(v);
    case Zero(f) => b := f == True;
    case One(f, a) =>
      if f == Lang {
        var lang := EvalString(t, env, a, c);
        b := InLanguage(t, c.n, lang);
      } else {
        b := EvalBoolean(t, env, a, c);
        if f == Not {
          b := !b;
        }
      }
    case OptCompareAttribute(name, v) =>
      var value := if v.StrConst? then v.str else env.strs(v.v);
      b := CompareAttribute(t, c.n, name, value);
  }

  method BooleanOfTwo(t: Tree, env: Env, e: Expr, c: Ctx) returns (b: bool)
    requires Wf(t) && EnvOk(t, env) && AsProgrammed(t, env) && SoundExpr(e) && CtxOk(t, c)
    requires TypeOf(e) == TScalar(TBool) && e.Two?
    ensures b == ToBool(Eval(t, env, e, c))
    decreases e, 2, 1
  {
    var l, r := e.left, e.right;
    if e.f2 == Or {
      b := EvalBoolean(t, env, l, c);
      if !b {
        b := EvalBoolean(t, env, r, c);
      }
    } else if e.f2 == And {
      b := EvalBoolean(t, env, l, c);
      if b {
        b := EvalBoolean(t, env, r, c);
      }
    } else if e.f2 in {Equal, NotEqual} {
      b := CompareEquality(t, env, e.f2 == Equal, l, r, c, e);
    } else if e.f2 in {TwoFun.Less, LessOrEqual} {
      b := CompareRelation(t, env, e.f2 == TwoFun.Less, l, r, c, e);
    } else if e.f2 in {Greater, GreaterOrEqual} {
      b := CompareRelation(t, env, e.f2 == Greater, r, l, c, e);
    } else {
      var s := EvalString(t, env, l, c);
      var p := EvalString(t, env, r, c);
      b := if e.f2 == StartsWithFun then p <= s else Find(s, p) <= |s|;
    }
  }

  method EvalNumber(t: Tree, env: Env, e: Expr, c: Ctx) returns (n: Num)
    requires Wf(t) && EnvOk(t, env) && AsProgrammed(t, env) && SoundExpr(e) && CtxOk(t, c)
    ensures n == ToNum(t, env, Eval(t, env, e, c))
    decreases e, 3, Detour(e, TNum)
  {
    TypeTrue(t, env, e, c);
    match TypeOf(e)
    case TScalar(TBool) =>
      var b := EvalBoolean(t, env, e, c);
      n := if b then Fin(1.0) else Fin(0.0);
    case TScalar(TNum) =>
      match e {
        case NumConst(x) => n := x;
        case Var(v, _) => n := env.nums(v);
        case Zero(f) => n := NumberOfZero(t, env, f, c);
        case One(f, a) => n := NumberOfOne(t, env, e, c);
        case OfSet(f, s) => n := NumberOfSet(t, env, e, c);
        case Two(f, l, r) => n := NumberOfTwo(t, env, e, c);
      }
    case _ =>
      var s := EvalString(t, env, e, c);
      n := env.parse(s);
  }

  method NumberOfZero(t: Tree, env: Env, f: ZeroFun, c: Ctx) returns (n: Num)
    requires Wf(t) && CtxOk(t, c) && f in {Last, Position, StringLength0, Number0}
    ensures VNum(n) == EvalZero(t, env, f, c)
  {
    if f == Last {
      n := Fin(c.size as real);
    } else if f == Position {
      n := Fin(c.pos as real);
    } else {
      var s := StringOf(t, c.n);
      n := if f == StringLength0 then Fin(|s| as real) else env.parse(s);
    }
  }

  method NumberOfOne(t: Tree, env: Env, e: Expr, c: Ctx) returns (n: Num)
    requires Wf(t) && EnvOk(t, env) && AsProgrammed(t, env) && SoundExpr(e) && CtxOk(t, c) && e.One? && IsNumber(e)
    ensures VNum(n) == Eval(t, env, e, c)
    decreases e, 2, 0
  {
    if e.f1 == StringLength1 {
      var s := EvalString(t, env, e.arg, c);
      n := Fin(|s| as real);
    } else {
      n := EvalNumber(t, env, e.arg, c);
      match e.f1
      case Negate => n := Neg(n);
      case Floor => n := FloorOf(n);
      case Ceiling => n := CeilingOf(n);
      case Round => n := RoundOf(n);
      case _ =>
    }
  }

  method NumberOfSet(t: Tree, env: Env, e: Expr, c: Ctx) returns (n: Num)
    requires Wf(t) && EnvOk(t, env) && AsProgrammed(t, env) && SoundExpr(e) && CtxOk(t, c) && e.OfSet? && IsNumber(e)
    ensures VNum(n) == Eval(t, env, e, c)
    decreases e, 2, 0
  {
    var ns := EvalNodeSet(t, env, e.set_, c, All);
    ghost var xs := EvalSet(t, env, e.set_, c);
    if e.fs == Count {
      DistinctSize(ns.items);
      assert xs == Elements(ns.items);
      n := Fin(|ns.items| as real);
    } else {
      n := SumItems(t, env, ns.items);
      EvalSetHas(t, env, e.set_, c);
      InOrderIs(t, xs);
      OrderedDistinct(t, InOrder(t, xs));
      SumPermutes(t, env, ns.items, InOrder(t, xs));
    }
  }

  method NumberOfTwo(t: Tree, env: Env, e: Expr, c: Ctx) returns (n: Num)
    requires Wf(t) && EnvOk(t, env) && AsProgrammed(t, env) && SoundExpr(e) && CtxOk(t, c) && e.Two? && IsNumber(e)
    ensures VNum(n) == Eval(t, env, e, c)
    decreases e, 2, 0
  {
    var x := EvalNumber(t, env, e.left, c);
    var y := EvalNumber(t, env, e.right, c);
    match e.f2
    case Add => n := Plus(x, y);
    case Subtract => n := Plus(x, Neg(y));
    case Multiply => n := Times(x, y);
    case Divide => n := Over(x, y);
    case _ => n := Remainder(x, y);
  }

  /** The first node in document order; the set is evaluated no further than that. */
  method FirstNode(t: Tree, env: Env, s: SetExpr, c: Ctx) returns (x: XNode)
    requires Wf(t) && EnvOk(t, env) && AsProgrammed(t, env) && SoundSet(s) && CtxOk(t, c)
    ensures x == FirstOf(t, EvalSet(t, env, s, c)) && (x == XNull || Has(t, x))
    decreases s, 4, 0
  {
    var ns := EvalNodeSet(t, env, s, c, First);
    x := NodeSets.First(t, ns);
    ghost var xs := EvalSet(t, env, s, c);
    EvalSetHas(t, env, s, c);
    FirstOfIs(t, xs);
    FirstFound(t, ns.items, xs, x);
  }

  lemma FirstFound(t: Tree, s: seq<XNode>, xs: set<XNode>, x: XNode)
    requires Wf(t) && SetHas(t, xs) && AllHas(t, s) && GoodFor(t, First, s, xs)
    requires s == [] ==> x == XNull
    requires s != [] ==> IsFirst(t, s, x)
    ensures x == FirstOf(t, xs)
  {
    FirstOfIs(t, xs);
    if s != [] {
      assert x in xs;
      DocLessTotal(t, x, FirstOf(t, xs));
    }
  }

  method NameOf(t: Tree, x: XNode) returns (s: string)
    requires Wf(t) && (x == XNull || Has(t, x))
    ensures s == QualifiedName(t, x)
  {
    match x
    case XNull => s := "";
    case XElem(n) => s := t.node[n].info.name;
    case XAttr(a, p) =>
      var k := FindAttr(t.node[p].attrs, a);
      s := t.node[p].attrs[k].name;
  }

  method EvalString(t: Tree, env: Env, e: Expr, c: Ctx) returns (s: string)
    requires Wf(t) && EnvOk(t, env) && AsProgrammed(t, env) && SoundExpr(e) && CtxOk(t, c)
    ensures s == ToStr(t, env, Eval(t, env, e, c))
    decreases e, 3, Detour(e, TStr)
  {
    TypeTrue(t, env, e, c);
    match TypeOf(e)
    case TScalar(TBool) =>
      var b := EvalBoolean(t, env, e, c);
      s := if b then "true" else "false";
    case TScalar(TNum) =>
      var n := EvalNumber(t, env, e, c);
      s := env.format(n);
    case TSet =>
      var x := FirstNode(t, env, e.s, c);
      s := StringOf(t, x);
    case TScalar(TStr) =>
      s := StringOfString(t, env, e, c);
  }

  method StringOfString(t: Tree, env: Env, e: Expr, c: Ctx) returns (s: string)
    requires Wf(t) && EnvOk(t, env) && AsProgrammed(t, env) && SoundExpr(e) && CtxOk(t, c) && TypeOf(e) == TScalar(TStr)
    ensures VStr(s) == Eval(t, env, e, c)
    decreases e, 2, 1
  {
    match e
    case StrConst(x) => s := x;
    case Var(v, _) => s := env.strs(v);
    case Zero(f) =>
      s := StringOfZero(t, env, f, c);
    case One(f, a) =>
      s := EvalString(t, env, a, c);
      if f == NormalizeSpace1 {
        s := Normalized(s);
      }
    case OfSet(f, set_) =>
      var x := FirstNode(t, env, set_, c);
      if f == NamespaceUri1 {
        s := UriOf(t, x);
      } else {
        s := NameOf(t, x);
        if f == LocalName1 {
          s := LocalPart(s);
        }
      }
    case Two(f, l, r) => s := StringOfTwo(t, env, e, c);
    case Substring3(_, _, _) => s := StringOfSubstring(t, env, e, c);
    case Concat(a, rest) => s := ConcatStrings(t, env, a, rest, c, e);
    case Translate(a, from, to) =>
      var x := EvalString(t, env, a, c);
      var y := EvalString(t, env, from, c);
      var z := EvalString(t, env, to, c);
      s := Translated(x, y, z);
    case OptTranslateTable(a, table) =>
      var x := EvalString(t, env, a, c);
      s := TranslatedByTable(x, table);
  }

  method StringOfZero(t: Tree, env: Env, f: ZeroFun, c: Ctx) returns (s: string)
    requires Wf(t) && CtxOk(t, c) && TypeOf(Zero(f)) == TScalar(TStr)
    ensures VStr(s) == EvalZero(t, env, f, c)
  {
    if f == NamespaceUri0 {
      s := UriOf(t, c.n);
    } else if f in {String0, NormalizeSpace0} {
      s := StringOf(t, c.n);
      if f == NormalizeSpace0 {
        s := Normalized(s);
      }
    } else {
      s := NameOf(t, c.n);
      if f == LocalName0 {
        s := LocalPart(s);
      }
    }
  }

  method StringOfTwo(t: Tree, env: Env, e: Expr, c: Ctx) returns (s: string)
    requires Wf(t) && EnvOk(t, env) && AsProgrammed(t, env) && SoundExpr(e) && CtxOk(t, c) && e.Two? && TypeOf(e) == TScalar(TStr)
    ensures VStr(s) == Eval(t, env, e, c)
    decreases e, 2, 0
  {
    s := EvalString(t, env, e.left, c);
    if e.f2 == Substring2 {
      var start := EvalNumber(t, env, e.right, c);
      s := FromPosition(s, start);
    } else {
      var p := EvalString(t, env, e.right, c);
      s := if e.f2 == SubstringBefore then Before_(s, p) else After_(s, p);
    }
  }

  method StringOfSubstring(t: Tree, env: Env, e: Expr, c: Ctx) returns (s: string)
    requires Wf(t) && EnvOk(t, env) && AsProgrammed(t, env) && SoundExpr(e) && CtxOk(t, c) && e.Substring3?
    ensures VStr(s) == Eval(t, env, e, c)
    decreases e, 2, 0
  {
    s := EvalString(t, env, e.text, c);
    var start := EvalNumber(t, env, e.start, c);
    var length := EvalNumber(t, env, e.length, c);
    s := BetweenPositions(s, start, length);
  }

  method Translated(x: string, from: string, to: string) returns (s: string)
    ensures s == TranslateText(x, from, to)
  {
    var a := new char[|x|](i requires 0 <= i < |x| => x[i]);
    assert a[..] == x;
    var k := TranslateBuffer(a, from, to);
    s := a[..k];
  }

  method TranslatedByTable(x: string, table: seq<nat>) returns (s: string)
    requires TableOk(table)
    ensures s == TranslateByTable(x, table)
  {
    var a := new char[|x|](i requires 0 <= i < |x| => x[i]);
    assert a[..] == x;
    var k := TranslateTableBuffer(a, table);
    s := a[..k];
  }

  method ConcatStrings(t: Tree, env: Env, first: Expr, rest: Exprs, c: Ctx, ghost e: Expr) returns (s: string)
    requires Wf(t) && EnvOk(t, env) && AsProgrammed(t, env) && CtxOk(t, c) && e == Concat(first, rest) && SoundExpr(e)
    ensures VStr(s) == Eval(t, env, e, c)
    decreases e, 2, 0
  {
    s := EvalString(t, env, first, c);
    var es := rest;
    while es.ECons?
      invariant SoundExprs(es) && (es == rest || es < rest)
      invariant s + EvalConcat(t, env, es, c) == ToStr(t, env, Eval(t, env, first, c)) + EvalConcat(t, env, rest, c)
      decreases es
    {
      var more := EvalString(t, env, es.e, c);
      AppendAssociative(s, more, EvalConcat(t, env, es.es, c));
      s := s + more;
      es := es.es;
    }
    assert EvalConcat(t, env, es, c) == "";
  }
}
