/** Facts about the meaning of steps and predicates that the evaluator's loops rely on. */
module EvalFacts {
  import opened Sequences
  import opened XmlTree
  import opened Axes
  import opened Steps
  import opened DocumentOrder
  import opened NodeSets
  import opened DocumentSets
  import opened XPathSyntax
  import opened XPathSemantics
  import opened Optimizer
  import opened OptimizerCorrect

  // A step lists its nodes in document order on a forward axis, and backwards on a reverse one.

  /** s goes forward, or backward when back is set. */
  ghost predicate InDirection(t: Tree, back: bool, s: seq<XNode>)
    requires Wf(t)
  {
    AllHas(t, s) && if back then Backward(t, s) else Forward(t, s)
  }

  ghost predicate Goes(t: Tree, back: bool, x: XNode, y: XNode)
    requires Wf(t) && Has(t, x) && Has(t, y)
  {
    if back then DocLess(t, y, x) else DocLess(t, x, y)
  }

  /** The same for plain nodes. */
  ghost predicate NodesInDirection(t: Tree, back: bool, s: seq<Ref>)
    requires Wf(t)
  {
    && (forall i | 0 <= i < |s| :: s[i] in t.node)
    && forall i, j | 0 <= i < j < |s| :: if back then Pos(t, s[j]) < Pos(t, s[i]) else Pos(t, s[i]) < Pos(t, s[j])
  }

  lemma DirectionAppend(t: Tree, back: bool, a: seq<XNode>, b: seq<XNode>)
    requires Wf(t) && InDirection(t, back, a) && InDirection(t, back, b)
    requires forall x, y | x in a && y in b :: Goes(t, back, x, y)
    ensures InDirection(t, back, a + b)
  {
    forall i, j | 0 <= i < |a| && 0 <= j < |b| ensures Goes(t, back, a[i], b[j]) {
      assert a[i] in a && b[j] in b;
    }
  }

  lemma AxisNodesDirection(t: Tree, axis: Axis, n: Ref)
    requires Wf(t) && n in t.node
    ensures NodesInDirection(t, IsReverse(axis), AxisNodes(t, axis, n))
  {
    var s := Sequences.Filter(Nodes(t), m => m in t.node && OnAxis(t, axis, n, m));
    NodesAscend(t);
    FilterAscends(Positions(t), Nodes(t), m => m in t.node && OnAxis(t, axis, n, m));
    assert NodesInDirection(t, false, s);
    if IsReverse(axis) {
      ReverseDirection(t, s);
    }
  }

  lemma ReverseDirection(t: Tree, s: seq<Ref>)
    requires Wf(t) && NodesInDirection(t, false, s)
    ensures NodesInDirection(t, true, Reverse(s))
  {
    forall i | 0 <= i < |s| ensures Reverse(s)[i] == s[|s| - 1 - i] {
      ReverseAt(s, i);
    }
  }

  lemma {:induction false} PickedDirection(t: Tree, back: bool, test: NodeTest, s: seq<Ref>)
    requires Wf(t) && NodesInDirection(t, back, s)
    ensures InDirection(t, back, Picked(t, test, s))
  {
    if s != [] {
      PickedDirection(t, back, test, s[1..]);
      if NodePasses(test, t.node[s[0]].info) {
        var rest := Picked(t, test, s[1..]);
        forall y | y in rest ensures Goes(t, back, XElem(s[0]), y) {
          PickedMembers(t, test, s[1..], y);
          var i := IndexOf(s[1..], y.n);
          assert s[i + 1] == y.n;
        }
        DirectionAppend(t, back, [XElem(s[0])], rest);
      }
    }
  }

  lemma {:induction false} PickedAttrsDirection(t: Tree, test: NodeTest, p: Ref, k: nat)
    requires Wf(t) && p in t.node && k <= |t.node[p].attrs|
    ensures InDirection(t, false, PickedAttrs(test, t.node[p].attrs[k..], p))
    decreases |t.node[p].attrs| - k
  {
    var s := t.node[p].attrs;
    if k < |s| {
      PickedAttrsDirection(t, test, p, k + 1);
      assert s[k..][1..] == s[k + 1..] && s[k..][0] == s[k];
      assert AttrWf(t, p, k);
      if AttrPasses(test, s[k]) {
        var x, rest := XAttr(s[k].id, p), PickedAttrs(test, s[k + 1..], p);
        forall y | y in rest ensures Goes(t, false, x, y) {
          PickedAttrsMembers(test, s[k + 1..], p, y);
          var i :| 0 <= i < |s[k + 1..]| && y == XAttr(s[k + 1..][i].id, p);
          assert s[k + 1..][i] == s[k + 1 + i];
          assert AttrWf(t, p, k + 1 + i);
        }
        DirectionAppend(t, false, [x], rest);
      }
    }
  }

  lemma StepItemsDirection(t: Tree, axis: Axis, test: NodeTest, x: XNode)
    requires Wf(t)
    ensures InDirection(t, IsReverse(axis), StepItems(t, axis, test, x))
  {
    if Has(t, x) {
      if x.XElem? {
        if axis == AttributeAxis {
          PickedAttrsDirection(t, test, x.n, 0);
          assert t.node[x.n].attrs[0..] == t.node[x.n].attrs;
        } else {
          AxisNodesDirection(t, axis, x.n);
          PickedDirection(t, IsReverse(axis), test, AxisNodes(t, axis, x.n));
        }
      } else {
        AttrItemsDirection(t, axis, test, x.a, x.p);
      }
    }
  }

  lemma AttrItemsDirection(t: Tree, axis: Axis, test: NodeTest, a: Ref, p: Ref)
    requires Wf(t) && Has(t, XAttr(a, p))
    ensures InDirection(t, IsReverse(axis), StepItems(t, axis, test, XAttr(a, p)))
  {
    match axis {
      case Ancestor => PickedAxisDirection(t, AncestorOrSelf, test, p);
      case AncestorOrSelf =>
        PickedAxisDirection(t, AncestorOrSelf, test, p);
        var up := Picked(t, test, AxisNodes(t, AncestorOrSelf, p));
        forall y | y in up ensures Goes(t, true, XAttr(a, p), y) {
          StepFromNode(t, AncestorOrSelf, test, p, y);
          UnderPos(t, p, y.n);
          if Pos(t, p) == Pos(t, y.n) { PosInjective(t, p, y.n); }
        }
        DirectionAppend(t, true, SelfAttr(t, test, a, p), up);
      case Following =>
        PickedAxisDirection(t, Descendant, test, p);
        PickedAxisDirection(t, Following, test, p);
        var below, after := Picked(t, test, AxisNodes(t, Descendant, p)), Picked(t, test, AxisNodes(t, Following, p));
        forall y, z | y in below && z in after ensures Goes(t, false, y, z) {
          StepFromNode(t, Descendant, test, p, y);
          StepFromNode(t, Following, test, p, z);
          Locate(t, p, y.n);
          Locate(t, p, z.n);
        }
        DirectionAppend(t, false, below, after);
      case ParentAxis => PickedDirection(t, false, test, [p]);
      case Preceding => PickedAxisDirection(t, Preceding, test, p);
      case _ =>
    }
  }

  lemma PickedAxisDirection(t: Tree, axis: Axis, test: NodeTest, p: Ref)
    requires Wf(t) && p in t.node
    ensures InDirection(t, IsReverse(axis), Picked(t, test, AxisNodes(t, axis, p)))
  {
    AxisNodesDirection(t, axis, p);
    PickedDirection(t, IsReverse(axis), test, AxisNodes(t, axis, p));
  }

  // Predicates keep the order.

  lemma DirectionTail(t: Tree, back: bool, s: seq<XNode>)
    requires Wf(t) && InDirection(t, back, s) && s != []
    ensures InDirection(t, back, s[1..]) && InDirection(t, back, s[..1])
    ensures forall y | y in s[1..] :: Goes(t, back, s[0], y)
  {
  }

  lemma {:induction false} KeepMembers(t: Tree, env: Env, p: Expr, s: seq<XNode>, i: nat, size: nat, x: XNode)
    requires Wf(t)
    ensures x in Keep(t, env, p, s, i, size) ==> x in s
  {
    if s != [] {
      KeepMembers(t, env, p, s[1..], i + 1, size, x);
      assert s == [s[0]] + s[1..];
    }
  }

  lemma {:induction false} KeepDirection(t: Tree, env: Env, back: bool, p: Expr, s: seq<XNode>, i: nat, size: nat)
    requires Wf(t) && InDirection(t, back, s)
    ensures InDirection(t, back, Keep(t, env, p, s, i, size))
  {
    if s != [] {
      DirectionTail(t, back, s);
      var rest := Keep(t, env, p, s[1..], i + 1, size);
      KeepDirection(t, env, back, p, s[1..], i + 1, size);
      forall y | y in rest ensures Goes(t, back, s[0], y) {
        KeepMembers(t, env, p, s[1..], i + 1, size, y);
      }
      DirectionAppend(t, back, [s[0]], rest);
    }
  }

  lemma {:induction false} ApplyDirection(t: Tree, env: Env, back: bool, preds: Preds, s: seq<XNode>)
    requires Wf(t) && InDirection(t, back, s)
    ensures InDirection(t, back, ApplyPreds(t, env, preds, s))
  {
    if preds.PCons? {
      KeepDirection(t, env, back, preds.pred, s, 0, |s|);
      ApplyDirection(t, env, back, preds.rest, Keep(t, env, preds.pred, s, 0, |s|));
    }
  }

  lemma {:induction false} ApplyMembers(t: Tree, env: Env, preds: Preds, s: seq<XNode>, x: XNode)
    requires Wf(t) && x in ApplyPreds(t, env, preds, s)
    ensures x in s
  {
    if preds.PCons? {
      ApplyMembers(t, env, preds.rest, Keep(t, env, preds.pred, s, 0, |s|), x);
      KeepMembers(t, env, preds.pred, s, 0, |s|, x);
    }
  }

  lemma ReachedDirection(t: Tree, env: Env, axis: Axis, test: NodeTest, x: XNode)
    requires Wf(t)
    ensures InDirection(t, IsReverse(axis), Reached(t, env, axis, test, x))
  {
    StepItemsDirection(t, axis, test, x);
  }

  lemma {:induction false} SelectedDirection(t: Tree, env: Env, axis: Axis, test: NodeTest, preds: Preds, x: XNode)
    requires Wf(t)
    ensures InDirection(t, IsReverse(axis), Selected(t, env, axis, test, preds, x))
  {
    var s := Reached(t, env, axis, test, x);
    assert InDirection(t, IsReverse(axis), ApplyPreds(t, env, preds, s)) by {
      ReachedDirection(t, env, axis, test, x);
      ApplyDirection(t, env, IsReverse(axis), preds, s);
    }
  }

  lemma {:induction false} KeepAppend(t: Tree, env: Env, p: Expr, a: seq<XNode>, b: seq<XNode>, i: nat, size: nat)
    requires Wf(t)
    ensures Keep(t, env, p, a + b, i, size) == Keep(t, env, p, a, i, size) + Keep(t, env, p, b, i + |a|, size)
  {
    if a == [] {
      assert a + b == b;
    } else {
      assert (a + b)[1..] == a[1..] + b;
      KeepAppend(t, env, p, a[1..], b, i + 1, size);
    }
  }

  // Constant predicates.

  lemma ConstantValue(t: Tree, env: Env, p: Expr, c: Ctx, d: Ctx)
    requires Wf(t) && IsConstant(p) && c.size == d.size
    ensures Eval(t, env, p, c) == Eval(t, env, p, d) && Eval(t, env, p, c).VNum?
  {
  }

  /** Is v one of the whole numbers i + 1 to i + n? */
  predicate IsPosition(v: Num, i: nat, n: nat) {
    v.Fin? && v.r == v.r.Floor as real && i < v.r.Floor <= i + n
  }

  /** A constant predicate keeps the node at that position, if there is one. */
  lemma {:induction false} KeepConstant(t: Tree, env: Env, p: Expr, s: seq<XNode>, i: nat, size: nat, v: Num)
    requires Wf(t) && IsConstant(p) && Eval(t, env, p, Ctx(XNull, 1, size)) == VNum(v)
    ensures IsPosition(v, i, |s|) ==> Keep(t, env, p, s, i, size) == [s[v.r.Floor - 1 - i]]
    ensures !IsPosition(v, i, |s|) ==> Keep(t, env, p, s, i, size) == []
  {
    if s != [] {
      ConstantValue(t, env, p, Ctx(s[0], i + 1, size), Ctx(XNull, 1, size));
      KeepConstant(t, env, p, s[1..], i + 1, size, v);
    }
  }

  // Sets of a well-formed document stay inside it.

  ghost predicate EnvOk(t: Tree, env: Env)
    requires Wf(t)
  {
    forall v :: Truthful(t, env.sets(v))
  }

  lemma EvalSetHas(t: Tree, env: Env, s: SetExpr, c: Ctx)
    requires Wf(t) && EnvOk(t, env)
    ensures SetHas(t, EvalSet(t, env, s, c))
  {
    match s
    case Union(l, r) =>
      EvalSetHas(t, env, l, c);
      EvalSetHas(t, env, r, c);
    case Filter(inner, p, _) =>
      EvalSetHas(t, env, inner, c);
      InOrderIs(t, EvalSet(t, env, inner, c));
      var xs := InOrder(t, EvalSet(t, env, inner, c));
      forall x | x in EvalSet(t, env, s, c) ensures Has(t, x) {
        KeepMembers(t, env, p, xs, 0, |xs|, x);
      }
    case Step(base, axis, test, preds) =>
      forall y | y in EvalSet(t, env, s, c) ensures Has(t, y) {
        var x :| x in EvalBase(t, env, base, c) && y in Selected(t, env, axis, test, preds, x);
        SelectedDirection(t, env, axis, test, preds, x);
      }
    case SetVar(v) => assert Truthful(t, env.sets(v));
    case _ =>
  }
}
