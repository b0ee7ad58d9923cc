/** The syntax tree as the rewriter sees it: linked nodes that it changes in place. */
module AstNode {
  import opened Sequences
  import opened Axes
  import opened Steps
  import opened XPathSyntax
  import opened Optimizer
  import opened TextFunctions

  /** Node type together with the constant it carries. */
  datatype Kind =
    | KUnion | KFilter | KPredicate | KStep | KRoot | KId
    | KStr(str: string) | KNum(num: Num) | KVar(v: string)
    | KZero(f0: ZeroFun) | KOne(f1: OneFun) | KOfSet(fs: SetFun) | KTwo(f2: TwoFun)
    | KConcat | KTranslate | KSubstring3 | KTable(table: seq<nat>) | KCompareAttribute

  /** The test of a step, or what is known about a predicate. */
  datatype Test = NoTest | OfStep(nodetest: NodeTest) | OfPredicate(cls: PredClass)

  /** The value of a linked node: the node with all that hangs off it. */
  datatype Term =
    | Nil
    | Node(kind: Kind, ret: ValueType, axis: Axis, test: Test, left: Term, right: Term, next: Term)

  // The rewriter on values.

  /** Constants, variables and paths do not look at the position themselves. */
  predicate Settled(kind: Kind) {
    kind.KStr? || kind.KNum? || kind.KVar? || kind.KStep? || kind.KRoot? || kind.KPredicate? || kind.KFilter?
  }

  predicate Positional(kind: Kind) {
    kind == KZero(Last) || kind == KZero(Position)
  }

  predicate PosinvTerm(t: Term)
    decreases t, 0
  {
    t.Node? ==> !Positional(t.kind) && (Settled(t.kind) || (PosinvTerm(t.left) && PosinvChain(t.right)))
  }

  predicate PosinvChain(t: Term)
    decreases t, 1
  {
    t.Node? ==> PosinvTerm(t) && PosinvChain(t.next)
  }

  predicate PosinvStep(t: Term) {
    t.Node? ==> t.test == OfPredicate(Posinv) && PosinvStep(t.next)
  }

  predicate HasPredicate(kind: Kind) {
    kind == KFilter || kind == KPredicate
  }

  /** The rewriter looks at these children without checking that they exist. */
  predicate CompleteAt(kind: Kind, left: Term, right: Term) {
    && (HasPredicate(kind) ==> right.Node?)
    && (kind.KTwo? ==> left.Node? && right.Node?)
    && (kind == KTranslate ==> right.Node? && right.next.Node? && ConstantText(right) && ConstantText(right.next))
  }

  /** String constants are zero-terminated in the source, so they do not contain a zero. */
  predicate ConstantText(t: Term) {
    t.Node? && t.kind.KStr? ==> '\0' !in t.kind.str
  }

  predicate Complete(t: Term) {
    t.Node? ==> CompleteAt(t.kind, t.left, t.right) && Complete(t.left) && Complete(t.right) && Complete(t.next)
  }

  function DropPositionTerm(t: Term): Term {
    if t.Node? && HasPredicate(t.kind) && t.right.Node? && t.right.kind == KTwo(Equal)
       && t.right.left.Node? && t.right.left.kind == KZero(Position)
       && t.right.right.Node? && t.right.right.ret == TScalar(TNum)
    then t.(right := t.right.right) else t
  }

  /** What is found out about a predicate; nothing new in the default case. */
  function ClassFor(p: Term, test: Test): Test
    requires p.Node?
  {
    if p.kind == KNum(Fin(1.0)) then OfPredicate(ConstantOne)
    else if p.ret == TScalar(TNum) && (p.kind.KNum? || p.kind.KVar? || p.kind == KZero(Last)) then OfPredicate(ConstantClass)
    else if p.ret != TScalar(TNum) && PosinvTerm(p) then OfPredicate(Posinv)
    else test
  }

  function ClassifyTerm(t: Term): Term {
    if t.Node? && HasPredicate(t.kind) && t.right.Node? then t.(test := ClassFor(t.right, t.test)) else t
  }

  function FuseTerm(t: Term): Term {
    if t.Node? && t.kind == KStep && t.axis in {Child, SelfAxis, Descendant, DescendantOrSelf}
       && t.left.Node? && t.left.kind == KStep && t.left.axis == DescendantOrSelf && t.left.test == OfStep(TypeNode) && t.left.right.Nil?
       && PosinvStep(t.right)
    then t.(axis := if t.axis == Child || t.axis == Descendant then Descendant else DescendantOrSelf, left := t.left.left)
    else t
  }

  function TableTerm(t: Term): Term {
    if t.Node? && t.kind == KTranslate && t.right.Node? && t.right.kind.KStr? && t.right.next.Node? && t.right.next.kind.KStr?
       && TableFits(t.right.kind.str, t.right.next.kind.str)
    then t.(kind := KTable(TableFor(t.right.kind.str, t.right.next.kind.str)))
    else t
  }

  function CompareTerm(t: Term): Term {
    if t.Node? && t.kind == KTwo(Equal) && t.left.Node? && t.right.Node?
       && t.left.kind == KStep && t.left.axis == AttributeAxis && t.left.test.OfStep? && t.left.test.nodetest.NameTest?
       && t.left.left.Nil? && t.left.right.Nil?
       && (t.right.kind.KStr? || (t.right.kind.KVar? && t.right.ret == TScalar(TStr)))
    then t.(kind := KCompareAttribute)
    else t
  }

  function OptNode(t: Term): Term {
    CompareTerm(TableTerm(FuseTerm(ClassifyTerm(DropPositionTerm(t)))))
  }

  /** Children first, then the node itself. */
  function OptTerm(t: Term): Term {
    if t.Nil? then Nil
    else OptNode(Node(t.kind, t.ret, t.axis, t.test, OptTerm(t.left), OptTerm(t.right), OptTerm(t.next)))
  }

  /** What every rewrite of one node leaves alone. */
  ghost predicate Kept(t: Term, u: Term) {
    u.Node? && t.Node? && u.next == t.next && Complete(u) && (ConstantText(t) ==> ConstantText(u))
  }

  lemma DropPositionKept(t: Term)
    requires Complete(t) && t.Node?
    ensures Kept(t, DropPositionTerm(t))
  {
  }

  lemma ClassifyKept(t: Term)
    requires Complete(t) && t.Node?
    ensures Kept(t, ClassifyTerm(t))
  {
  }

  lemma FuseKept(t: Term)
    requires Complete(t) && t.Node?
    ensures Kept(t, FuseTerm(t))
  {
  }

  lemma TableKept(t: Term)
    requires Complete(t) && t.Node?
    ensures Kept(t, TableTerm(t))
  {
  }

  lemma CompareKept(t: Term)
    requires Complete(t) && t.Node?
    ensures Kept(t, CompareTerm(t))
  {
  }

  lemma OptNodeKept(t: Term)
    requires Complete(t) && t.Node?
    ensures Kept(t, OptNode(t))
  {
    DropPositionKept(t);
    ClassifyKept(DropPositionTerm(t));
    FuseKept(ClassifyTerm(DropPositionTerm(t)));
    TableKept(FuseTerm(ClassifyTerm(DropPositionTerm(t))));
    CompareKept(TableTerm(FuseTerm(ClassifyTerm(DropPositionTerm(t)))));
  }

  lemma {:induction false} OptTermComplete(t: Term)
    requires Complete(t)
    ensures Complete(OptTerm(t)) && OptTerm(t).Node? == t.Node?
    ensures t.Node? ==> OptTerm(t).next == OptTerm(t.next)
    ensures ConstantText(t) ==> ConstantText(OptTerm(t))
    decreases t, 1
  {
    if t.Node? {
      OptChildren(t);
      OptNodeKept(Node(t.kind, t.ret, t.axis, t.test, OptTerm(t.left), OptTerm(t.right), OptTerm(t.next)));
    }
  }

  lemma {:induction false} OptChildren(t: Term)
    requires Complete(t) && t.Node?
    ensures Complete(Node(t.kind, t.ret, t.axis, t.test, OptTerm(t.left), OptTerm(t.right), OptTerm(t.next)))
    decreases t, 0
  {
    OptTermComplete(t.left);
    OptTermComplete(t.right);
    OptTermComplete(t.next);
    if t.kind == KTranslate {
      OptTermComplete(t.right.next);
    }
  }

  /** Two nodes agree in everything, apart from one child: 0 for left, 1 for right, 2 for next. */
  ghost predicate SameBut(t: Term, u: Term, child: nat) {
    && t.Node? && u.Node? && u.kind == t.kind && u.ret == t.ret && u.axis == t.axis && u.test == t.test
    && (child != 0 ==> u.left == t.left) && (child != 1 ==> u.right == t.right) && (child != 2 ==> u.next == t.next)
  }

  // Linked nodes.

  class Ast {
    var kind: Kind
    var ret: ValueType
    var axis: Axis
    var test: Test
    var left: Ast?
    var right: Ast?
    var next: Ast?
    ghost var repr: set<Ast>

    /** A tree: what hangs off the three links does not overlap. */
    ghost predicate Valid()
      reads this, repr
      decreases repr
    {
      && this in repr
      && (left != null ==> left in repr && left.repr < repr && this !in left.repr && left.Valid())
      && (right != null ==> right in repr && right.repr < repr && this !in right.repr && right.Valid())
      && (next != null ==> next in repr && next.repr < repr && this !in next.repr && next.Valid())
      && (left != null && right != null ==> left.repr !! right.repr)
      && (left != null && next != null ==> left.repr !! next.repr)
      && (right != null && next != null ==> right.repr !! next.repr)
    }

    ghost function Shape(): (t: Term)
      requires Valid()
      reads this, repr
      ensures t.Node?
      decreases repr
    {
      Node(kind, ret, axis, test,
        if left == null then Nil else left.Shape(),
        if right == null then Nil else right.Shape(),
        if next == null then Nil else next.Shape())
    }

    method IsPosinvExpr() returns (b: bool)
      requires Valid()
      ensures b == PosinvTerm(Shape())
      decreases repr
    {
      if Positional(kind) {
        return false;
      }
      if Settled(kind) {
        return true;
      }
      if left != null {
        b := left.IsPosinvExpr();
        if !b {
          return false;
        }
      }
      b := true;
      var n := right;
      while b && n != null
        invariant n != null ==> n.Valid() && n.repr < repr
        invariant PosinvChain(Shape().right) == (b && PosinvChain(ShapeOf(n)))
        decreases if n == null then {} else n.repr
      {
        b := n.IsPosinvExpr();
        n := n.next;
      }
    }

    method IsPosinvStep() returns (b: bool)
      requires Valid()
      ensures b == PosinvStep(Shape().right)
    {
      var n := right;
      while n != null
        invariant n != null ==> n.Valid()
        invariant PosinvStep(Shape().right) == PosinvStep(ShapeOf(n))
        decreases if n == null then {} else n.repr
      {
        if n.test != OfPredicate(Posinv) {
          return false;
        }
        n := n.next;
      }
      b := true;
    }

    method DropPosition()
      requires Valid() && Complete(Shape())
      modifies this
      ensures Valid() && repr == old(repr) && Shape() == DropPositionTerm(old(Shape()))
    {
      ghost var t := Shape();
      assert HasPredicate(kind) ==> right != null && right.Shape() == t.right && CompleteAt(t.right.kind, t.right.left, t.right.right);
      assert HasPredicate(kind) && right.kind.KTwo? ==> right.left.Shape() == t.right.left && right.right.Shape() == t.right.right;
      if HasPredicate(kind) && right.kind == KTwo(Equal) && right.left.kind == KZero(Position) && right.right.ret == TScalar(TNum) {
        right := right.right;
        RightSkipped();
      }
    }

    /** Only the fields of this node have changed, not its links. */
    twostate lemma HereRewritten()
      requires old(Valid()) && left == old(left) && right == old(right) && next == old(next) && repr == old(repr) && ret == old(ret)
      requires forall n: Ast {:trigger n in repr} | n in repr && n != this :: unchanged(n)
      ensures Valid() && old(Shape()).Node? && Shape() == old(Shape()).(kind := kind, axis := axis, test := test)
    {
    }

    method Classify()
      requires Valid() && Complete(Shape())
      modifies this
      ensures Valid() && repr == old(repr) && Shape() == ClassifyTerm(old(Shape()))
    {
      ghost var t := Shape();
      if HasPredicate(kind) {
        assert t.right == right.Shape();
        if right.kind == KNum(Fin(1.0)) {
          test := OfPredicate(ConstantOne);
        } else if right.ret == TScalar(TNum) && (right.kind.KNum? || right.kind.KVar? || right.kind == KZero(Last)) {
          test := OfPredicate(ConstantClass);
        } else if right.ret != TScalar(TNum) {
          var posinv := right.IsPosinvExpr();
          if posinv {
            test := OfPredicate(Posinv);
          }
        }
        assert test == ClassFor(t.right, t.test);
      }
      HereRewritten();
    }

    /** The left child has been replaced by its own left child. */
    twostate lemma LeftSkipped()
      requires old(Valid()) && old(left) != null && left == old(left.left) && right == old(right) && next == old(next) && repr == old(repr)
      requires forall n: Ast {:trigger n in repr} | n in repr && n != this :: unchanged(n)
      ensures Valid()
      ensures ShapeOf(left) == old(left.Shape()).left && ShapeOf(right) == old(ShapeOf(right)) && ShapeOf(next) == old(ShapeOf(next))
    {
    }

    /** The right child has been replaced by its own right child. */
    twostate lemma RightSkipped()
      requires old(Valid()) && old(right) != null && right == old(right.right) && left == old(left) && next == old(next) && repr == old(repr)
      requires forall n: Ast {:trigger n in repr} | n in repr && n != this :: unchanged(n)
      ensures Valid()
      ensures ShapeOf(right) == old(right.Shape()).right && ShapeOf(left) == old(ShapeOf(left)) && ShapeOf(next) == old(ShapeOf(next))
    {
    }

    method FuseStep()
      requires Valid() && Complete(Shape())
      modifies this
      ensures Valid() && repr == old(repr) && Shape() == FuseTerm(old(Shape()))
    {
      ghost var t := Shape();
      assert left != null ==> t.left == left.Shape() && t.left.right == ShapeOf(left.right);
      if kind == KStep && axis in {Child, SelfAxis, Descendant, DescendantOrSelf}
        && left != null && left.kind == KStep && left.axis == DescendantOrSelf && left.test == OfStep(TypeNode) && left.right == null
      {
        var posinv := IsPosinvStep();
        if posinv {
          axis := if axis == Child || axis == Descendant then Descendant else DescendantOrSelf;
          left := left.left;
          LeftSkipped();
        }
      }
    }

    method MakeTable()
      requires Valid() && Complete(Shape())
      modifies this
      ensures Valid() && repr == old(repr) && Shape() == TableTerm(old(Shape()))
    {
      ghost var t := Shape();
      assert kind == KTranslate ==> right != null && right.Shape() == t.right && right.next != null && right.next.Shape() == t.right.next;
      if kind == KTranslate && right.kind.KStr? && right.next.kind.KStr? {
        var ok, table := TableGenerate(right.kind.str, right.next.kind.str);
        if ok {
          kind := KTable(table);
        }
      }
    }

    method FuseCompare()
      requires Valid() && Complete(Shape())
      modifies this
      ensures Valid() && repr == old(repr) && Shape() == CompareTerm(old(Shape()))
    {
      if kind == KTwo(Equal) && left.kind == KStep && left.axis == AttributeAxis && left.test.OfStep? && left.test.nodetest.NameTest?
        && left.left == null && left.right == null
        && (right.kind.KStr? || (right.kind.KVar? && right.ret == TScalar(TStr)))
      {
        kind := KCompareAttribute;
      }
    }

    /** The rewrites of this node alone, in their order. */
    method OptimizeHere()
      requires Valid() && Complete(Shape())
      modifies this
      ensures Valid() && repr == old(repr) && Shape() == OptNode(old(Shape()))
    {
      DropPositionKept(Shape());
      DropPosition();
      ClassifyKept(Shape());
      Classify();
      FuseKept(Shape());
      FuseStep();
      TableKept(Shape());
      MakeTable();
      FuseCompare();
    }

    /** One child has been rewritten in place, its own nodes and no others. */
    twostate lemma ChildRewritten(child: Ast)
      requires old(Valid()) && child in {left, right, next} && child.Valid() && child.repr == old(child.repr)
      requires unchanged(this) && forall n: Ast {:trigger n in repr} | n in repr && n !in child.repr :: unchanged(n)
      ensures Valid()
      ensures left != child ==> ShapeOf(left) == old(ShapeOf(left))
      ensures right != child ==> ShapeOf(right) == old(ShapeOf(right))
      ensures next != child ==> ShapeOf(next) == old(ShapeOf(next))
    {
    }

    method OptimizeLeft()
      requires Valid() && Complete(ShapeOf(left))
      modifies if left == null then {} else left.repr
      ensures Valid() && Shape().left == OptTerm(old(ShapeOf(left)))
      ensures SameBut(old(Shape()), Shape(), 0)
      decreases repr, 0
    {
      if left != null {
        left.Optimize();
        ChildRewritten(left);
      }
    }

    method OptimizeRight()
      requires Valid() && Complete(ShapeOf(right))
      modifies if right == null then {} else right.repr
      ensures Valid() && Shape().right == OptTerm(old(ShapeOf(right)))
      ensures SameBut(old(Shape()), Shape(), 1)
      decreases repr, 0
    {
      if right != null {
        right.Optimize();
        ChildRewritten(right);
      }
    }

    method OptimizeNext()
      requires Valid() && Complete(ShapeOf(next))
      modifies if next == null then {} else next.repr
      ensures Valid() && Shape().next == OptTerm(old(ShapeOf(next)))
      ensures SameBut(old(Shape()), Shape(), 2)
      decreases repr, 0
    {
      if next != null {
        next.Optimize();
        ChildRewritten(next);
      }
    }

    /** Children first, then this node, all in place. */
    method Optimize()
      requires Valid() && Complete(Shape())
      modifies repr
      ensures Valid() && repr == old(repr) && Shape() == OptTerm(old(Shape()))
      decreases repr, 1
    {
      ghost var t := Shape();
      OptChildren(t);
      OptimizeLeft();
      OptTermComplete(t.left);
      OptimizeRight();
      OptimizeNext();
      OptimizeHere();
    }
  }

  ghost function ShapeOf(n: Ast?): Term
    requires n != null ==> n.Valid()
    reads n, if n == null then {} else n.repr
  {
    if n == null then Nil else n.Shape()
  }
}
