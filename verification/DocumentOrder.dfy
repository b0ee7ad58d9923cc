/** Document order on node set entries: the climbing comparison, and the sorting of node sets. */
module DocumentOrder {
  import opened Sequences
  import opened XmlTree
  import opened Axes
  import opened Steps

  // Section 5 of XPath 1.0: an element's attributes come after it and before its children.

  function Owner(x: XNode): Ref {
    match x
    case XNull => 0
    case XElem(n) => n
    case XAttr(_, p) => p
  }

  function Slot(t: Tree, x: XNode): nat
    requires Wf(t) && Has(t, x)
  {
    match x
    case XElem(_) => 0
    case XAttr(a, p) => 1 + FindAttr(t.node[p].attrs, a)
  }

  /** x comes before y in document order. */
  predicate DocLess(t: Tree, x: XNode, y: XNode)
    requires Wf(t) && Has(t, x) && Has(t, y)
  {
    || Pos(t, Owner(x)) < Pos(t, Owner(y))
    || (Owner(x) == Owner(y) && Slot(t, x) < Slot(t, y))
  }

  lemma DocLessTotal(t: Tree, x: XNode, y: XNode)
    requires Wf(t) && Has(t, x) && Has(t, y)
    ensures !DocLess(t, x, x)
    ensures x != y ==> DocLess(t, x, y) || DocLess(t, y, x)
    ensures DocLess(t, x, y) ==> !DocLess(t, y, x)
  {
    if Pos(t, Owner(x)) == Pos(t, Owner(y)) {
      PosInjective(t, Owner(x), Owner(y));
    }
  }

  lemma DocLessTransitive(t: Tree, x: XNode, y: XNode, z: XNode)
    requires Wf(t) && Has(t, x) && Has(t, y) && Has(t, z) && DocLess(t, x, y) && DocLess(t, y, z)
    ensures DocLess(t, x, z)
  {
  }

  /** Nodes below different children of the same parent are ordered like those children. */
  lemma SiblingsOrder(t: Tree, a: Ref, b: Ref, x: Ref, y: Ref)
    requires Wf(t) && a in t.node && b in t.node && x in t.node && y in t.node
    requires a != t.root && b != t.root && Parent(t, a) == Parent(t, b) && t.node[a].index < t.node[b].index
    requires Under(t, x, a) && Under(t, y, b)
    ensures Pos(t, x) < Pos(t, y)
  {
    KidsInOrder(t, Parent(t, a), t.node[a].index, t.node[b].index);
    SiblingsApart(t, b, a, b);
    Locate(t, a, x);
    Locate(t, a, b);
    Locate(t, b, y);
  }

  /** Which of two children of the same parent comes first: walk right from both. */
  method NodeIsBeforeSibling(t: Tree, ln: Ref, rn: Ref) returns (b: bool)
    requires Wf(t) && ln in t.node && rn in t.node && ln != rn
    requires ln != t.root && rn != t.root && Parent(t, ln) == Parent(t, rn)
    ensures b <==> t.node[ln].index < t.node[rn].index
  {
    var ls, rs := ln, rn;
    ghost var s, k := t.node[Parent(t, ln)].kids, 0;
    while ls != 0 && rs != 0
      invariant k <= |s|
      invariant t.node[ln].index + k >= |s| ==> ls == 0
      invariant t.node[ln].index + k < |s| ==> ls == s[t.node[ln].index + k]
      invariant t.node[rn].index + k >= |s| ==> rs == 0
      invariant t.node[rn].index + k < |s| ==> rs == s[t.node[rn].index + k]
      invariant t.node[ln].index < t.node[rn].index ==> t.node[ln].index + k <= t.node[rn].index
      invariant t.node[rn].index < t.node[ln].index ==> t.node[rn].index + k <= t.node[ln].index
      decreases |s| - k
    {
      if ls == rn {
        return true;
      }
      if rs == ln {
        return false;
      }
      ls := NextSibling(t, ls);
      rs := NextSibling(t, rs);
      k := k + 1;
    }
    return rs == 0;
  }

  function Depth(t: Tree, n: Ref): nat
    requires Wf(t) && n in t.node
    decreases t.node[t.root].rank - t.node[n].rank
  {
    if n == t.root then 0 else 1 + Depth(t, Parent(t, n))
  }

  /** How many steps a climb from n takes until it falls off the root. */
  function ClimbLength(t: Tree, n: Ref): nat
    requires Wf(t) && (n == 0 || n in t.node)
  {
    if n == 0 then 0 else 1 + Depth(t, n)
  }

  /** Does ln come before rn? Climb both until they meet under a common parent. */
  method NodeIsBefore(t: Tree, ln0: Ref, rn0: Ref) returns (b: bool)
    requires Wf(t) && ln0 in t.node && rn0 in t.node && ln0 != rn0
    ensures b <==> Pos(t, ln0) < Pos(t, rn0)
  {
    var ln, rn := ln0, rn0;
    var lp, rp := ClimbBoth(t, ln, rn);
    if lp != 0 && rp != 0 {
      b := NodeIsBeforeSibling(t, lp, rp);
      SiblingsEitherWay(t, lp, rp, ln, rn);
      return;
    }
    var leftHigher := lp == 0;
    ln := Raise(t, ln, lp);
    rn := Raise(t, rn, rp);
    if ln == rn {
      AncestorFirst(t, ln0, ln);
      AncestorFirst(t, rn0, rn);
      return leftHigher;
    }
    while Parent(t, ln) != Parent(t, rn)
      invariant ln in t.node && rn in t.node && ln != rn && Depth(t, ln) == Depth(t, rn)
      invariant Under(t, ln0, ln) && Under(t, rn0, rn)
      decreases Depth(t, ln)
    {
      UnderParent(t, ln0, ln);
      UnderParent(t, rn0, rn);
      ln, rn := Parent(t, ln), Parent(t, rn);
    }
    b := NodeIsBeforeSibling(t, ln, rn);
    SiblingsEitherWay(t, ln, rn, ln0, rn0);
  }

  /** Climb in step from two nodes, until the parents agree or one climb falls off the root. */
  method ClimbBoth(t: Tree, ln: Ref, rn: Ref) returns (lp: Ref, rp: Ref)
    requires Wf(t) && ln in t.node && rn in t.node && ln != rn
    ensures lp != rp
    ensures lp == 0 || (lp in t.node && Under(t, ln, lp))
    ensures rp == 0 || (rp in t.node && Under(t, rn, rp))
    ensures ClimbLength(t, ln) - ClimbLength(t, lp) == ClimbLength(t, rn) - ClimbLength(t, rp) >= 0
    ensures lp != 0 && rp != 0 ==> lp != t.root && rp != t.root && Parent(t, lp) == Parent(t, rp)
  {
    lp, rp := ln, rn;
    while lp != 0 && rp != 0 && Parent(t, lp) != Parent(t, rp)
      invariant lp == 0 || (lp in t.node && Under(t, ln, lp))
      invariant rp == 0 || (rp in t.node && Under(t, rn, rp))
      invariant lp != rp
      invariant ClimbLength(t, ln) - ClimbLength(t, lp) == ClimbLength(t, rn) - ClimbLength(t, rp) >= 0
      decreases ClimbLength(t, lp)
    {
      UnderParent(t, ln, lp);
      UnderParent(t, rn, rp);
      lp, rp := Parent(t, lp), Parent(t, rp);
    }
  }

  /** Raise n by as many steps as p still has to climb. */
  method Raise(t: Tree, n: Ref, p: Ref) returns (m: Ref)
    requires Wf(t) && n in t.node && (p == 0 || p in t.node) && ClimbLength(t, p) <= Depth(t, n)
    ensures m in t.node && Under(t, n, m) && Depth(t, m) == Depth(t, n) - ClimbLength(t, p)
    ensures p == 0 ==> m == n
  {
    var q := p;
    m := n;
    while q != 0
      invariant m in t.node && (q == 0 || q in t.node) && Under(t, n, m)
      invariant p == 0 ==> q == 0 && m == n
      invariant Depth(t, m) - ClimbLength(t, q) == Depth(t, n) - ClimbLength(t, p) && ClimbLength(t, q) <= Depth(t, m)
      decreases ClimbLength(t, q)
    {
      UnderParent(t, n, m);
      q := Parent(t, q);
      m := Parent(t, m);
    }
  }

  lemma SiblingsEitherWay(t: Tree, a: Ref, b: Ref, x: Ref, y: Ref)
    requires Wf(t) && a in t.node && b in t.node && x in t.node && y in t.node && a != b
    requires a != t.root && b != t.root && Parent(t, a) == Parent(t, b)
    requires Under(t, x, a) && Under(t, y, b)
    ensures Pos(t, x) < Pos(t, y) <==> t.node[a].index < t.node[b].index
  {
    if t.node[a].index < t.node[b].index {
      SiblingsOrder(t, a, b, x, y);
    } else {
      SiblingsOrder(t, b, a, y, x);
    }
  }

  lemma AncestorFirst(t: Tree, m: Ref, n: Ref)
    requires Wf(t) && m in t.node && n in t.node && Under(t, m, n)
    ensures m != n ==> Pos(t, n) < Pos(t, m)
  {
    UnderPos(t, m, n);
    if Pos(t, m) == Pos(t, n) {
      PosInjective(t, m, n);
    }
  }

  /** The slow path of the document order comparison. An attribute counts as less than itself, a node does not. */
  method DocumentOrderLess(t: Tree, x: XNode, y: XNode) returns (b: bool)
    requires Wf(t) && Has(t, x) && Has(t, y)
    ensures x != y ==> (b <==> DocLess(t, x, y))
    ensures x == y ==> (b <==> x.XAttr?)
  {
    var ln, rn := Owner(x), Owner(y);
    if x.XAttr? && y.XAttr? {
      if ln == rn {
        b := AttrIsBefore(t, x.p, x.a, y.a);
        return;
      }
    } else if x.XAttr? {
      if ln == rn {
        return false;
      }
    } else if y.XAttr? {
      if ln == rn {
        return true;
      }
    }
    if ln == rn {
      return false;
    }
    if Pos(t, ln) == Pos(t, rn) {
      PosInjective(t, ln, rn);
    }
    b := NodeIsBefore(t, ln, rn);
  }

  /** Walk right from attribute a of p, looking for attribute b. */
  method AttrIsBefore(t: Tree, p: Ref, a: Ref, b: Ref) returns (r: bool)
    requires Wf(t) && Has(t, XAttr(a, p)) && Has(t, XAttr(b, p))
    ensures r <==> FindAttr(t.node[p].attrs, a) <= FindAttr(t.node[p].attrs, b)
  {
    var s := t.node[p].attrs;
    for i := FindAttr(s, a) to |s|
      invariant forall k | FindAttr(s, a) <= k < i :: s[k].id != b
    {
      if s[i].id == b {
        assert AttrWf(t, p, i);
        return true;
      }
    }
    return false;
  }
}
