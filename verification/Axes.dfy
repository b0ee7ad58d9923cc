/** The XPath axes: what they select, and the stackless loops that walk them. */
module Axes {
  import opened Sequences
  import opened XmlTree

  datatype Axis =
    | Ancestor | AncestorOrSelf | AttributeAxis | Child | Descendant | DescendantOrSelf
    | Following | FollowingSibling | Namespace | ParentAxis | Preceding | PrecedingSibling | SelfAxis

  predicate IsReverse(axis: Axis) {
    axis == Ancestor || axis == AncestorOrSelf || axis == Preceding || axis == PrecedingSibling
  }

  /** Section 2.2 of XPath 1.0: m lies on the axis of n. */
  predicate OnAxis(t: Tree, axis: Axis, n: Ref, m: Ref)
    requires Wf(t) && n in t.node && m in t.node
  {
    match axis
    case Child => m != t.root && Parent(t, m) == n
    case ParentAxis => n != t.root && Parent(t, n) == m
    case Descendant => m != n && Under(t, m, n)
    case DescendantOrSelf => Under(t, m, n)
    case Ancestor => m != n && Under(t, n, m)
    case AncestorOrSelf => Under(t, n, m)
    case SelfAxis => m == n
    case Following => Pos(t, n) < Pos(t, m) && !Under(t, m, n)
    case Preceding => Pos(t, m) < Pos(t, n) && !Under(t, n, m)
    case FollowingSibling => n != t.root && m != t.root && Parent(t, m) == Parent(t, n) && Pos(t, n) < Pos(t, m)
    case PrecedingSibling => n != t.root && m != t.root && Parent(t, m) == Parent(t, n) && Pos(t, m) < Pos(t, n)
    case AttributeAxis => false
    case Namespace => false
  }

  /** The nodes on an axis, in axis order: document order, or its reverse on a reverse axis. */
  function AxisNodes(t: Tree, axis: Axis, n: Ref): seq<Ref>
    requires Wf(t) && n in t.node
  {
    var s := Filter(Nodes(t), m => m in t.node && OnAxis(t, axis, n, m));
    if IsReverse(axis) then Reverse(s) else s
  }

  /** Self, ancestor, descendant, following and preceding partition the nodes of the document. */
  lemma AxesPartition(t: Tree, n: Ref, m: Ref)
    requires Wf(t) && n in t.node && m in t.node
    ensures exists axis :: axis in {SelfAxis, Ancestor, Descendant, Following, Preceding} && OnAxis(t, axis, n, m)
    ensures forall a, b | a in {SelfAxis, Ancestor, Descendant, Following, Preceding} && b in {SelfAxis, Ancestor, Descendant, Following, Preceding}
              && OnAxis(t, a, n, m) && OnAxis(t, b, n, m) :: a == b
  {
    UnderPos(t, n, m);
    UnderPos(t, m, n);
    if Pos(t, n) == Pos(t, m) {
      PosInjective(t, n, m);
      assert OnAxis(t, SelfAxis, n, m);
    } else if Pos(t, n) < Pos(t, m) {
      assert OnAxis(t, Descendant, n, m) || OnAxis(t, Following, n, m);
    } else {
      assert OnAxis(t, Ancestor, n, m) || OnAxis(t, Preceding, n, m);
    }
  }

  // Where the parts of the document split at n lie in document order.

  lemma Locate(t: Tree, n: Ref, m: Ref)
    requires Wf(t) && n in t.node && m in t.node
    ensures m in Before(t, n) <==> Pos(t, m) < Pos(t, n)
    ensures Under(t, m, n) <==> Pos(t, n) <= Pos(t, m) < Pos(t, n) + |Pre(t, n)|
  {
    DocumentSplit(t, n);
    NodesAll(t);
    PreMembers(t, n, m);
    SplitMembers(Before(t, n), Pre(t, n), Rest(t, n, t.root), Pos(t, m));
  }

  lemma AfterPositions(t: Tree, n: Ref, m: Ref, rest: seq<Ref>)
    requires Wf(t) && n in t.node && m in t.node && Nodes(t) == Before(t, n) + Pre(t, n) + rest
    ensures m in rest <==> Pos(t, n) + |Pre(t, n)| <= Pos(t, m)
  {
    NodesAll(t);
    SplitMembers(Before(t, n), Pre(t, n), rest, Pos(t, m));
  }

  lemma AfterMembers(t: Tree, n: Ref, m: Ref, rest: seq<Ref>)
    requires Wf(t) && n in t.node && m in t.node && Nodes(t) == Before(t, n) + Pre(t, n) + rest
    ensures m in rest <==> OnAxis(t, Following, n, m)
  {
    Locate(t, n, m);
    AfterPositions(t, n, m, rest);
  }

  lemma BeforeMembers(t: Tree, n: Ref, m: Ref)
    requires Wf(t) && n in t.node && m in t.node
    ensures m in Before(t, n) <==> Pos(t, m) < Pos(t, n)
  {
    Locate(t, n, m);
  }

  lemma UnderPos(t: Tree, m: Ref, n: Ref)
    requires Wf(t) && m in t.node && n in t.node
    ensures Under(t, m, n) ==> Pos(t, n) <= Pos(t, m)
  {
    Locate(t, n, m);
  }

  // A sequence that ascends in document order is determined by its members.

  function Positions(t: Tree): (key: map<Ref, int>)
    requires Wf(t)
    ensures key.Keys == t.node.Keys
    ensures forall n {:trigger key[n]} | n in t.node :: key[n] == Pos(t, n)
  {
    map n | n in t.node :: Pos(t, n)
  }

  lemma SegmentAscends(t: Tree, a: seq<Ref>, s: seq<Ref>, b: seq<Ref>)
    requires Wf(t) && Nodes(t) == a + s + b
    ensures Ascends(Positions(t), s)
  {
    forall k | 0 <= k < |s| ensures s[k] in t.node && Pos(t, s[k]) == |a| + k {
      assert Nodes(t)[|a| + k] == s[k];
      PosAt(t, |a| + k);
    }
  }

  lemma NodesAscend(t: Tree)
    requires Wf(t)
    ensures Ascends(Positions(t), Nodes(t))
  {
    assert Nodes(t) == [] + Nodes(t) + [];
    SegmentAscends(t, [], Nodes(t), []);
  }

  /** An ascending sequence with the members of an axis is that axis, read in document order. */
  lemma AxisIs(t: Tree, axis: Axis, n: Ref, s: seq<Ref>)
    requires Wf(t) && n in t.node && Ascends(Positions(t), s)
    requires forall m {:trigger m in s} | m in t.node :: m in s <==> OnAxis(t, axis, n, m)
    ensures AxisNodes(t, axis, n) == if IsReverse(axis) then Reverse(s) else s
  {
    var keep := m => m in t.node && OnAxis(t, axis, n, m);
    NodesAscend(t);
    FilterAscends(Positions(t), Nodes(t), keep);
    forall x ensures x in Filter(Nodes(t), keep) <==> x in s {
      FilterMembers(Nodes(t), keep, x);
      NodesAll(t);
    }
    AscendsUnique(Positions(t), Filter(Nodes(t), keep), s);
  }

  // What the loops produce, axis by axis.

  function Ancestors(t: Tree, n: Ref): seq<Ref>
    requires Wf(t) && n in t.node
    decreases t.node[t.root].rank - t.node[n].rank
  {
    if n == t.root then [] else [Parent(t, n)] + Ancestors(t, Parent(t, n))
  }

  /** The nodes of s that are not n or above it. */
  function NotAbove(t: Tree, n: Ref, s: seq<Ref>): seq<Ref>
    requires Wf(t) && n in t.node
  {
    Filter(s, m => m in t.node && !Under(t, n, m))
  }

  lemma PreAscends(t: Tree, n: Ref)
    requires Wf(t) && n in t.node
    ensures Ascends(Positions(t), Pre(t, n)) && Ascends(Positions(t), Forest(t, n, 0))
  {
    DocumentSplit(t, n);
    SegmentAscends(t, Before(t, n), Pre(t, n), Rest(t, n, t.root));
    AscendsTail(Positions(t), Pre(t, n));
    assert Pre(t, n)[1..] == Forest(t, n, 0);
  }

  lemma PreOnAxis(t: Tree, n: Ref)
    requires Wf(t) && n in t.node
    ensures forall m {:trigger m in Pre(t, n)} | m in t.node :: m in Pre(t, n) <==> OnAxis(t, DescendantOrSelf, n, m)
  {
    forall m {:trigger m in Pre(t, n)} | m in t.node ensures m in Pre(t, n) <==> OnAxis(t, DescendantOrSelf, n, m) {
      PreMembers(t, n, m);
    }
  }

  lemma ForestOnAxis(t: Tree, n: Ref)
    requires Wf(t) && n in t.node
    ensures forall m {:trigger m in Forest(t, n, 0)} | m in t.node :: m in Forest(t, n, 0) <==> OnAxis(t, Descendant, n, m)
  {
    forall m {:trigger m in Forest(t, n, 0)} | m in t.node ensures m in Forest(t, n, 0) <==> OnAxis(t, Descendant, n, m) {
      PreMembers(t, n, m);
      ForestMembers(t, n, 0, m);
    }
  }

  lemma DescendantOrSelfIs(t: Tree, n: Ref)
    requires Wf(t) && n in t.node
    ensures AxisNodes(t, DescendantOrSelf, n) == Pre(t, n)
  {
    PreAscends(t, n);
    PreOnAxis(t, n);
    AxisIs(t, DescendantOrSelf, n, Pre(t, n));
  }

  lemma DescendantIs(t: Tree, n: Ref)
    requires Wf(t) && n in t.node
    ensures AxisNodes(t, Descendant, n) == Forest(t, n, 0)
  {
    PreAscends(t, n);
    ForestOnAxis(t, n);
    AxisIs(t, Descendant, n, Forest(t, n, 0));
  }

  lemma AfterIs(t: Tree, n: Ref, rest: seq<Ref>)
    requires Wf(t) && n in t.node && Nodes(t) == Before(t, n) + Pre(t, n) + rest
    ensures AxisNodes(t, Following, n) == rest
  {
    assert Nodes(t) == (Before(t, n) + Pre(t, n)) + rest + [];
    SegmentAscends(t, Before(t, n) + Pre(t, n), rest, []);
    forall m {:trigger m in rest} | m in t.node ensures m in rest <==> OnAxis(t, Following, n, m) {
      AfterMembers(t, n, m, rest);
    }
    AxisIs(t, Following, n, rest);
  }

  lemma FollowingIs(t: Tree, n: Ref)
    requires Wf(t) && n in t.node
    ensures Under(t, n, t.root)
    ensures AxisNodes(t, Following, n) == Rest(t, n, t.root)
  {
    DocumentSplit(t, n);
    AfterIs(t, n, Rest(t, n, t.root));
  }

  lemma {:induction false} AncestorsMembers(t: Tree, n: Ref, m: Ref)
    requires Wf(t) && n in t.node && m in t.node
    ensures m in Ancestors(t, n) <==> m != n && Under(t, n, m)
    decreases t.node[t.root].rank - t.node[n].rank
  {
    if n != t.root {
      AncestorsMembers(t, Parent(t, n), m);
      if Under(t, Parent(t, n), m) {
        UnderRank(t, Parent(t, n), m);
      }
    }
  }

  lemma {:induction false} AncestorsAscend(t: Tree, n: Ref)
    requires Wf(t) && n in t.node
    ensures Ascends(Positions(t), Reverse(Ancestors(t, n)))
    ensures Ascends(Positions(t), Reverse([n] + Ancestors(t, n)))
    decreases t.node[t.root].rank - t.node[n].rank
  {
    if n != t.root {
      AncestorsAscend(t, Parent(t, n));
    }
    var up := Reverse(Ancestors(t, n));
    forall m | m in up ensures m in t.node && Pos(t, m) < Pos(t, n) {
      ReverseMembers(Ancestors(t, n), m);
      AncestorsKnown(t, n, m);
      AncestorsMembers(t, n, m);
      UnderPos(t, n, m);
    }
    assert ([n] + Ancestors(t, n))[1..] == Ancestors(t, n);
    AscendsAppend(Positions(t), up, [n]);
  }

  lemma {:induction false} AncestorsKnown(t: Tree, n: Ref, m: Ref)
    requires Wf(t) && n in t.node && m in Ancestors(t, n)
    ensures m in t.node
    decreases t.node[t.root].rank - t.node[n].rank
  {
    if m != Parent(t, n) {
      AncestorsKnown(t, Parent(t, n), m);
    }
  }

  lemma AncestorIs(t: Tree, n: Ref)
    requires Wf(t) && n in t.node
    ensures AxisNodes(t, Ancestor, n) == Ancestors(t, n)
    ensures AxisNodes(t, AncestorOrSelf, n) == [n] + Ancestors(t, n)
  {
    var up, upSelf := Reverse(Ancestors(t, n)), Reverse([n] + Ancestors(t, n));
    AncestorsAscend(t, n);
    forall m {:trigger m in up} | m in t.node ensures m in up <==> OnAxis(t, Ancestor, n, m) {
      AncestorsMembers(t, n, m);
      ReverseMembers(Ancestors(t, n), m);
    }
    AxisIs(t, Ancestor, n, up);
    forall m {:trigger m in upSelf} | m in t.node ensures m in upSelf <==> OnAxis(t, AncestorOrSelf, n, m) {
      AncestorsMembers(t, n, m);
      ReverseMembers([n] + Ancestors(t, n), m);
    }
    AxisIs(t, AncestorOrSelf, n, upSelf);
    ReverseTwice(Ancestors(t, n));
    ReverseTwice([n] + Ancestors(t, n));
  }

  lemma SelfIs(t: Tree, n: Ref)
    requires Wf(t) && n in t.node
    ensures AxisNodes(t, SelfAxis, n) == [n]
  {
    AxisIs(t, SelfAxis, n, [n]);
  }

  function Parents(t: Tree, n: Ref): seq<Ref>
    requires Wf(t) && n in t.node
  {
    if n == t.root then [] else [Parent(t, n)]
  }

  lemma ParentsAre(t: Tree, n: Ref, m: Ref)
    requires Wf(t) && n in t.node && m in t.node
    ensures m in Parents(t, n) <==> OnAxis(t, ParentAxis, n, m)
  {
  }

  lemma ParentIs(t: Tree, n: Ref)
    requires Wf(t) && n in t.node
    ensures AxisNodes(t, ParentAxis, n) == Parents(t, n)
  {
    forall m {:trigger m in Parents(t, n)} | m in t.node ensures m in Parents(t, n) <==> OnAxis(t, ParentAxis, n, m) {
      ParentsAre(t, n, m);
    }
    AxisIs(t, ParentAxis, n, Parents(t, n));
  }

  /** Children in list order are children in document order. */
  lemma KidsInOrder(t: Tree, p: Ref, i: nat, j: nat)
    requires Wf(t) && p in t.node && i < j < |t.node[p].kids|
    ensures t.node[p].kids[i] in t.node && t.node[p].kids[j] in t.node
    ensures Pos(t, t.node[p].kids[i]) < Pos(t, t.node[p].kids[j])
  {
    var a, b := t.node[p].kids[i], t.node[p].kids[j];
    assert a in t.node[p].kids && b in t.node[p].kids;
    BeforeStep(t, a);
    BeforeStep(t, b);
    LeftForestGrows(t, p, i, j);
  }

  lemma {:induction false} LeftForestGrows(t: Tree, p: Ref, i: nat, j: nat)
    requires Wf(t) && p in t.node && i < j <= |t.node[p].kids|
    ensures |LeftForest(t, p, i)| < |LeftForest(t, p, j)|
  {
    if i < j - 1 {
      LeftForestGrows(t, p, i, j - 1);
    }
  }

  lemma KidsAscends(t: Tree, p: Ref)
    requires Wf(t) && p in t.node
    ensures Ascends(Positions(t), t.node[p].kids)
  {
    var s := t.node[p].kids;
    forall i, j | 0 <= i < j < |s| ensures s[i] in t.node && s[j] in t.node && Pos(t, s[i]) < Pos(t, s[j]) {
      KidsInOrder(t, p, i, j);
    }
  }

  lemma ChildIs(t: Tree, n: Ref)
    requires Wf(t) && n in t.node
    ensures AxisNodes(t, Child, n) == t.node[n].kids
  {
    KidsAscends(t, n);
    AxisIs(t, Child, n, t.node[n].kids);
  }

  function FollowingSiblings(t: Tree, n: Ref): seq<Ref>
    requires Wf(t) && n in t.node
  {
    if n == t.root then [] else t.node[Parent(t, n)].kids[t.node[n].index + 1..]
  }

  function PrecedingSiblings(t: Tree, n: Ref): seq<Ref>
    requires Wf(t) && n in t.node
  {
    if n == t.root then [] else t.node[Parent(t, n)].kids[..t.node[n].index]
  }

  lemma SiblingMembers(t: Tree, n: Ref, m: Ref)
    requires Wf(t) && n in t.node && m in t.node
    ensures m in FollowingSiblings(t, n) <==> OnAxis(t, FollowingSibling, n, m)
    ensures m in PrecedingSiblings(t, n) <==> OnAxis(t, PrecedingSibling, n, m)
  {
    if n != t.root && m != t.root && Parent(t, m) == Parent(t, n) {
      var p := Parent(t, n);
      var s, i, k := t.node[p].kids, t.node[n].index, t.node[m].index;
      if k < i {
        KidsInOrder(t, p, k, i);
        assert s[..i][k] == m;
      } else if i < k {
        KidsInOrder(t, p, i, k);
        assert s[i + 1..][k - i - 1] == m;
      }
    }
  }

  lemma SiblingsAscend(t: Tree, n: Ref)
    requires Wf(t) && n in t.node
    ensures Ascends(Positions(t), FollowingSiblings(t, n))
    ensures Ascends(Positions(t), PrecedingSiblings(t, n))
  {
    if n != t.root {
      var p, i := Parent(t, n), t.node[n].index;
      KidsAscends(t, p);
      AscendsSlice(Positions(t), t.node[p].kids, 0, i);
      AscendsSlice(Positions(t), t.node[p].kids, i + 1, |t.node[p].kids|);
    }
  }

  lemma FollowingSiblingIs(t: Tree, n: Ref)
    requires Wf(t) && n in t.node
    ensures AxisNodes(t, FollowingSibling, n) == FollowingSiblings(t, n)
  {
    SiblingsAscend(t, n);
    forall m {:trigger m in FollowingSiblings(t, n)} | m in t.node ensures m in FollowingSiblings(t, n) <==> OnAxis(t, FollowingSibling, n, m) {
      SiblingMembers(t, n, m);
    }
    AxisIs(t, FollowingSibling, n, FollowingSiblings(t, n));
  }

  lemma PrecedingSiblingIs(t: Tree, n: Ref)
    requires Wf(t) && n in t.node
    ensures AxisNodes(t, PrecedingSibling, n) == Reverse(PrecedingSiblings(t, n))
  {
    SiblingsAscend(t, n);
    forall m {:trigger m in PrecedingSiblings(t, n)} | m in t.node ensures m in PrecedingSiblings(t, n) <==> OnAxis(t, PrecedingSibling, n, m) {
      SiblingMembers(t, n, m);
    }
    AxisIs(t, PrecedingSibling, n, PrecedingSiblings(t, n));
  }

  lemma BeforeAscends(t: Tree, n: Ref)
    requires Wf(t) && n in t.node
    ensures Ascends(Positions(t), Before(t, n))
  {
    DocumentSplit(t, n);
    var b, c := Before(t, n), Pre(t, n) + Rest(t, n, t.root);
    assert Nodes(t) == [] + b + c;
    SegmentAscends(t, [], b, c);
  }

  lemma NotAboveMembers(t: Tree, n: Ref, m: Ref)
    requires Wf(t) && n in t.node && m in t.node
    ensures m in NotAbove(t, n, Before(t, n)) <==> OnAxis(t, Preceding, n, m)
  {
    FilterMembers(Before(t, n), m => m in t.node && !Under(t, n, m), m);
    BeforeMembers(t, n, m);
  }

  lemma NotAboveAppend(t: Tree, n: Ref, a: seq<Ref>, b: seq<Ref>)
    requires Wf(t) && n in t.node
    ensures NotAbove(t, n, a + b) == NotAbove(t, n, a) + NotAbove(t, n, b)
  {
    FilterAppend(a, b, m => m in t.node && !Under(t, n, m));
  }

  lemma {:induction false} NotAboveAll(t: Tree, n: Ref, s: seq<Ref>)
    requires Wf(t) && n in t.node && forall i | 0 <= i < |s| :: s[i] in t.node && !Under(t, n, s[i])
    ensures NotAbove(t, n, s) == s
  {
    if s != [] {
      NotAboveAll(t, n, s[1..]);
    }
  }

  lemma PrecedingIs(t: Tree, n: Ref)
    requires Wf(t) && n in t.node
    ensures AxisNodes(t, Preceding, n) == Reverse(NotAbove(t, n, Before(t, n)))
  {
    BeforeAscends(t, n);
    var s := NotAbove(t, n, Before(t, n));
    FilterAscends(Positions(t), Before(t, n), m => m in t.node && !Under(t, n, m));
    forall m {:trigger m in s} | m in t.node ensures m in s <==> OnAxis(t, Preceding, n, m) {
      NotAboveMembers(t, n, m);
    }
    AxisIs(t, Preceding, n, s);
  }
}
