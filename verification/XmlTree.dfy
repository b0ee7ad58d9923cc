/**
 * A document as the XPath engine sees it: a finite ordered tree of nodes with attributes.
 * Node references are numbers and 0 is the null reference.
 */
module XmlTree {
  import opened Sequences

  type Ref = nat

  datatype NodeType = Document | Element | Pcdata | Cdata | Comment | Pi | Declaration | Doctype

  datatype Info = Info(ty: NodeType, name: string, value: string)

  datatype Attr = Attr(id: Ref, name: string, value: string)

  /** Position of the attribute with the given id, or the length if there is none. */
  function FindAttr(s: seq<Attr>, id: Ref): (i: nat)
    ensures i <= |s| && (i < |s| ==> s[i].id == id)
  {
    if s == [] || s[0].id == id then 0 else 1 + FindAttr(s[1..], id)
  }

  /**
   * index is the node's position among its siblings.
   * rank bounds the height of its subtree; it is what makes every walk end.
   */
  datatype Node = Node(kids: seq<Ref>, parent: Ref, index: nat, rank: nat, attrs: seq<Attr>, info: Info)

  /** holder gives the node that an attribute belongs to. */
  datatype Tree = Tree(root: Ref, node: map<Ref, Node>, holder: map<Ref, Ref>)

  ghost predicate Wf(t: Tree) {
    && 0 !in t.node && t.root in t.node && t.node[t.root].parent == 0
    && (forall n, i {:trigger t.node[n].kids[i]} | n in t.node && 0 <= i < |t.node[n].kids| :: ChildWf(t, n, i))
    && (forall n {:trigger Attached(t, n)} | n in t.node && n != t.root :: Attached(t, n))
    && (forall n, i {:trigger t.node[n].attrs[i]} | n in t.node && 0 <= i < |t.node[n].attrs| :: AttrWf(t, n, i))
    && (forall n {:trigger t.node[n].rank} | n in t.node :: t.node[n].rank <= t.node[t.root].rank)
  }

  ghost predicate ChildWf(t: Tree, n: Ref, i: nat)
    requires n in t.node && i < |t.node[n].kids|
  {
    var c := t.node[n].kids[i];
    c in t.node && c != t.root && t.node[c].parent == n && t.node[c].index == i && t.node[c].rank < t.node[n].rank
  }

  ghost predicate Attached(t: Tree, n: Ref)
    requires n in t.node
  {
    var p, i := t.node[n].parent, t.node[n].index;
    p in t.node && i < |t.node[p].kids| && t.node[p].kids[i] == n
  }

  ghost predicate AttrWf(t: Tree, n: Ref, i: nat)
    requires n in t.node && i < |t.node[n].attrs|
  {
    var id := t.node[n].attrs[i].id;
    FindAttr(t.node[n].attrs, id) == i && id in t.holder && t.holder[id] == n
  }

  // The links of the source's node structure, read off the tree.

  function Parent(t: Tree, n: Ref): (p: Ref)
    requires Wf(t) && n in t.node
    ensures p == 0 <==> n == t.root
    ensures p != 0 ==> p in t.node && t.node[n].rank < t.node[p].rank
    ensures p != 0 ==> t.node[n].index < |t.node[p].kids| && t.node[p].kids[t.node[n].index] == n
  {
    assert n != t.root ==> Attached(t, n);
    t.node[n].parent
  }

  function FirstChild(t: Tree, n: Ref): Ref
    requires Wf(t) && n in t.node
  {
    if t.node[n].kids == [] then 0 else t.node[n].kids[0]
  }

  function NextSibling(t: Tree, n: Ref): Ref
    requires Wf(t) && n in t.node
  {
    if n == t.root then 0 else
      var s := t.node[Parent(t, n)].kids;
      var i := t.node[n].index;
      if i + 1 < |s| then s[i + 1] else 0
  }

  /** The cyclic predecessor: the first child's predecessor is the last child. */
  function PrevSiblingC(t: Tree, n: Ref): Ref
    requires Wf(t) && n in t.node
  {
    if n == t.root then n else
      var s := t.node[Parent(t, n)].kids;
      var i := t.node[n].index;
      if i == 0 then s[|s| - 1] else s[i - 1]
  }

  // Document order.

  /** The subtree of n in document order: each node before its children, children in order. */
  function Pre(t: Tree, n: Ref): (s: seq<Ref>)
    requires Wf(t) && n in t.node
    ensures |s| > 0 && s[0] == n
    decreases t.node[n].rank
  {
    [n] + Forest(t, n, 0)
  }

  /** The subtrees of the children of p from the i-th on. */
  function Forest(t: Tree, p: Ref, i: nat): seq<Ref>
    requires Wf(t) && p in t.node && i <= |t.node[p].kids|
    decreases t.node[p].rank, |t.node[p].kids| - i
  {
    if i == |t.node[p].kids| then [] else Pre(t, t.node[p].kids[i]) + Forest(t, p, i + 1)
  }

  /** The subtrees of the children of p before the i-th. */
  function LeftForest(t: Tree, p: Ref, i: nat): seq<Ref>
    requires Wf(t) && p in t.node && i <= |t.node[p].kids|
  {
    if i == 0 then [] else LeftForest(t, p, i - 1) + Pre(t, t.node[p].kids[i - 1])
  }

  /** What comes after the subtree of n inside the subtree of top. */
  function Rest(t: Tree, n: Ref, top: Ref): seq<Ref>
    requires Wf(t) && n in t.node && Under(t, n, top)
    decreases t.node[t.root].rank - t.node[n].rank
  {
    if n == top then [] else Forest(t, Parent(t, n), t.node[n].index + 1) + Rest(t, Parent(t, n), top)
  }

  /** m is n or one of its descendants. */
  predicate Under(t: Tree, m: Ref, n: Ref)
    requires Wf(t) && m in t.node
    decreases t.node[t.root].rank - t.node[m].rank
  {
    m == n || (m != t.root && Under(t, Parent(t, m), n))
  }

  lemma {:induction false} ForestSplit(t: Tree, p: Ref, i: nat)
    requires Wf(t) && p in t.node && i <= |t.node[p].kids|
    ensures Forest(t, p, 0) == LeftForest(t, p, i) + Forest(t, p, i)
  {
    if i > 0 {
      ForestSplit(t, p, i - 1);
    }
  }

  // A subtree lists exactly the nodes under its top, each once.

  lemma {:induction false} UnderTransitive(t: Tree, a: Ref, b: Ref, c: Ref)
    requires Wf(t) && a in t.node && b in t.node && Under(t, a, b) && Under(t, b, c)
    ensures Under(t, a, c)
    decreases t.node[t.root].rank - t.node[a].rank
  {
    if a != b {
      UnderTransitive(t, Parent(t, a), b, c);
    }
  }

  lemma UnderParent(t: Tree, m: Ref, n: Ref)
    requires Wf(t) && m in t.node && n in t.node && Under(t, m, n)
    ensures n != t.root ==> Under(t, m, Parent(t, n))
  {
    if n != t.root {
      assert Under(t, n, Parent(t, n));
      UnderTransitive(t, m, n, Parent(t, n));
    }
  }

  lemma {:induction false} UnderRank(t: Tree, m: Ref, n: Ref)
    requires Wf(t) && m in t.node && n in t.node && Under(t, m, n)
    ensures t.node[m].rank <= t.node[n].rank && (m != n ==> t.node[m].rank < t.node[n].rank)
    decreases t.node[t.root].rank - t.node[m].rank
  {
    if m != n {
      UnderRank(t, Parent(t, m), n);
    }
  }

  lemma {:induction false} UnderRoot(t: Tree, m: Ref)
    requires Wf(t) && m in t.node
    ensures Under(t, m, t.root)
    decreases t.node[t.root].rank - t.node[m].rank
  {
    if m != t.root {
      UnderRoot(t, Parent(t, m));
    }
  }

  /** Two nodes above a common node are above one another. */
  lemma {:induction false} UnderChain(t: Tree, m: Ref, a: Ref, b: Ref)
    requires Wf(t) && m in t.node && a in t.node && b in t.node && Under(t, m, a) && Under(t, m, b)
    ensures Under(t, a, b) || Under(t, b, a)
    decreases t.node[t.root].rank - t.node[m].rank
  {
    if m != a && m != b {
      UnderChain(t, Parent(t, m), a, b);
    }
  }

  lemma SiblingsApart(t: Tree, m: Ref, a: Ref, b: Ref)
    requires Wf(t) && m in t.node && a in t.node && b in t.node
    requires a != t.root && b != t.root && a != b && Parent(t, a) == Parent(t, b)
    ensures !(Under(t, m, a) && Under(t, m, b))
  {
    if Under(t, m, a) && Under(t, m, b) {
      UnderChain(t, m, a, b);
      var (lower, upper) := if Under(t, a, b) then (a, b) else (b, a);
      UnderRank(t, Parent(t, lower), upper);
    }
  }

  lemma {:induction false} PreMembers(t: Tree, n: Ref, m: Ref)
    requires Wf(t) && n in t.node
    ensures m in Pre(t, n) <==> m in t.node && Under(t, m, n)
    decreases t.node[n].rank
  {
    ForestMembers(t, n, 0, m);
    if m in t.node && Under(t, m, n) && m != n {
      var i := TopChild(t, m, n);
    }
  }

  lemma {:induction false} ForestMembers(t: Tree, p: Ref, i: nat, m: Ref)
    requires Wf(t) && p in t.node && i <= |t.node[p].kids|
    ensures m in Forest(t, p, i) <==> exists j :: i <= j < |t.node[p].kids| && m in t.node && Under(t, m, t.node[p].kids[j])
    ensures m in Forest(t, p, i) ==> m in t.node && Under(t, m, p) && m != p
    decreases t.node[p].rank, |t.node[p].kids| - i
  {
    if i < |t.node[p].kids| {
      var c := t.node[p].kids[i];
      assert c in t.node[p].kids;
      PreMembers(t, c, m);
      ForestMembers(t, p, i + 1, m);
      assert m in Forest(t, p, i) <==> m in Pre(t, c) || m in Forest(t, p, i + 1);
      if m in Pre(t, c) {
        assert Under(t, c, p);
        UnderTransitive(t, m, c, p);
        UnderRank(t, m, c);
      }
    }
  }

  /** The child of n through which a proper descendant m is reached. */
  lemma {:induction false} TopChild(t: Tree, m: Ref, n: Ref) returns (i: nat)
    requires Wf(t) && m in t.node && n in t.node && Under(t, m, n) && m != n
    ensures i < |t.node[n].kids| && Under(t, m, t.node[n].kids[i])
    decreases t.node[t.root].rank - t.node[m].rank
  {
    if Parent(t, m) == n {
      i := t.node[m].index;
    } else {
      i := TopChild(t, Parent(t, m), n);
    }
  }

  lemma {:induction false} PreDistinct(t: Tree, n: Ref)
    requires Wf(t) && n in t.node
    ensures Distinct(Pre(t, n))
    decreases t.node[n].rank
  {
    ForestDistinct(t, n, 0);
    ForestMembers(t, n, 0, n);
  }

  lemma {:induction false} ForestDistinct(t: Tree, p: Ref, i: nat)
    requires Wf(t) && p in t.node && i <= |t.node[p].kids|
    ensures Distinct(Forest(t, p, i))
    decreases t.node[p].rank, |t.node[p].kids| - i
  {
    if i < |t.node[p].kids| {
      var c := t.node[p].kids[i];
      PreDistinct(t, c);
      ForestDistinct(t, p, i + 1);
      forall m | m in Pre(t, c) ensures m !in Forest(t, p, i + 1) {
        PreMembers(t, c, m);
        ForestMembers(t, p, i + 1, m);
        if m in Forest(t, p, i + 1) {
          var j :| i + 1 <= j < |t.node[p].kids| && Under(t, m, t.node[p].kids[j]);
          SiblingsApart(t, m, c, t.node[p].kids[j]);
        }
      }
      DistinctAppend(Pre(t, c), Forest(t, p, i + 1));
    }
  }

  // Positions in document order.

  /** All nodes of the document, in document order. */
  function Nodes(t: Tree): seq<Ref>
    requires Wf(t)
  {
    Pre(t, t.root)
  }

  lemma NodesAll(t: Tree)
    requires Wf(t)
    ensures Distinct(Nodes(t))
    ensures forall n :: n in Nodes(t) <==> n in t.node
  {
    PreDistinct(t, t.root);
    forall n ensures n in Nodes(t) <==> n in t.node {
      PreMembers(t, t.root, n);
      if n in t.node {
        UnderRoot(t, n);
      }
    }
  }

  /** Document position of a node. */
  function Pos(t: Tree, n: Ref): (k: nat)
    requires Wf(t) && n in t.node
    ensures k < |Nodes(t)| && Nodes(t)[k] == n
  {
    NodesAll(t);
    IndexOf(Nodes(t), n)
  }

  lemma PosAt(t: Tree, k: nat)
    requires Wf(t) && k < |Nodes(t)|
    ensures Nodes(t)[k] in t.node && Pos(t, Nodes(t)[k]) == k
  {
    NodesAll(t);
    assert Nodes(t)[k] in Nodes(t);
    IndexOfDistinct(Nodes(t), k);
  }

  lemma PosInjective(t: Tree, a: Ref, b: Ref)
    requires Wf(t) && a in t.node && b in t.node && Pos(t, a) == Pos(t, b)
    ensures a == b
  {
  }

  /** Everything that comes before n. */
  function Before(t: Tree, n: Ref): seq<Ref>
    requires Wf(t) && n in t.node
  {
    Nodes(t)[..Pos(t, n)]
  }

  /** The document splits at n into what comes before it, its subtree, and what comes after. */
  lemma {:induction false} DocumentSplit(t: Tree, n: Ref)
    requires Wf(t) && n in t.node
    ensures Under(t, n, t.root)
    ensures Nodes(t) == Before(t, n) + Pre(t, n) + Rest(t, n, t.root)
    decreases t.node[t.root].rank - t.node[n].rank
  {
    UnderRoot(t, n);
    if n == t.root {
      PosAt(t, 0);
    } else {
      var p, i := Parent(t, n), t.node[n].index;
      DocumentSplit(t, p);
      ForestSplit(t, p, i);
      SplitAt(t, n, Before(t, p), p, LeftForest(t, p, i), Forest(t, p, i), Forest(t, p, i + 1), Rest(t, p, t.root));
    }
  }

  lemma BeforeStep(t: Tree, n: Ref)
    requires Wf(t) && n in t.node && n != t.root
    ensures Before(t, n) == Before(t, Parent(t, n)) + [Parent(t, n)] + LeftForest(t, Parent(t, n), t.node[n].index)
  {
    var p, i := Parent(t, n), t.node[n].index;
    DocumentSplit(t, p);
    ForestSplit(t, p, i);
    SplitAt(t, n, Before(t, p), p, LeftForest(t, p, i), Forest(t, p, i), Forest(t, p, i + 1), Rest(t, p, t.root));
  }

  lemma SplitAt(t: Tree, n: Ref, before: seq<Ref>, p: Ref, left: seq<Ref>, forest: seq<Ref>, right: seq<Ref>, rest: seq<Ref>)
    requires Wf(t) && n in t.node
    requires Nodes(t) == before + ([p] + (left + forest)) + rest && forest == Pre(t, n) + right
    ensures Before(t, n) == before + [p] + left
    ensures Nodes(t) == Before(t, n) + Pre(t, n) + (right + rest)
  {
    var s := Pre(t, n);
    assert Nodes(t) == (before + [p] + left) + s + (right + rest);
    var k := |before + [p] + left|;
    assert Nodes(t)[k] == s[0] == n;
    PosAt(t, k);
  }

  /** The walk goes on to the next sibling, or else above. */
  lemma RestStep(t: Tree, x: Ref, top: Ref)
    requires Wf(t) && x in t.node && top in t.node && x != top && Under(t, x, top)
    ensures x != t.root && Under(t, Parent(t, x), top)
    ensures NextSibling(t, x) == 0 ==> Rest(t, x, top) == Rest(t, Parent(t, x), top)
    ensures var s := NextSibling(t, x);
      s != 0 ==> s in t.node && s != top && s != t.root && Under(t, s, top) && Parent(t, s) == Parent(t, x) && Rest(t, x, top) == Pre(t, s) + Rest(t, s, top)
  {
    var p, i := Parent(t, x), t.node[x].index;
    UnderRank(t, p, top);
    var more := Rest(t, p, top);
    assert Rest(t, x, top) == Forest(t, p, i + 1) + more;
    if i + 1 < |t.node[p].kids| {
      assert ChildWf(t, p, i + 1);
      var s := t.node[p].kids[i + 1];
      AppendAssociative(Pre(t, s), Forest(t, p, i + 2), more);
      assert Rest(t, s, top) == Forest(t, p, i + 2) + more;
    } else {
      assert [] + more == more;
    }
  }
}
