/** The document's own operations on nodes: guarded insertion, moves and removal, by link surgery. */
module Document {
  import opened Sequences
  import opened XmlTree
  import opened DomLinks
  import opened TreeEdits

  /** Which types may be children of which. */
  predicate AllowInsertChild(parent: NodeType, child: NodeType) {
    && (parent == NodeType.Document || parent == Element)
    && child != NodeType.Document
    && (parent != NodeType.Document ==> child != Declaration && child != Doctype)
  }

  function NewInfo(ty: NodeType): Info {
    Info(ty, if ty == Declaration then "xml" else "", "")
  }

  class XmlDocument {
    const dom: Dom
    const root: Ref
    var unused: Ref
    /** Set once nodes have been moved: buffer addresses no longer tell the order. */
    var moved: bool
    ghost var tree: Tree

    ghost predicate Valid()
      reads this, dom
    {
      && dom.Valid() && dom.nodes == tree.node && Wf(tree) && tree.root == root
      && tree.node[root].info.ty == NodeType.Document
      && 0 < unused && (forall n | n in tree.node :: n < unused) && 0 !in tree.holder && forall a | a in tree.holder :: a < unused
    }

    /** An empty document. */
    constructor ()
      ensures Valid() && !moved && fresh(dom) && tree.node.Keys == {root} && tree.node[root].kids == [] && tree.node[root].attrs == []
    {
      dom := new Dom();
      root := 1;
      unused := 2;
      moved := false;
      var info := Info(NodeType.Document, "", "");
      tree := Tree(1, map[1 := Leaf(info)], map[]);
      new;
      dom.NewNode(1, info);
      assert LinkedAt(dom.links, dom.nodes, 1);
      dom.links := dom.links[1 := dom.links[1].(prev := 1)];
      assert dom.nodes == tree.node && LinkedAt(dom.links, dom.nodes, 1);
      TreeIs(tree);
    }

    /** A place beside a node has to be beside a child of p. */
    ghost predicate PlaceAllowed(p: Ref, place: Place)
      reads this
      requires Wf(tree) && p in tree.node
    {
      match place
      case After(x) => x in tree.node && x != root && tree.root == root && Parent(tree, x) == p
      case Before(x) => x in tree.node && x != root && tree.root == root && Parent(tree, x) == p
      case _ => true
    }

    ghost predicate PlaceKnown(place: Place)
      reads this
    {
      (place.After? || place.Before?) ==> place.node == 0 || place.node in tree.node
    }

    method CheckPlace(p: Ref, place: Place) returns (b: bool)
      requires Valid() && p in tree.node && PlaceKnown(place)
      ensures b == PlaceAllowed(p, place)
    {
      if place.AtEnd? || place.AtFront? {
        return true;
      }
      var x := place.node;
      if x == 0 {
        return false;
      }
      assert LinkedAt(dom.links, dom.nodes, x);
      b := dom.links[x].parent == p;
    }

    /** Append, prepend or insert a new node: the child list gains it at the asked place, nothing else changes. */
    method InsertChild(p: Ref, ty: NodeType, place: Place) returns (n: Ref)
      requires Valid() && p in tree.node && PlaceKnown(place)
      modifies this, dom
      ensures Valid() && moved == old(moved) && (n != 0 ==> n == old(unused))
      ensures AllowInsertChild(old(tree).node[p].info.ty, ty) && old(PlaceAllowed(p, place)) ==> Grows(old(tree), tree, n, NewInfo(ty), p, place)
      ensures !(AllowInsertChild(old(tree).node[p].info.ty, ty) && old(PlaceAllowed(p, place))) ==> n == 0 && tree == old(tree)
    {
      assert LinkedAt(dom.links, dom.nodes, p);
      var placed := CheckPlace(p, place);
      if !AllowInsertChild(dom.links[p].info.ty, ty) || !placed {
        return 0;
      }
      n := unused;
      unused := unused + 1;
      PlaceInList(tree, p, place);
      tree := LinkNew(dom, n, NewInfo(ty), p, place, tree);
    }

    /** May child move below parent? Not if that would put it below itself. */
    method AllowMove(parent: Ref, child: Ref) returns (b: bool)
      requires Valid() && parent in tree.node && child in tree.node
      ensures b == (AllowInsertChild(tree.node[parent].info.ty, tree.node[child].info.ty) && !Under(tree, parent, child))
    {
      assert LinkedAt(dom.links, dom.nodes, parent) && LinkedAt(dom.links, dom.nodes, child);
      if !AllowInsertChild(dom.links[parent].info.ty, dom.links[child].info.ty) {
        return false;
      }
      var cur := parent;
      while cur != 0
        invariant cur != 0 ==> cur in tree.node && (Under(tree, parent, child) <==> Under(tree, cur, child))
        invariant cur == 0 ==> !Under(tree, parent, child)
        decreases if cur == 0 then 0 else 1 + tree.node[tree.root].rank - tree.node[cur].rank
      {
        if cur == child {
          return false;
        }
        assert LinkedAt(dom.links, dom.nodes, cur);
        ghost var up := Parent(tree, cur);
        cur := dom.links[cur].parent;
      }
      b := true;
    }

    /** Move a node with its subtree: its old list loses it, the new one gains it at the asked place. */
    method MoveChild(q: Ref, c: Ref, place: Place) returns (ok: bool)
      requires Valid() && q in tree.node && c in tree.node && PlaceKnown(place)
      modifies this, dom
      ensures Valid()
      ensures ok == (AllowInsertChild(old(tree).node[q].info.ty, old(tree).node[c].info.ty) && old(!Under(tree, q, c) && PlaceAllowed(q, place))
                     && place != After(c) && place != Before(c))
      ensures ok ==> moved && MovesTo(old(tree), tree, c, q, place)
      ensures !ok ==> tree == old(tree) && moved == old(moved)
    {
      ok := AllowMove(q, c);
      if !ok {
        return;
      }
      ok := CheckPlace(q, place);
      if !ok || place == After(c) || place == Before(c) {
        return false;
      }
      moved := true;
      PlaceInList(tree, q, place);
      tree := LinkMoved(dom, c, q, place, tree);
    }

    /** Remove a child of p and free it with everything below it: exactly its subtree is gone. */
    method RemoveChild(p: Ref, c: Ref) returns (ok: bool)
      requires Valid() && p in tree.node && (c == 0 || c in tree.node)
      modifies this, dom
      ensures Valid() && moved == old(moved)
      ensures ok == (c != 0 && c != root && old(tree).node[c].parent == p)
      ensures ok ==> Prunes(old(tree), tree, c) && forall x | x in Subtree(old(tree), c) :: x !in dom.links
      ensures !ok ==> tree == old(tree)
    {
      assert c != 0 ==> LinkedAt(dom.links, dom.nodes, c);
      if c == 0 || dom.links[c].parent != p {
        return false;
      }
      ghost var t := tree;
      ChildListed(t, c);
      DetachedFacts(t, c);
      dom.RemoveNode(c);
      ghost var links := dom.links;
      FreeableAfter(t, c, links);
      DestroyNode(dom, c, t);
      PrunedWf(t, c);
      PrunedLinked(t, c, links, dom.links);
      tree := PrunedTree(t, c);
      dom.nodes := tree.node;
      ok := true;
    }

    /** Position of attribute a of node n, or the number of attributes if it is not one of them. */
    method FindAttribute(n: Ref, a: Ref) returns (i: nat)
      requires Valid() && n in tree.node
      ensures i == FindAttr(tree.node[n].attrs, a)
    {
      assert LinkedAt(dom.links, dom.nodes, n);
      var s := dom.links[n].attrs;
      i := 0;
      assert s[0..] == s;
      while i < |s| && s[i].id != a
        invariant i <= |s| && FindAttr(s, a) == i + FindAttr(s[i..], a)
      {
        assert s[i..][1..] == s[i + 1..];
        i := i + 1;
      }
    }

    /** Append, prepend or insert a new attribute: the list gains it at the asked place, nothing else changes. */
    method InsertAttribute(n: Ref, place: Place) returns (a: Ref)
      requires Valid() && n in tree.node
      modifies this, dom
      ensures Valid() && moved == old(moved)
      ensures AttributeAllowed(old(tree), n, place) ==> a != 0 && GainsAttr(old(tree), tree, n, AttrPlace(old(tree).node[n].attrs, place), Attr(a, "", ""))
      ensures !AttributeAllowed(old(tree), n, place) ==> a == 0 && tree == old(tree)
    {
      assert LinkedAt(dom.links, dom.nodes, n);
      var s, i := dom.links[n].attrs, 0;
      if place.After? || place.Before? {
        i := FindAttribute(n, place.node);
      }
      if !AllowInsertAttribute(dom.links[n].info.ty) || ((place.After? || place.Before?) && i == |s|) {
        return 0;
      }
      a := unused;
      unused := unused + 1;
      i := if place.AtEnd? then |s| else if place.After? then i + 1 else i;
      GainedWf(tree, n, i, Attr(a, "", ""));
      SetAttributes(n, InsertAt(s, i, Attr(a, "", "")), GainedTree(tree, n, i, Attr(a, "", "")));
    }

    method RemoveAttribute(n: Ref, a: Ref) returns (ok: bool)
      requires Valid() && n in tree.node
      modifies this, dom
      ensures Valid() && moved == old(moved) && ok == (FindAttr(old(tree).node[n].attrs, a) < |old(tree).node[n].attrs|)
      ensures ok ==> var i := FindAttr(old(tree).node[n].attrs, a); GainsAttr(tree, old(tree), n, i, old(tree).node[n].attrs[i])
      ensures !ok ==> tree == old(tree)
    {
      assert LinkedAt(dom.links, dom.nodes, n);
      var s := dom.links[n].attrs;
      var i := FindAttribute(n, a);
      ok := i < |s|;
      if ok {
        LostWf(tree, n, i);
        SetAttributes(n, RemoveAt(s, i), LostTree(tree, n, i));
      }
    }

    /** Store the attribute list of a node; u is the tree afterwards. */
    method SetAttributes(n: Ref, s: seq<Attr>, ghost u: Tree)
      requires dom.Valid() && dom.nodes == tree.node && n in tree.node && Wf(u) && u.root == tree.root
      requires u.node == tree.node[n := tree.node[n].(attrs := s)]
      modifies this`tree, dom
      ensures dom.Valid() && dom.nodes == tree.node && tree == u
    {
      assert LinkedAt(dom.links, dom.nodes, n);
      ContentedLinked(dom.links, dom.nodes, n, dom.links[n].info, s);
      dom.links := dom.links[n := dom.links[n].(attrs := s)];
      tree := u;
      dom.nodes := tree.node;
    }
  }

  /** Only elements and declarations have attributes. */
  predicate AllowInsertAttribute(ty: NodeType) {
    ty == Element || ty == Declaration
  }

  /** A place beside an attribute has to be beside one of n's. */
  predicate AttributeAllowed(t: Tree, n: Ref, place: Place)
    requires n in t.node
  {
    AllowInsertAttribute(t.node[n].info.ty) && (place.After? || place.Before? ==> FindAttr(t.node[n].attrs, place.node) < |t.node[n].attrs|)
  }

  function AttrPlace(s: seq<Attr>, place: Place): (i: nat)
    ensures i <= |s|
  {
    match place
    case AtEnd => |s|
    case AtFront => 0
    case After(a) => if FindAttr(s, a) < |s| then FindAttr(s, a) + 1 else |s|
    case Before(a) => FindAttr(s, a)
  }

  /** Link a parentless node into the child list of p. */
  method Link(dom: Dom, c: Ref, p: Ref, place: Place)
    requires dom.Valid() && c in dom.nodes && p in dom.nodes && c != p && dom.nodes[c].parent == 0 && dom.nodes[p].parent != p
    requires place.After? || place.Before? ==> place.node in dom.nodes[p].kids && place.node != c
    modifies dom
    ensures dom.Valid() && dom.nodes == Relink(old(dom.nodes), p, Insert(old(dom.nodes)[p].kids, place, c))
  {
    ghost var k := dom.nodes[p].kids;
    match place
    case AtEnd => dom.AppendNode(c, p);
    case AtFront => dom.PrependNode(c, p);
    case After(x) =>
      KidPlace(dom.nodes, p, x);
      assert Insert(k, place, c) == InsertAt(k, dom.nodes[x].index + 1, c);
      dom.InsertNodeAfter(c, x);
    case Before(x) =>
      KidPlace(dom.nodes, p, x);
      assert Insert(k, place, c) == InsertAt(k, dom.nodes[x].index, c);
      dom.InsertNodeBefore(c, x);
  }

  /** A new node is linked in; t is the tree before, u the tree after. */
  method LinkNew(dom: Dom, n: Ref, info: Info, p: Ref, place: Place, ghost t: Tree) returns (ghost u: Tree)
    requires dom.Valid() && dom.nodes == t.node && Wf(t) && p in t.node && n !in t.node && n != 0
    requires place.After? || place.Before? ==> place.node in t.node[p].kids
    modifies dom
    ensures dom.Valid() && dom.nodes == u.node && Wf(u) && Grows(t, u, n, info, p, place)
  {
    dom.NewNode(n, info);
    NewLists(t, n, info);
    assert p != t.root ==> Parent(t, p) != p;
    NewKidElsewhere(t, n, p, place);
    Link(dom, n, p, place);
    GrownWf(t, n, info, p, place);
    RaisedLinked(dom.links, dom.nodes, {n}, 1);
    u := GrownTree(t, n, info, p, PlaceIn(t.node[p].kids, place));
    dom.nodes := u.node;
  }

  lemma NewKidElsewhere(t: Tree, n: Ref, p: Ref, place: Place)
    requires Wf(t) && p in t.node && n !in t.node
    requires place.After? || place.Before? ==> place.node in t.node[p].kids
    ensures place != After(n) && place != Before(n)
  {
    if place.After? || place.Before? {
      assert ChildWf(t, p, IndexOf(t.node[p].kids, place.node));
    }
  }

  /** A node is unlinked and linked in again elsewhere. */
  method LinkMoved(dom: Dom, c: Ref, q: Ref, place: Place, ghost t: Tree) returns (ghost u: Tree)
    requires dom.Valid() && dom.nodes == t.node && Wf(t) && c in t.node && c != t.root && q in t.node && !Under(t, q, c)
    requires place.After? || place.Before? ==> place.node in t.node && place.node in t.node[q].kids && place.node != c
    modifies dom
    ensures dom.Valid() && dom.nodes == u.node && Wf(u) && MovesTo(t, u, c, q, place)
  {
    ghost var d := MoveReady(t, c, q, place);
    Relocate(dom, c, q, place, d);
    u := MoveDone(t, c, q, place, d, dom.links, dom.nodes);
    dom.nodes := u.node;
  }

  /** Unlink a node and link it in elsewhere; d has the child lists in between. */
  method Relocate(dom: Dom, c: Ref, q: Ref, place: Place, ghost d: map<Ref, Node>)
    requires dom.Valid() && InChildList(dom.nodes, c) && d == Detached(dom.nodes, c)
    requires Lists(d) && c != q && q in d && c in d && d[c].parent == 0 && d[q].parent != q
    requires place.After? || place.Before? ==> place.node in d[q].kids && place.node != c
    modifies dom
    ensures dom.Valid() && dom.nodes == Relink(d, q, Insert(d[q].kids, place, c))
  {
    dom.RemoveNode(c);
    assert dom.nodes == d;
    Link(dom, c, q, place);
  }

  /** The child lists between unlinking and linking. */
  lemma MoveReady(t: Tree, c: Ref, q: Ref, place: Place) returns (d: map<Ref, Node>)
    requires Wf(t) && c in t.node && c != t.root && q in t.node && !Under(t, q, c)
    requires place.After? || place.Before? ==> place.node in t.node && place.node in t.node[q].kids && place.node != c
    ensures InChildList(t.node, c) && d == Detached(t.node, c)
    ensures Lists(d) && c != q && q in d && c in d && d[c].parent == 0 && d[q].parent != q
    ensures place.After? || place.Before? ==> place.node in d[q].kids
  {
    ChildListed(t, c);
    PlaceStays(t, c, q, place);
    DetachedFacts(t, c);
    NotOwnParent(t, c, q);
    d := Detached(t.node, c);
  }

  lemma MoveDone(t: Tree, c: Ref, q: Ref, place: Place, d: map<Ref, Node>, links: map<Ref, Links>, m: map<Ref, Node>) returns (u: Tree)
    requires Wf(t) && c in t.node && c != t.root && q in t.node && !Under(t, q, c) && InChildList(t.node, c) && d == Detached(t.node, c)
    requires q in d && m == Relink(d, q, Insert(d[q].kids, place, c)) && Linked(links, m)
    ensures Linked(links, u.node) && Wf(u) && MovesTo(t, u, c, q, place)
  {
    u := MovedTree(t, c, q, PlaceIn(d[q].kids, place));
    MovedLinked(d, c, q, place, Subtree(t, c), links, m);
    MovedWf(t, c, q, PlaceIn(d[q].kids, place));
    MovedKids(t, c, q, place);
  }

  lemma MovedLinked(d: map<Ref, Node>, c: Ref, q: Ref, place: Place, low: set<Ref>, links: map<Ref, Links>, m: map<Ref, Node>)
    requires q in d && c in d && m == Relink(d, q, Insert(d[q].kids, place, c)) && Linked(links, m)
    ensures Linked(links, Attach(d, q, PlaceIn(d[q].kids, place), c, low))
  {
    RaisedLinked(links, m, low, d[c].rank + 1);
  }

  // Freeing.

  /** The links that freeing the subtree of n reads at x. */
  ghost predicate FreeableAt(links: map<Ref, Links>, t: Tree, n: Ref, x: Ref)
    requires Wf(t) && x in t.node
  {
    x in links && links[x].first == FirstChild(t, x) && (x != n ==> links[x].next == NextSibling(t, x))
  }

  ghost predicate Freeable(links: map<Ref, Links>, t: Tree, n: Ref)
    requires Wf(t)
  {
    forall x {:trigger FreeableAt(links, t, n, x)} | x in t.node && Under(t, x, n) :: FreeableAt(links, t, n, x)
  }

  /** Everything below the children of n before the i-th. */
  ghost function BelowFirst(t: Tree, n: Ref, i: nat): set<Ref>
    requires Wf(t) && n in t.node && i <= |t.node[n].kids|
  {
    set x | x in LeftForest(t, n, i)
  }

  /** Free a node and what is below it: each of these nodes once, nothing else. */
  method DestroyNode(dom: Dom, n: Ref, ghost t: Tree)
    requires Wf(t) && n in t.node && Freeable(dom.links, t, n)
    modifies dom`links
    ensures dom.links == old(dom.links) - Subtree(t, n)
    decreases t.node[n].rank
  {
    UnderRank(t, n, n);
    assert FreeableAt(dom.links, t, n, n);
    var child := dom.links[n].first;
    ghost var i, kids := 0, t.node[n].kids;
    while child != 0
      invariant i <= |kids| && child == (if i < |kids| then kids[i] else 0)
      invariant dom.links == old(dom.links) - BelowFirst(t, n, i)
      decreases |kids| - i
    {
      FreeableRest(old(dom.links), dom.links, t, n, i);
      assert ChildWf(t, n, i) && FreeableAt(dom.links, t, n, child);
      var next := dom.links[child].next;
      DestroyNode(dom, child, t);
      BelowNext(t, n, i);
      child := next;
      i := i + 1;
    }
    BelowAll(t, n);
    dom.links := dom.links - {n};
  }

  lemma BelowNext(t: Tree, n: Ref, i: nat)
    requires Wf(t) && n in t.node && i < |t.node[n].kids|
    ensures t.node[n].kids[i] in t.node && BelowFirst(t, n, i + 1) == BelowFirst(t, n, i) + Subtree(t, t.node[n].kids[i])
  {
    assert ChildWf(t, n, i);
    forall x ensures x in Pre(t, t.node[n].kids[i]) <==> x in Subtree(t, t.node[n].kids[i]) {
      PreMembers(t, t.node[n].kids[i], x);
    }
  }

  lemma BelowAll(t: Tree, n: Ref)
    requires Wf(t) && n in t.node
    ensures Subtree(t, n) == BelowFirst(t, n, |t.node[n].kids|) + {n}
  {
    ForestSplit(t, n, |t.node[n].kids|);
    forall x ensures x in Pre(t, n) <==> x in Subtree(t, n) {
      PreMembers(t, n, x);
    }
  }

  /** Subtrees of children do not overlap. */
  lemma BelowApart(t: Tree, n: Ref, i: nat, x: Ref)
    requires Wf(t) && n in t.node && i < |t.node[n].kids|
    requires t.node[n].kids[i] in t.node && x in Subtree(t, t.node[n].kids[i])
    ensures x != n && x !in BelowFirst(t, n, i)
  {
    var c := t.node[n].kids[i];
    assert ChildWf(t, n, i);
    UnderRank(t, x, c);
    if x in LeftForest(t, n, i) {
      PreMembers(t, c, x);
      ForestDistinct(t, n, 0);
      ForestSplit(t, n, i);
      AppendAssociative(LeftForest(t, n, i), Pre(t, c), Forest(t, n, i + 1));
      SplitMembers(LeftForest(t, n, i), Pre(t, c), Forest(t, n, i + 1), IndexOf(LeftForest(t, n, i), x));
    }
  }

  /** What is still to be freed has not been touched. */
  lemma FreeableRest(was: map<Ref, Links>, links: map<Ref, Links>, t: Tree, n: Ref, i: nat)
    requires Wf(t) && n in t.node && i < |t.node[n].kids| && Freeable(was, t, n) && links == was - BelowFirst(t, n, i)
    ensures t.node[n].kids[i] in t.node && FreeableAt(links, t, n, t.node[n].kids[i]) && Freeable(links, t, t.node[n].kids[i])
  {
    var c := t.node[n].kids[i];
    assert ChildWf(t, n, i) && Under(t, c, c);
    forall x {:trigger FreeableAt(links, t, c, x)} | x in t.node && Under(t, x, c) ensures FreeableAt(links, t, n, x) && FreeableAt(links, t, c, x) {
      UnderParent(t, x, c);
      assert FreeableAt(was, t, n, x);
      UnderRank(t, x, c);
      BelowApart(t, n, i, x);
    }
    assert FreeableAt(links, t, c, c);
  }

  lemma FreeableAfter(t: Tree, c: Ref, links: map<Ref, Links>)
    requires Wf(t) && c in t.node && c != t.root && InChildList(t.node, c) && Linked(links, Detached(t.node, c))
    ensures Freeable(links, t, c)
  {
    var d := Detached(t.node, c);
    forall x {:trigger FreeableAt(links, t, c, x)} | x in t.node && Under(t, x, c) ensures FreeableAt(links, t, c, x) {
      assert LinkedAt(links, d, x) && PlaceOk(d, x);
      UnderRank(t, x, c);
      if x != c {
        UnderRank(t, Parent(t, x), c);
      }
    }
  }

  lemma PrunedLinked(t: Tree, c: Ref, links: map<Ref, Links>, w: map<Ref, Links>)
    requires Wf(t) && c in t.node && c != t.root && InChildList(t.node, c)
    requires Linked(links, Detached(t.node, c)) && w == links - Subtree(t, c)
    ensures Linked(w, PrunedTree(t, c).node)
  {
    PrunedWf(t, c);
    TreeIs(PrunedTree(t, c));
    var d, m := Detached(t.node, c), PrunedTree(t, c).node;
    forall n {:trigger LinkedAt(w, m, n)} | n in m ensures LinkedAt(w, m, n) {
      assert LinkedAt(links, d, n) && PlaceOk(d, n) && PlaceOk(m, n);
    }
  }

  lemma KidPlace(m: map<Ref, Node>, p: Ref, x: Ref)
    requires Lists(m) && p in m && x in m[p].kids && m[p].parent != p
    ensures x in m && InChildList(m, x) && m[x].parent == p && m[x].index == IndexOf(m[p].kids, x)
  {
    assert KidOk(m, p, IndexOf(m[p].kids, x));
    assert PlaceOk(m, x);
  }

  lemma PlaceInList(t: Tree, p: Ref, place: Place)
    requires Wf(t) && p in t.node
    requires place.After? || place.Before? ==> place.node in t.node && place.node != t.root && Parent(t, place.node) == p
    ensures place.After? || place.Before? ==> place.node in t.node[p].kids
  {
  }

  lemma PlaceStays(t: Tree, c: Ref, q: Ref, place: Place)
    requires Wf(t) && c in t.node && c != t.root && q in t.node && InChildList(t.node, c)
    requires place.After? || place.Before? ==> place.node in t.node[q].kids && place.node != c
    ensures place.After? || place.Before? ==> place.node in Detached(t.node, c)[q].kids
  {
    WithoutIs(t, c, q);
    if place.After? || place.Before? {
      var s := t.node[q].kids;
      if c in s {
        var k := IndexOf(s, c);
        assert s == s[..k] + [c] + s[k + 1..];
      }
    }
  }
}
