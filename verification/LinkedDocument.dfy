/**
 * The document with its attribute lists as they are stored. Each operation works on the links of child lists and of attribute
 * lists; the attribute links always spell out the attributes that the nodes of the tree have.
 */
module LinkedDocument {
  import opened Sequences
  import opened XmlTree
  import opened DomLinks
  import opened TreeEdits
  import opened Document
  import opened AttrLinks
  import CopyTree

  function Ids(s: seq<Attr>): (r: seq<Ref>)
    ensures |r| == |s| && forall i | 0 <= i < |s| :: r[i] == s[i].id
  {
    seq(|s|, i requires 0 <= i < |s| => s[i].id)
  }

  /** The lists that the nodes of a tree should have. */
  function IdLists(t: Tree): map<Ref, seq<Ref>> {
    map n | n in t.node :: Ids(t.node[n].attrs)
  }

  lemma FindMember(t: Tree, n: Ref, a: Ref)
    requires Wf(t) && n in t.node
    ensures a in Ids(t.node[n].attrs) <==> FindAttr(t.node[n].attrs, a) < |t.node[n].attrs|
  {
    var s := t.node[n].attrs;
    if FindAttr(s, a) < |s| {
      assert Ids(s)[FindAttr(s, a)] == a;
    }
    if a in Ids(s) {
      var i :| 0 <= i < |s| && Ids(s)[i] == a;
      assert s[i].id == a && AttrWf(t, n, i);
    }
  }

  /** An id that the tree does not hold yet. */
  lemma NewFree(t: Tree, a: Ref)
    requires Wf(t) && a != 0 && a !in t.holder
    ensures Free(IdLists(t), a)
  {
    forall n | n in t.node ensures a !in Ids(t.node[n].attrs) {
      forall i | 0 <= i < |t.node[n].attrs| ensures t.node[n].attrs[i].id != a {
        assert AttrWf(t, n, i);
      }
    }
  }

  lemma IdsInsert(s: seq<Attr>, i: nat, x: Attr)
    requires i <= |s|
    ensures Ids(InsertAt(s, i, x)) == InsertAt(Ids(s), i, x.id)
  {
  }

  lemma PrefixMore(s: seq<Ref>, i: nat)
    requires i < |s|
    ensures InsertAt(s[..i], |s[..i]|, s[i]) == s[..i + 1]
  {
  }

  lemma GainedAttrs(t: Tree, u: Tree, n: Ref, i: nat, x: Attr)
    requires GainsAttr(t, u, n, i, x)
    ensures IdLists(u) == IdLists(t)[n := InsertAt(IdLists(t)[n], i, x.id)]
  {
    IdsInsert(t.node[n].attrs, i, x);
  }

  lemma LostAttrs(t: Tree, u: Tree, n: Ref, i: nat, x: Attr)
    requires GainsAttr(u, t, n, i, x)
    ensures i < |IdLists(t)[n]| && IdLists(t)[n][i] == x.id && IdLists(u) == IdLists(t)[n := RemoveAt(IdLists(t)[n], i)]
  {
    IdsInsert(u.node[n].attrs, i, x);
    var r := Ids(u.node[n].attrs);
    assert RemoveAt(InsertAt(r, i, x.id), i) == r;
  }

  lemma GrownAttrs(t: Tree, u: Tree, n: Ref, info: Info, p: Ref, place: Place)
    requires Grows(t, u, n, info, p, place)
    ensures IdLists(u) == IdLists(t)[n := []]
  {
    forall m | m in t.node ensures u.node[m].attrs == t.node[m].attrs {
      assert u.node[m].kids == GrownList(t.node[m].kids, m == p, n, place);
    }
  }

  lemma MovedAttrs(t: Tree, u: Tree, c: Ref, q: Ref, place: Place)
    requires MovesTo(t, u, c, q, place)
    ensures IdLists(u) == IdLists(t)
  {
    forall m | m in t.node ensures u.node[m].attrs == t.node[m].attrs {
      assert u.node[m].kids == MovedList(t.node[m].kids, m == q, c, place);
    }
  }

  lemma PrunedAttrs(t: Tree, u: Tree, c: Ref)
    requires Wf(t) && Prunes(t, u, c)
    ensures IdLists(u) == IdLists(t) - Subtree(t, c)
  {
    forall m | m in u.node ensures IdLists(u)[m] == IdLists(t)[m] {
      assert u.node[m].kids == Without(t.node[m].kids, c);
    }
    assert IdLists(u).Keys == IdLists(t).Keys - Subtree(t, c);
  }

  class LinkedDocument {
    const d: XmlDocument
    const atts: AttrStore

    ghost predicate Valid()
      reads d, d.dom, atts
    {
      d.Valid() && atts.Valid() && atts.lists == IdLists(d.tree)
    }

    /** An empty document. */
    constructor ()
      ensures Valid() && fresh(d) && fresh(d.dom) && fresh(atts)
    {
      d := new XmlDocument();
      atts := new AttrStore();
      new;
      atts.NewNode(d.root);
      assert atts.lists == IdLists(d.tree);
    }

    // Attributes.

    /** A new attribute is linked in at the asked place. */
    method InsertAttribute(n: Ref, place: Place) returns (a: Ref)
      requires Valid() && n in d.tree.node
      modifies d, d.dom, atts
      ensures Valid() && d.moved == old(d.moved)
      ensures (a != 0) == AttributeAllowed(old(d.tree), n, place)
      ensures a != 0 ==> GainsAttr(old(d.tree), d.tree, n, AttrPlace(old(d.tree).node[n].attrs, place), Attr(a, "", ""))
      ensures a == 0 ==> d.tree == old(d.tree)
    {
      ghost var t := d.tree;
      assert LinkedAt(d.dom.links, d.dom.nodes, n);
      if !AllowInsertAttribute(d.dom.links[n].info.ty) {
        return 0;
      }
      if place.After? || place.Before? {
        var there := atts.IsAttributeOf(place.node, n);
        FindMember(t, n, place.node);
        if !there {
          return 0;
        }
      }
      a := d.InsertAttribute(n, place);
      GainedAttrs(t, d.tree, n, AttrPlace(t.node[n].attrs, place), Attr(a, "", ""));
      NewFree(t, a);
      LinkAttribute(a, n, place, t.node[n].attrs);
    }

    /** Link a free attribute into the list of n, whose attributes are s. */
    method LinkAttribute(a: Ref, n: Ref, place: Place, ghost s: seq<Attr>)
      requires atts.Valid() && n in atts.lists && atts.lists[n] == Ids(s) && Free(atts.lists, a)
      requires place.After? || place.Before? ==> FindAttr(s, place.node) < |s|
      modifies atts
      ensures atts.Valid() && atts.lists == old(atts.lists)[n := InsertAt(old(atts.lists)[n], AttrPlace(s, place), a)]
    {
      match place
      case AtEnd => atts.Append(a, n);
      case AtFront => atts.Prepend(a, n);
      case After(x) => atts.InsertAfter(a, x, n, FindAttr(s, x));
      case Before(x) => atts.InsertBefore(a, x, n, FindAttr(s, x));
    }

    /** An attribute of n is taken out of its list. */
    method RemoveAttribute(n: Ref, a: Ref) returns (ok: bool)
      requires Valid() && n in d.tree.node
      modifies d, d.dom, atts
      ensures Valid() && d.moved == old(d.moved) && ok == (FindAttr(old(d.tree).node[n].attrs, a) < |old(d.tree).node[n].attrs|)
      ensures ok ==> var i := FindAttr(old(d.tree).node[n].attrs, a); GainsAttr(d.tree, old(d.tree), n, i, old(d.tree).node[n].attrs[i])
      ensures !ok ==> d.tree == old(d.tree)
    {
      ghost var t := d.tree;
      ok := atts.IsAttributeOf(a, n);
      FindMember(t, n, a);
      if ok {
        ghost var i := FindAttr(t.node[n].attrs, a);
        var done := d.RemoveAttribute(n, a);
        LostAttrs(t, d.tree, n, i, t.node[n].attrs[i]);
        atts.Remove(a, n, i);
      }
    }

    // Nodes.

    method InsertChild(p: Ref, ty: NodeType, place: Place) returns (n: Ref)
      requires Valid() && p in d.tree.node && d.PlaceKnown(place)
      modifies d, d.dom, atts
      ensures Valid() && d.moved == old(d.moved)
      ensures (n != 0) == (AllowInsertChild(old(d.tree).node[p].info.ty, ty) && old(d.PlaceAllowed(p, place)))
      ensures n != 0 ==> Grows(old(d.tree), d.tree, n, NewInfo(ty), p, place)
      ensures n == 0 ==> d.tree == old(d.tree)
    {
      ghost var t := d.tree;
      n := d.InsertChild(p, ty, place);
      if n != 0 {
        GrownAttrs(t, d.tree, n, NewInfo(ty), p, place);
        atts.NewNode(n);
      }
    }

    /** A move touches no attribute. */
    method MoveChild(q: Ref, c: Ref, place: Place) returns (ok: bool)
      requires Valid() && q in d.tree.node && c in d.tree.node && d.PlaceKnown(place)
      modifies d, d.dom
      ensures Valid()
      ensures ok == (AllowInsertChild(old(d.tree).node[q].info.ty, old(d.tree).node[c].info.ty) && old(!Under(d.tree, q, c) && d.PlaceAllowed(q, place))
                     && place != After(c) && place != Before(c))
      ensures ok ==> d.moved && MovesTo(old(d.tree), d.tree, c, q, place)
      ensures !ok ==> d.tree == old(d.tree) && d.moved == old(d.moved)
    {
      ghost var t := d.tree;
      ok := d.MoveChild(q, c, place);
      if ok {
        MovedAttrs(t, d.tree, c, q, place);
      }
    }

    // Copying.

    /** Link the attributes of a new node. */
    method LinkAttributes(c: Ref, ghost own: set<Ref>)
      requires d.Valid() && atts.Valid() && c in d.tree.node && c !in own && Partly(atts.lists, d.tree, own)
      modifies atts
      ensures atts.Valid() && Partly(atts.lists, d.tree, own + {c})
    {
      ghost var was, t := atts.lists, d.tree;
      assert LinkedAt(d.dom.links, d.dom.nodes, c);
      var s := d.dom.links[c].attrs;
      atts.NewNode(c);
      for i: nat := 0 to |s|
        invariant atts.Valid() && atts.lists == was[c := Ids(s)[..i]]
      {
        NextFree(t, was, own, c, i);
        atts.Append(s[i].id, c);
        PrefixMore(Ids(s), i);
      }
      assert Ids(s)[..|s|] == Ids(s);
      PartlyMore(was, t, own, c);
    }

    /** Link the attributes of the copy that belongs to the k-th node of the walk; own has the nodes linked so far. */
    method LinkCopy(cp: map<Ref, Ref>, seen: seq<Ref>, n: Ref, k: nat, ghost t: Tree, ghost own: set<Ref>) returns (ghost more: set<Ref>)
      requires d.Valid() && atts.Valid() && CopyTree.Visited(cp, seen, n) && NewCopies(t, d.tree, cp, seen, n) && k < |seen|
      requires Partly(atts.lists, d.tree, own) && own == t.node.Keys + CopiesTo(cp, seen, n, k)
      modifies atts
      ensures atts.Valid() && Partly(atts.lists, d.tree, more) && more == t.node.Keys + CopiesTo(cp, seen, n, k + 1)
    {
      CopiesMore(t.node.Keys, cp, seen, n, k);
      more := own;
      if seen[k] != n {
        assert NewCopy(t, d.tree, cp, seen, n, k);
        LinkAttributes(cp[seen[k]], own);
        more := own + {cp[seen[k]]};
      }
    }

    /** Link the attributes of the copies, in the order of the walk; t is the tree before. */
    method LinkCopies(cp: map<Ref, Ref>, seen: seq<Ref>, n: Ref, ghost t: Tree)
      requires d.Valid() && atts.Valid() && CopyTree.Visited(cp, seen, n) && NewCopies(t, d.tree, cp, seen, n) && Partly(atts.lists, d.tree, t.node.Keys)
      modifies atts
      ensures atts.Valid() && atts.lists == IdLists(d.tree)
    {
      ghost var own := t.node.Keys;
      for k: nat := 0 to |seen|
        invariant atts.Valid() && Partly(atts.lists, d.tree, own) && own == t.node.Keys + CopiesTo(cp, seen, n, k)
      {
        own := LinkCopy(cp, seen, n, k, t, own);
      }
      PartlyAll(atts.lists, d.tree);
    }

    /** The copies have attribute lists of their own. */
    method CopyChild(p: Ref, proto: Ref, place: Place) returns (n: Ref)
      requires Valid() && p in d.tree.node && proto in d.tree.node && d.PlaceKnown(place)
      modifies d, d.dom, atts
      ensures Valid() && d.moved == old(d.moved)
      ensures (n != 0) == (AllowInsertChild(old(d.tree).node[p].info.ty, old(d.tree).node[proto].info.ty) && old(d.PlaceAllowed(p, place)))
      ensures n != 0 ==> n in d.tree.node && CopyTree.ValueOf(d.tree, n) == old(CopyTree.ValueOf(d.tree, proto))
      ensures n != 0 ==> CopyTree.OthersKept(old(d.tree), d.tree, p, place, n)
      ensures n == 0 ==> d.tree == old(d.tree)
    {
      ghost var t := d.tree;
      var cp, seen;
      n, cp, seen := CopyTree.CopyChild(d, p, proto, place);
      if n != 0 {
        KeptLists(t, d.tree, p, place, n);
        AllCopies(t, d.tree, cp, seen, n);
        LinkCopies(cp, seen, n, t);
      }
    }

    // Removing.

    /** Free the attributes of a subtree. */
    method ForgetSubtree(n: Ref)
      requires d.Valid() && atts.Valid() && n in d.tree.node && Subtree(d.tree, n) <= atts.lists.Keys
      modifies atts
      ensures atts.Valid() && atts.lists == old(atts.lists) - Subtree(d.tree, n)
      decreases d.tree.node[n].rank, 1
    {
      ghost var t, was := d.tree, atts.lists;
      ghost var i, kids := 0, t.node[n].kids;
      assert Under(t, n, n);
      atts.Forget(n);
      assert LinkedAt(d.dom.links, d.dom.nodes, n);
      var child := d.dom.links[n].first;
      assert was - {n} == was - {n} - BelowFirst(t, n, 0);
      while child != 0
        invariant i <= |kids| && child == (if i < |kids| then kids[i] else 0)
        invariant atts.Valid() && atts.lists == was - {n} - BelowFirst(t, n, i)
        decreases |kids| - i
      {
        child := ForgetKid(n, child, i, was);
        i := i + 1;
      }
      BelowAll(t, n);
    }

    /** Free the attributes below the i-th child of n and go on to the next child; was has the lists before n was reached. */
    method ForgetKid(n: Ref, child: Ref, ghost i: nat, ghost was: map<Ref, seq<Ref>>) returns (next: Ref)
      requires d.Valid() && atts.Valid() && n in d.tree.node && i < |d.tree.node[n].kids| && child == d.tree.node[n].kids[i]
      requires Subtree(d.tree, n) <= was.Keys && atts.lists == was - {n} - BelowFirst(d.tree, n, i)
      modifies atts
      ensures atts.Valid() && atts.lists == was - {n} - BelowFirst(d.tree, n, i + 1)
      ensures next == if i + 1 < |d.tree.node[n].kids| then d.tree.node[n].kids[i + 1] else 0
      decreases d.tree.node[n].rank, 0
    {
      ghost var t := d.tree;
      assert ChildWf(t, n, i) && LinkedAt(d.dom.links, d.dom.nodes, child);
      next := d.dom.links[child].next;
      BelowThere(t, n, i);
      ForgetSubtree(child);
      BelowNext(t, n, i);
    }

    method RemoveChild(p: Ref, c: Ref) returns (ok: bool)
      requires Valid() && p in d.tree.node && (c == 0 || c in d.tree.node)
      modifies d, d.dom, atts
      ensures Valid() && d.moved == old(d.moved)
      ensures ok == (c != 0 && c != d.root && old(d.tree).node[c].parent == p)
      ensures ok ==> Prunes(old(d.tree), d.tree, c)
      ensures !ok ==> d.tree == old(d.tree)
    {
      ghost var t := d.tree;
      assert c != 0 ==> LinkedAt(d.dom.links, d.dom.nodes, c);
      if c == 0 || d.dom.links[c].parent != p {
        return false;
      }
      ForgetSubtree(c);
      ok := d.RemoveChild(p, c);
      PrunedAttrs(t, d.tree, c);
    }
  }

  /** The nodes of a set have the lists they should have. */
  ghost predicate Partly(lists: map<Ref, seq<Ref>>, t: Tree, own: set<Ref>) {
    lists.Keys == own && forall n {:trigger lists[n]} | n in own :: n in t.node && lists[n] == Ids(t.node[n].attrs)
  }

  /** An attribute of c is in no list yet, if c has only the attributes before it. */
  lemma NextFree(t: Tree, lists: map<Ref, seq<Ref>>, own: set<Ref>, c: Ref, i: nat)
    requires Wf(t) && 0 !in t.holder && Partly(lists, t, own) && c in t.node && c !in own && i < |t.node[c].attrs|
    ensures Free(lists[c := Ids(t.node[c].attrs)[..i]], t.node[c].attrs[i].id)
  {
    var r, a := lists[c := Ids(t.node[c].attrs)[..i]], t.node[c].attrs[i].id;
    assert AttrWf(t, c, i);
    forall n | n in r ensures a !in r[n] {
      if n == c {
        forall j | 0 <= j < i ensures t.node[c].attrs[j].id != a {
          assert AttrWf(t, c, j);
        }
      } else {
        assert lists[n] == Ids(t.node[n].attrs);
        forall j | 0 <= j < |t.node[n].attrs| ensures t.node[n].attrs[j].id != a {
          assert AttrWf(t, n, j);
        }
      }
    }
  }

  /** A tree with copies in it still has the lists of the nodes that were there. */
  lemma KeptLists(t: Tree, u: Tree, p: Ref, place: Place, n: Ref)
    requires CopyTree.OthersKept(t, u, p, place, n)
    ensures Partly(IdLists(t), u, t.node.Keys)
  {
    forall m | m in t.node ensures m in u.node && IdLists(t)[m] == Ids(u.node[m].attrs) {
      assert CopyTree.OtherKept(t, u, p, place, n, m);
    }
  }

  lemma CopiesMore(had: set<Ref>, cp: map<Ref, Ref>, seen: seq<Ref>, n: Ref, k: nat)
    requires k < |seen| && CopyTree.Visited(cp, seen, n)
    ensures had + CopiesTo(cp, seen, n, k + 1) == had + CopiesTo(cp, seen, n, k) + (if seen[k] == n then {} else {cp[seen[k]]})
  {
  }

  lemma PartlyMore(lists: map<Ref, seq<Ref>>, t: Tree, own: set<Ref>, c: Ref)
    requires Partly(lists, t, own) && c in t.node
    ensures Partly(lists[c := Ids(t.node[c].attrs)], t, own + {c})
  {
  }

  lemma PartlyAll(lists: map<Ref, seq<Ref>>, t: Tree)
    requires Partly(lists, t, t.node.Keys)
    ensures lists == IdLists(t)
  {
  }

  /** The copies of the first k nodes of the walk; n itself is not copied. */
  function CopiesTo(cp: map<Ref, Ref>, seen: seq<Ref>, n: Ref, k: nat): set<Ref>
    requires k <= |seen| && CopyTree.Visited(cp, seen, n)
  {
    set i | 0 <= i < k && seen[i] != n :: cp[seen[i]]
  }

  /** The copies are new, and each is met once. */
  ghost predicate NewCopies(t: Tree, u: Tree, cp: map<Ref, Ref>, seen: seq<Ref>, n: Ref)
    requires CopyTree.Visited(cp, seen, n)
  {
    && t.node.Keys + CopiesTo(cp, seen, n, |seen|) == u.node.Keys
    && forall k {:trigger NewCopy(t, u, cp, seen, n, k)} | 0 <= k < |seen| && seen[k] != n :: NewCopy(t, u, cp, seen, n, k)
  }

  ghost predicate NewCopy(t: Tree, u: Tree, cp: map<Ref, Ref>, seen: seq<Ref>, n: Ref, k: nat)
    requires k < |seen| && CopyTree.Visited(cp, seen, n)
  {
    seen[k] in cp && cp[seen[k]] in u.node && cp[seen[k]] !in t.node && cp[seen[k]] !in CopiesTo(cp, seen, n, k)
  }

  lemma AllCopies(t: Tree, u: Tree, cp: map<Ref, Ref>, seen: seq<Ref>, n: Ref)
    requires CopyTree.Visited(cp, seen, n) && Distinct(seen) && CopyTree.CopiesOf(t, u, cp)
    ensures NewCopies(t, u, cp, seen, n)
  {
    forall c ensures c in CopyTree.Made(cp) <==> c in CopiesTo(cp, seen, n, |seen|) {
      if c in CopyTree.Made(cp) {
        var v :| v in cp && cp[v] == c;
        var i :| 0 <= i < |seen| && seen[i] == v;
        assert v != n;
      }
    }
    forall k | 0 <= k < |seen| && seen[k] != n ensures NewCopy(t, u, cp, seen, n, k) {
      assert CopyTree.CopyOf(t, u, seen[k], cp[seen[k]]);
      forall i | 0 <= i < k && seen[i] != n ensures cp[seen[i]] != cp[seen[k]] {
        assert seen[i] != seen[k];
      }
    }
  }

  /** The subtree of the i-th child is below n, apart from n and from the subtrees before it. */
  lemma BelowThere(t: Tree, n: Ref, i: nat)
    requires Wf(t) && n in t.node && i < |t.node[n].kids|
    ensures t.node[n].kids[i] in t.node
    ensures forall x | x in Subtree(t, t.node[n].kids[i]) :: x in Subtree(t, n) && x != n && x !in BelowFirst(t, n, i)
  {
    var c := t.node[n].kids[i];
    assert ChildWf(t, n, i);
    forall x | x in Subtree(t, c) ensures x in Subtree(t, n) && x != n && x !in BelowFirst(t, n, i) {
      BelowApart(t, n, i, x);
      UnderParent(t, x, c);
    }
  }
}
