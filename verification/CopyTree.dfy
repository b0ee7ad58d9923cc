/**
 * Copying a subtree, possibly to a place inside that same subtree.
 * The copy is attached first and filled while the source is being walked, so the walk steps over it.
 */
module CopyTree {
  import opened Sequences
  import opened XmlTree
  import opened DomLinks
  import opened TreeEdits
  import opened Document

  /** A subtree without addresses. */
  datatype Value = Value(info: Info, attrs: seq<(string, string)>, kids: seq<Value>)

  function AttrValues(s: seq<Attr>): seq<(string, string)> {
    seq(|s|, i requires 0 <= i < |s| => (s[i].name, s[i].value))
  }

  function ValueOf(t: Tree, n: Ref): Value
    requires Wf(t) && n in t.node
    decreases t.node[n].rank, |t.node[n].kids| + 1
  {
    Value(t.node[n].info, AttrValues(t.node[n].attrs), KidValues(t, n, 0))
  }

  function KidValues(t: Tree, n: Ref, i: nat): seq<Value>
    requires Wf(t) && n in t.node && i <= |t.node[n].kids|
    decreases t.node[n].rank, |t.node[n].kids| - i
  {
    if i == |t.node[n].kids| then [] else
      assert ChildWf(t, n, i);
      [ValueOf(t, t.node[n].kids[i])] + KidValues(t, n, i + 1)
  }

  // Contents.

  /** New attributes with the same names and values. */
  function CopyAttrs(s: seq<Attr>, base: Ref): seq<Attr> {
    seq(|s|, i requires 0 <= i < |s| => Attr(base + i, s[i].name, s[i].value))
  }

  lemma {:induction false} CopyAttrsFind(s: seq<Attr>, base: Ref, i: nat)
    requires i < |s|
    ensures FindAttr(CopyAttrs(s, base), base + i) == i
  {
    var c := CopyAttrs(s, base);
    if i > 0 {
      assert c[1..] == CopyAttrs(s[1..], base + 1);
      CopyAttrsFind(s[1..], base + 1, i - 1);
      assert base + 1 + (i - 1) == base + i;
    }
  }

  function Ids(s: seq<Attr>): set<Ref> {
    set i | 0 <= i < |s| :: s[i].id
  }

  /** The tree after the contents of src have been copied to n. */
  ghost function Contented(t: Tree, n: Ref, src: Ref, base: Ref): Tree
    requires n in t.node && src in t.node
  {
    var s := CopyAttrs(t.node[src].attrs, base);
    Tree(t.root, t.node[n := t.node[n].(info := t.node[src].info, attrs := s)], t.holder + map a | a in Ids(s) :: n)
  }

  lemma ContentedWf(t: Tree, n: Ref, src: Ref, base: Ref)
    requires Wf(t) && n in t.node && src in t.node && forall a | a in t.holder :: a < base
    ensures Wf(Contented(t, n, src, base))
  {
    TreeIs(t);
    var u := Contented(t, n, src, base);
    var s := t.node[src].attrs;
    forall x, i {:trigger AttrWf(u, x, i)} | x in u.node && 0 <= i < |u.node[x].attrs| ensures AttrWf(u, x, i) {
      if x == n {
        CopyAttrsFind(s, base, i);
      } else {
        assert AttrWf(t, x, i);
      }
    }
    ContentedLists(t.node, u.node, n);
    TreeIs(u);
  }

  method CopyContents(d: XmlDocument, n: Ref, src: Ref)
    requires d.Valid() && n in d.tree.node && src in d.tree.node && n != d.root
    modifies d, d.dom
    ensures d.Valid() && d.moved == old(d.moved) && d.tree == Contented(old(d.tree), n, src, old(d.unused))
  {
    ghost var t := d.tree;
    assert LinkedAt(d.dom.links, d.dom.nodes, n) && LinkedAt(d.dom.links, d.dom.nodes, src);
    var from, base := d.dom.links[src], d.unused;
    var attrs := CopyAttrs(from.attrs, base);
    ContentedLinked(d.dom.links, d.dom.nodes, n, from.info, attrs);
    ContentedWf(t, n, src, base);
    d.dom.links := d.dom.links[n := d.dom.links[n].(info := from.info, attrs := attrs)];
    d.unused := base + |attrs|;
    d.tree := Contented(t, n, src, base);
    d.dom.nodes := d.tree.node;
  }

  // The walk. t is the tree before it: the copy is attached there as a leaf with its contents.

  /** cp takes each source node that has been visited to its copy; the copy of sn is dn, and dn itself is not copied. */
  ghost predicate Copying(t: Tree, u: Tree, sn: Ref, dn: Ref, cp: map<Ref, Ref>) {
    && Wf(t) && Wf(u) && u.root == t.root && dn in t.node && t.node[dn].kids == [] && dn != t.root
    && sn in t.node && sn != dn && sn in cp && cp[sn] == dn && dn !in cp
    && (forall m {:trigger Kept(t, u, dn, m)} | m in t.node :: Kept(t, u, dn, m))
    && (forall v {:trigger cp[v]} | v in cp :: CopyAt(t, u, cp, v))
    && (forall v {:trigger cp[v]} | v in cp && v != sn :: cp[v] !in t.node)
    && (forall v {:trigger CopiedBelow(t, cp, sn, v)} | v in cp :: CopiedBelow(t, cp, sn, v))
    && (forall v, w {:trigger cp[v], cp[w]} | v in cp && w in cp && v != w :: cp[v] != cp[w])
  }

  /** A node of the tree before the walk is as it was; only the new node gains children. */
  ghost predicate Kept(t: Tree, u: Tree, dn: Ref, m: Ref)
    requires m in t.node
  {
    && m in u.node && SameContents(t, u, m) && SamePlace(t, u, m)
    && (m != dn ==> u.node[m].kids == t.node[m].kids)
  }

  ghost predicate SamePlace(t: Tree, u: Tree, m: Ref)
    requires m in t.node && m in u.node
  {
    m != t.root ==> u.node[m].parent == t.node[m].parent && u.node[m].index == t.node[m].index
  }

  ghost predicate CopyAt(t: Tree, u: Tree, cp: map<Ref, Ref>, v: Ref)
    requires v in cp
  {
    && v in t.node && cp[v] in u.node
    && u.node[cp[v]].info == t.node[v].info && AttrValues(u.node[cp[v]].attrs) == AttrValues(t.node[v].attrs)
    && u.node[cp[v]].kids == Copies(cp, t.node[v].kids)
  }

  /** Only nodes below sn are copied, parents before children. */
  ghost predicate CopiedBelow(t: Tree, cp: map<Ref, Ref>, sn: Ref, v: Ref)
    requires Wf(t)
  {
    v in t.node && Under(t, v, sn) && (v != sn ==> v != t.root && Parent(t, v) in cp)
  }

  /** The copies of those nodes of s that have been copied. */
  function Copies(cp: map<Ref, Ref>, s: seq<Ref>): seq<Ref> {
    if s == [] then []
    else if s[0] in cp then [cp[s[0]]] + Copies(cp, s[1..])
    else Copies(cp, s[1..])
  }

  lemma {:induction false} CopiesSame(cp: map<Ref, Ref>, s: seq<Ref>, c: Ref, n: Ref)
    requires c !in s
    ensures Copies(cp[c := n], s) == Copies(cp, s)
  {
    if s != [] {
      CopiesSame(cp, s[1..], c, n);
    }
  }

  /** The next child has been copied, later ones have not. */
  lemma {:induction false} CopiesNext(cp: map<Ref, Ref>, s: seq<Ref>, i: nat, n: Ref)
    requires Distinct(s) && i < |s| && forall j | i <= j < |s| :: s[j] !in cp
    ensures Copies(cp[s[i] := n], s) == Copies(cp, s) + [n]
  {
    if i > 0 {
      CopiesNext(cp, s[1..], i - 1, n);
    } else {
      CopiesSame(cp, s[1..], s[0], n);
      CopiesNone(cp, s);
      CopiesNone(cp, s[1..]);
    }
  }

  lemma {:induction false} CopiesNone(cp: map<Ref, Ref>, s: seq<Ref>)
    requires forall j | 0 <= j < |s| :: s[j] !in cp
    ensures Copies(cp, s) == []
  {
    if s != [] {
      CopiesNone(cp, s[1..]);
    }
  }

  /** One step: n is appended to the copy of c's parent, with c's contents. */
  ghost predicate Appended(u: Tree, w: Tree, n: Ref, p: Ref, c: Ref)
    requires c in u.node
  {
    && Wf(w) && w.root == u.root && n !in u.node && w.node.Keys == u.node.Keys + {n}
    && w.node[n].info == u.node[c].info && AttrValues(w.node[n].attrs) == AttrValues(u.node[c].attrs) && w.node[n].kids == []
    && forall m {:trigger AppendedAt(u, w, n, p, m)} | m in u.node :: AppendedAt(u, w, n, p, m)
  }

  ghost predicate AppendedAt(u: Tree, w: Tree, n: Ref, p: Ref, m: Ref)
    requires m in u.node
  {
    && m in w.node && SameContents(u, w, m) && SamePlace(u, w, m)
    && (m != p ==> w.node[m].kids == u.node[m].kids) && (m == p ==> w.node[m].kids == u.node[m].kids + [n])
  }

  /** The invariant survives a step, if the children of c's parent from c on have not been copied. */
  lemma CopyStep(t: Tree, u: Tree, w: Tree, sn: Ref, dn: Ref, cp: map<Ref, Ref>, c: Ref, n: Ref)
    requires Copying(t, u, sn, dn, cp) && c in t.node && c != dn && c !in cp && c != t.root && Parent(t, c) in cp
    requires forall j | t.node[c].index <= j < |t.node[Parent(t, c)].kids| :: t.node[Parent(t, c)].kids[j] !in cp
    requires Kept(t, u, dn, c) && Appended(u, w, n, cp[Parent(t, c)], c)
    ensures Copying(t, w, sn, dn, cp[c := n])
  {
    var cq, p := cp[c := n], Parent(t, c);
    TreeIs(t);
    KidsDistinct(t.node, p);
    CopiesNext(cp, t.node[p].kids, t.node[c].index, n);
    assert CopyAt(t, u, cp, p);
    forall m {:trigger Kept(t, w, dn, m)} | m in t.node ensures Kept(t, w, dn, m) {
      assert Kept(t, u, dn, m) && AppendedAt(u, w, n, cp[p], m);
      assert p == sn || cp[p] !in t.node;
    }
    assert n !in t.node by {
      assert n in t.node ==> Kept(t, u, dn, n);
    }
    forall v {:trigger cq[v]} | v in cq ensures CopyAt(t, w, cq, v) {
      CopyStepAt(t, u, w, sn, dn, cp, c, n, v);
    }
    forall v {:trigger CopiedBelow(t, cq, sn, v)} | v in cq ensures CopiedBelow(t, cq, sn, v) {
      assert CopiedBelow(t, cp, sn, if v == c then p else v);
    }
    forall v | v in cp ensures cp[v] != n {
      assert CopyAt(t, u, cp, v);
    }
  }

  lemma CopyStepAt(t: Tree, u: Tree, w: Tree, sn: Ref, dn: Ref, cp: map<Ref, Ref>, c: Ref, n: Ref, v: Ref)
    requires Copying(t, u, sn, dn, cp) && c in t.node && c != dn && c !in cp && c != t.root && Parent(t, c) in cp
    requires Kept(t, u, dn, c) && Appended(u, w, n, cp[Parent(t, c)], c)
    requires Copies(cp[c := n], t.node[Parent(t, c)].kids) == Copies(cp, t.node[Parent(t, c)].kids) + [n]
    requires v in cp[c := n]
    ensures CopyAt(t, w, cp[c := n], v)
  {
    var p := Parent(t, c);
    if v == c {
      assert CopiedBelow(t, cp, sn, p);
      UnderRank(t, c, sn);
      forall j | 0 <= j < |t.node[c].kids| ensures t.node[c].kids[j] !in cp && t.node[c].kids[j] != c {
        var k := t.node[c].kids[j];
        assert ChildWf(t, c, j);
        assert k in cp ==> CopiedBelow(t, cp, sn, k);
      }
      CopiesNone(cp[c := n], t.node[c].kids);
      assert AppendedAt(u, w, n, cp[p], c);
    } else {
      assert CopyAt(t, u, cp, v) && AppendedAt(u, w, n, cp[p], cp[v]);
      if v != p {
        assert cp[v] != cp[p];
        assert c !in t.node[v].kids by {
          TreeIs(t);
          KidsDistinct(t.node, v);
        }
        CopiesSame(cp, t.node[v].kids, c, n);
      }
    }
  }

  /** Adding a last child does not move anybody. */
  lemma PlacesKept(t: Tree, u: Tree, n: Ref, info: Info, p: Ref, m: Ref)
    requires Wf(t) && Wf(u) && Grows(t, u, n, info, p, AtEnd) && m in t.node
    ensures SamePlace(t, u, m)
    ensures m != p ==> u.node[m].kids == t.node[m].kids
    ensures m == p ==> u.node[m].kids == t.node[m].kids + [n]
  {
    var k := t.node[m].kids;
    assert u.node[m].kids == GrownList(k, m == p, n, AtEnd);
    assert InsertAt(k, |k|, n) == k + [n];
    if m != t.root {
      var q, i := Parent(t, m), t.node[m].index;
      assert u.node[q].kids == GrownList(t.node[q].kids, q == p, n, AtEnd);
      assert u.node[q].kids[i] == m;
      assert ChildWf(u, q, i);
    }
  }

  /** A copy of one node, without its children, becomes the last child of p. */
  method AppendCopy(d: XmlDocument, p: Ref, c: Ref) returns (n: Ref)
    requires d.Valid() && p in d.tree.node && c in d.tree.node
    modifies d, d.dom
    ensures d.Valid() && d.moved == old(d.moved) && Appended(old(d.tree), d.tree, n, p, c)
  {
    ghost var t := d.tree;
    assert LinkedAt(d.dom.links, d.dom.nodes, c);
    n := d.unused;
    d.unused := d.unused + 1;
    var info := Info(d.dom.links[c].info.ty, "", "");
    d.tree := LinkNew(d.dom, n, info, p, AtEnd, d.tree);
    ghost var u := d.tree;
    forall m {:trigger SamePlace(t, u, m)} | m in t.node
      ensures SamePlace(t, u, m) && (m != p ==> u.node[m].kids == t.node[m].kids) && (m == p ==> u.node[m].kids == t.node[m].kids + [n])
    {
      PlacesKept(t, u, n, info, p, m);
    }
    assert SameContents(t, u, c) by {
      assert u.node[c].kids == GrownList(t.node[c].kids, c == p, n, AtEnd);
    }
    CopyContents(d, n, c);
    AppendedDone(t, u, d.tree, n, info, p, c, old(d.unused) + 1);
  }

  lemma AppendedDone(t: Tree, u: Tree, w: Tree, n: Ref, info: Info, p: Ref, c: Ref, base: Ref)
    requires Wf(t) && Wf(w) && Grows(t, u, n, info, p, AtEnd) && c in t.node && n in u.node && c in u.node && w == Contented(u, n, c, base)
    requires forall m {:trigger SamePlace(t, u, m)} | m in t.node ::
      SamePlace(t, u, m) && (m != p ==> u.node[m].kids == t.node[m].kids) && (m == p ==> u.node[m].kids == t.node[m].kids + [n])
    ensures Appended(t, w, n, p, c)
  {
    assert u.node[c].kids == GrownList(t.node[c].kids, c == p, n, AtEnd);
    forall m {:trigger AppendedAt(t, w, n, p, m)} | m in t.node ensures AppendedAt(t, w, n, p, m) {
      assert u.node[m].kids == GrownList(t.node[m].kids, m == p, n, AtEnd);
      assert SamePlace(t, u, m);
    }
  }

  /** The walk's position: sit is the next source node, dit the copy of its parent. */
  ghost predicate Facing(t: Tree, sn: Ref, cp: map<Ref, Ref>, sit: Ref, dit: Ref)
    requires Wf(t)
  {
    sit in t.node && sit != sn && sn in t.node && Under(t, sit, sn) && sit != t.root && Parent(t, sit) in cp && dit == cp[Parent(t, sit)]
  }

  /** What the links say in the tree before the walk, for source nodes other than the copy. */
  lemma SourceLinks(links: map<Ref, Links>, t: Tree, u: Tree, sn: Ref, dn: Ref, cp: map<Ref, Ref>, x: Ref)
    requires Copying(t, u, sn, dn, cp) && Linked(links, u.node) && x in t.node
    ensures x in links && (x != dn ==> links[x].first == FirstChild(t, x))
    ensures x != t.root ==> links[x].next == NextSibling(t, x) && links[x].parent == Parent(t, x)
  {
    assert Kept(t, u, dn, x);
    assert LinkedAt(links, u.node, x) && PlaceOk(u.node, x);
    if x != t.root {
      var p := Parent(t, x);
      assert Kept(t, u, dn, p);
      assert t.node[p].kids != [];
    }
  }

  /** The parent of a copy is the copy of the parent. */
  lemma CopyParent(links: map<Ref, Links>, t: Tree, u: Tree, sn: Ref, dn: Ref, cp: map<Ref, Ref>, x: Ref)
    requires Copying(t, u, sn, dn, cp) && Linked(links, u.node) && x in cp && x != sn
    ensures cp[x] in links && x != t.root && Parent(t, x) in cp && links[cp[x]].parent == cp[Parent(t, x)]
  {
    assert CopiedBelow(t, cp, sn, x);
    var p := Parent(t, x);
    assert CopyAt(t, u, cp, p) && CopyAt(t, u, cp, x);
    CopiesHas(cp, t.node[p].kids, x);
    var i := IndexOf(u.node[cp[p]].kids, cp[x]);
    assert ChildWf(u, cp[p], i);
    assert LinkedAt(links, u.node, cp[x]);
  }

  lemma {:induction false} CopiesHas(cp: map<Ref, Ref>, s: seq<Ref>, x: Ref)
    requires x in s && x in cp
    ensures cp[x] in Copies(cp, s)
  {
    if s[0] != x {
      CopiesHas(cp, s[1..], x);
    }
  }

  /** On to the next source node: a later sibling, or one of an ancestor; the target climbs along. */
  method NextSource(d: XmlDocument, sit0: Ref, dit0: Ref, sn: Ref, ghost t: Tree, ghost dn: Ref, ghost cp: map<Ref, Ref>) returns (sit: Ref, dit: Ref)
    requires d.Valid() && Copying(t, d.tree, sn, dn, cp) && Facing(t, sn, cp, sit0, dit0)
    ensures sit == sn ==> Rest(t, sit0, sn) == []
    ensures sit != sn ==> Facing(t, sn, cp, sit, dit) && Rest(t, sit0, sn) == Pre(t, sit) + Rest(t, sit, sn)
  {
    sit, dit := sit0, dit0;
    while true
      invariant Facing(t, sn, cp, sit, dit) && Rest(t, sit0, sn) == Rest(t, sit, sn)
      decreases t.node[t.root].rank - t.node[sit].rank
    {
      SourceLinks(d.dom.links, t, d.tree, sn, dn, cp, sit);
      RestStep(t, sit, sn);
      if d.dom.links[sit].next != 0 {
        sit := d.dom.links[sit].next;
        return;
      }
      ghost var p := Parent(t, sit);
      sit := d.dom.links[sit].parent;
      if p != sn {
        CopyParent(d.dom.links, t, d.tree, sn, dn, cp, p);
      }
      assert CopyAt(t, d.tree, cp, p) && LinkedAt(d.dom.links, d.dom.nodes, dit);
      dit := d.dom.links[dit].parent;
      if sit == sn {
        return;
      }
    }
  }

  /** The nodes of the walk before x have been copied, apart from dn. */
  ghost predicate Visited(cp: map<Ref, Ref>, seen: seq<Ref>, dn: Ref) {
    forall x :: x in cp <==> x in seen && x != dn
  }

  /** Children of a parent from x on come later in the walk. */
  lemma LaterUnseen(t: Tree, sn: Ref, seen: seq<Ref>, x: Ref)
    requires Wf(t) && sn in t.node && x in t.node && x != sn && Under(t, x, sn) && x != t.root
    requires Pre(t, sn) == seen + (Pre(t, x) + Rest(t, x, sn))
    ensures forall j | t.node[x].index <= j < |t.node[Parent(t, x)].kids| :: t.node[Parent(t, x)].kids[j] !in seen
  {
    PreDistinct(t, sn);
    var p := Parent(t, x);
    forall j | t.node[x].index <= j < |t.node[p].kids| ensures t.node[p].kids[j] !in seen {
      LaterListed(t, sn, x, j);
      NotBefore(seen, Pre(t, x) + Rest(t, x, sn), t.node[p].kids[j]);
    }
  }

  lemma LaterListed(t: Tree, sn: Ref, x: Ref, j: nat)
    requires Wf(t) && sn in t.node && x in t.node && x != sn && Under(t, x, sn) && x != t.root
    requires t.node[x].index <= j < |t.node[Parent(t, x)].kids|
    ensures t.node[Parent(t, x)].kids[j] in Pre(t, x) + Rest(t, x, sn)
  {
    var p := Parent(t, x);
    var y := t.node[p].kids[j];
    if j == t.node[x].index {
      assert y == x && Pre(t, x)[0] == x;
    } else {
      assert y in Forest(t, p, t.node[x].index + 1) by {
        assert ChildWf(t, p, j) && Under(t, y, y);
        ForestMembers(t, p, t.node[x].index + 1, y);
      }
      assert Rest(t, x, sn) == Forest(t, p, t.node[x].index + 1) + Rest(t, p, sn);
    }
  }

  lemma NotBefore(a: seq<Ref>, b: seq<Ref>, y: Ref)
    requires Distinct(a + b) && y in b
    ensures y !in a
  {
    var j := IndexOf(b, y);
    assert (a + b)[|a| + j] == y;
    assert forall i | 0 <= i < |a| :: (a + b)[i] == a[i];
  }

  /** The body of the walk at a source node that is not the copy itself. */
  method CopySource(d: XmlDocument, sit: Ref, dit: Ref, sn: Ref, ghost t: Tree, ghost dn: Ref, ghost cp: map<Ref, Ref>, ghost seen: seq<Ref>) returns (copy: Ref)
    requires d.Valid() && Copying(t, d.tree, sn, dn, cp) && Visited(cp, seen, dn) && Facing(t, sn, cp, sit, dit) && sit != dn
    requires Pre(t, sn) == seen + (Pre(t, sit) + Rest(t, sit, sn))
    modifies d, d.dom
    ensures d.Valid() && d.moved == old(d.moved) && sit !in cp && d.tree.node.Keys == old(d.tree.node.Keys) + {copy}
    ensures Copying(t, d.tree, sn, dn, cp[sit := copy]) && Visited(cp[sit := copy], seen + [sit], dn)
  {
    LaterUnseen(t, sn, seen, sit);
    ghost var u := d.tree;
    assert CopyAt(t, u, cp, Parent(t, sit)) && Kept(t, u, dn, sit) && t.node[Parent(t, sit)].kids[t.node[sit].index] == sit;
    copy := AppendCopy(d, dit, sit);
    CopyStep(t, u, d.tree, sn, dn, cp, sit, copy);
  }

  /** The state of the walk: seen is what has been visited, sit comes next; at the end everything has been. */
  ghost predicate Walking(t: Tree, u: Tree, sn: Ref, dn: Ref, cp: map<Ref, Ref>, sit: Ref, dit: Ref, seen: seq<Ref>) {
    && Copying(t, u, sn, dn, cp) && Visited(cp, seen, dn)
    && (sit != 0 && sit != sn ==> Facing(t, sn, cp, sit, dit) && Pre(t, sn) == seen + (Pre(t, sit) + Rest(t, sit, sn)))
    && (sit == 0 || sit == sn ==> Pre(t, sn) == seen)
  }

  /** All copies. */
  function Made(cp: map<Ref, Ref>): set<Ref> {
    set v | v in cp :: cp[v]
  }

  lemma MadeMore(cp: map<Ref, Ref>, v: Ref, c: Ref)
    requires v !in cp
    ensures Made(cp[v := c]) == Made(cp) + {c}
  {
    var w := cp[v := c];
    forall x | x in Made(cp) + {c} ensures x in Made(w) {
      if x == c {
        assert w[v] == c;
      } else {
        var y :| y in cp && cp[y] == x;
        assert w[y] == x;
      }
    }
  }

  /** From a copied node with children the walk goes down to the first of them. */
  lemma WalkDown(links: map<Ref, Links>, t: Tree, u: Tree, sn: Ref, dn: Ref, cp: map<Ref, Ref>, x: Ref, seen: seq<Ref>)
    requires Copying(t, u, sn, dn, cp) && Visited(cp, seen + [x], dn) && Linked(links, u.node)
    requires x in cp && x != dn && Under(t, x, sn) && Pre(t, sn) == seen + (Pre(t, x) + Rest(t, x, sn))
    ensures x in links && links[x].first == FirstChild(t, x)
    ensures links[x].first != 0 ==> Walking(t, u, sn, dn, cp, links[x].first, cp[x], seen + [x])
  {
    assert CopyAt(t, u, cp, x);
    SourceLinks(links, t, u, sn, dn, cp, x);
    if t.node[x].kids != [] {
      Descends(t, x, sn, seen + [x]);
      AppendRegroup(seen, [x], Forest(t, x, 0), Rest(t, x, sn));
    }
  }

  /** Visit one source node and go on to the next. */
  method VisitSource(d: XmlDocument, sit0: Ref, dit0: Ref, sn: Ref, dn: Ref, ghost t: Tree, cp0: map<Ref, Ref>, ghost seen: seq<Ref>)
    returns (sit: Ref, dit: Ref, cp: map<Ref, Ref>)
    requires d.Valid() && Walking(t, d.tree, sn, dn, cp0, sit0, dit0, seen) && sit0 != 0 && sit0 != sn
    requires d.tree.node.Keys == t.node.Keys + Made(cp0)
    modifies d, d.dom
    ensures d.Valid() && d.moved == old(d.moved) && Walking(t, d.tree, sn, dn, cp, sit, dit, seen + [sit0])
    ensures d.tree.node.Keys == t.node.Keys + Made(cp)
  {
    cp := cp0;
    if sit0 != dn {
      var copy := CopySource(d, sit0, dit0, sn, t, dn, cp, seen);
      assert d.tree.node.Keys == t.node.Keys + Made(cp[sit0 := copy]) by {
        MadeMore(cp, sit0, copy);
      }
      cp := cp[sit0 := copy];
      WalkDown(d.dom.links, t, d.tree, sn, dn, cp, sit0, seen);
      if d.dom.links[sit0].first != 0 {
        dit := copy;
        sit := d.dom.links[sit0].first;
        return;
      }
    }
    assert Forest(t, sit0, 0) == [];
    AppendRegroup(seen, [sit0], [], Rest(t, sit0, sn));
    assert [] + Rest(t, sit0, sn) == Rest(t, sit0, sn);
    sit, dit := NextSource(d, sit0, dit0, sn, t, dn, cp);
  }

  /** Fill the new leaf dn with a copy of sn, which may be above dn; seen are the source nodes in the order of the walk, cp has their copies. */
  method NodeCopyTree(d: XmlDocument, dn: Ref, sn: Ref) returns (ghost t: Tree, cp: map<Ref, Ref>, seen: seq<Ref>)
    requires d.Valid() && dn in d.tree.node && sn in d.tree.node && dn != sn && dn != d.root && d.tree.node[dn].kids == []
    modifies d, d.dom
    ensures d.Valid() && d.moved == old(d.moved)
    ensures t == Contented(old(d.tree), dn, sn, old(d.unused)) && Copying(t, d.tree, sn, dn, cp)
    ensures forall x :: x in cp <==> x in t.node && Under(t, x, sn) && x != dn
    ensures Visited(cp, seen, dn) && Distinct(seen) && d.tree.node.Keys == t.node.Keys + Made(cp)
  {
    CopyContents(d, dn, sn);
    t := d.tree;
    cp := map[sn := dn];
    StartCopy(old(d.tree), t, sn, dn, old(d.unused));
    SourceLinks(d.dom.links, t, t, sn, dn, cp, sn);
    assert Made(cp) == {dn};
    StartWalk(t, sn, dn, cp, d.dom.links[sn].first);
    cp, seen := CopyBelow(d, dn, sn, t, cp, d.dom.links[sn].first);
    PreDistinct(t, sn);
    forall x ensures x in cp <==> x in t.node && Under(t, x, sn) && x != dn {
      PreMembers(t, sn, x);
    }
  }

  /** The walk, from the first child of the source on. */
  method CopyBelow(d: XmlDocument, dn: Ref, sn: Ref, ghost t: Tree, cp0: map<Ref, Ref>, first: Ref) returns (cp: map<Ref, Ref>, seen: seq<Ref>)
    requires d.Valid() && Walking(t, d.tree, sn, dn, cp0, first, dn, [sn]) && d.tree.node.Keys == t.node.Keys + Made(cp0)
    modifies d, d.dom
    ensures d.Valid() && d.moved == old(d.moved) && Copying(t, d.tree, sn, dn, cp) && Visited(cp, seen, dn) && Pre(t, sn) == seen
    ensures d.tree.node.Keys == t.node.Keys + Made(cp)
  {
    var sit, dit := first, dn;
    cp, seen := cp0, [sn];
    while sit != 0 && sit != sn
      invariant d.Valid() && d.moved == old(d.moved) && Walking(t, d.tree, sn, dn, cp, sit, dit, seen)
      invariant d.tree.node.Keys == t.node.Keys + Made(cp)
      decreases |Pre(t, sn)| - |seen|
    {
      var visited := sit;
      sit, dit, cp := VisitSource(d, sit, dit, sn, dn, t, cp, seen);
      seen := seen + [visited];
      assert |seen| <= |Pre(t, sn)|;
    }
  }

  lemma StartWalk(t: Tree, sn: Ref, dn: Ref, cp: map<Ref, Ref>, sit: Ref)
    requires Copying(t, t, sn, dn, cp) && cp == map[sn := dn] && sit == FirstChild(t, sn)
    ensures Walking(t, t, sn, dn, cp, sit, dn, [sn])
  {
    if t.node[sn].kids != [] {
      Descends(t, sn, sn, [sn]);
      assert ChildWf(t, sn, 0);
      assert Pre(t, sn) == [sn] + (Forest(t, sn, 0) + Rest(t, sn, sn));
    } else {
      assert Forest(t, sn, 0) == [];
    }
  }

  lemma Descends(t: Tree, x: Ref, sn: Ref, seen: seq<Ref>)
    requires Wf(t) && x in t.node && sn in t.node && Under(t, x, sn) && t.node[x].kids != []
    ensures var c := t.node[x].kids[0];
      && c in t.node && c != sn && c != t.root && Under(t, c, sn) && Parent(t, c) == x
      && seen + (Forest(t, x, 0) + Rest(t, x, sn)) == seen + (Pre(t, c) + Rest(t, c, sn))
  {
    var c := t.node[x].kids[0];
    assert ChildWf(t, x, 0);
    UnderRank(t, x, sn);
    AppendAssociative(Pre(t, c), Forest(t, x, 1), Rest(t, x, sn));
  }

  lemma StartCopy(t0: Tree, t: Tree, sn: Ref, dn: Ref, base: Ref)
    requires Wf(t0) && Wf(t) && dn in t0.node && sn in t0.node && dn != sn && dn != t0.root && t0.node[dn].kids == []
    requires t == Contented(t0, dn, sn, base)
    ensures Copying(t, t, sn, dn, map[sn := dn])
  {
    var cp := map[sn := dn];
    forall j | 0 <= j < |t.node[sn].kids| ensures t.node[sn].kids[j] !in cp {
      assert ChildWf(t, sn, j);
    }
    CopiesNone(cp, t.node[sn].kids);
    assert CopiedBelow(t, cp, sn, sn);
    assert CopyAt(t, t, cp, sn);
  }

  // The finished copy.

  lemma {:induction false} CopiesAll(cp: map<Ref, Ref>, s: seq<Ref>)
    requires forall x | x in s :: x in cp
    ensures |Copies(cp, s)| == |s| && forall i | 0 <= i < |s| :: Copies(cp, s)[i] == cp[s[i]]
  {
    if s != [] {
      CopiesAll(cp, s[1..]);
    }
  }

  lemma {:induction false} CopiesInsert(cp: map<Ref, Ref>, s: seq<Ref>, i: nat, n: Ref)
    requires n !in cp && i <= |s|
    ensures Copies(cp, InsertAt(s, i, n)) == Copies(cp, s)
  {
    var r := InsertAt(s, i, n);
    if i == 0 {
      assert r[1..] == s;
    } else {
      assert r[0] == s[0] && r[1..] == InsertAt(s[1..], i - 1, n);
      CopiesInsert(cp, s[1..], i - 1, n);
    }
  }

  /** cp takes the nodes of t below sn to nodes of u with the same contents and the corresponding children. */
  ghost predicate Mirrors(t: Tree, u: Tree, sn: Ref, cp: map<Ref, Ref>)
    requires Wf(t)
  {
    forall v {:trigger MirrorAt(t, u, cp, v)} | v in t.node && Under(t, v, sn) :: MirrorAt(t, u, cp, v)
  }

  ghost predicate MirrorAt(t: Tree, u: Tree, cp: map<Ref, Ref>, v: Ref) {
    v in cp && CopyAt(t, u, cp, v)
  }

  /** A mirrored subtree has the same value. */
  lemma {:induction false} MirrorValue(t: Tree, u: Tree, sn: Ref, cp: map<Ref, Ref>, v: Ref)
    requires Wf(t) && Wf(u) && Mirrors(t, u, sn, cp) && v in t.node && Under(t, v, sn)
    ensures v in cp && cp[v] in u.node && ValueOf(u, cp[v]) == ValueOf(t, v)
    decreases t.node[v].rank, |t.node[v].kids| + 1
  {
    assert MirrorAt(t, u, cp, v);
    MirrorKids(t, u, sn, cp, v, 0);
  }

  lemma {:induction false} MirrorKids(t: Tree, u: Tree, sn: Ref, cp: map<Ref, Ref>, v: Ref, i: nat)
    requires Wf(t) && Wf(u) && Mirrors(t, u, sn, cp) && v in t.node && Under(t, v, sn) && i <= |t.node[v].kids|
    ensures v in cp && CopyAt(t, u, cp, v) && |u.node[cp[v]].kids| == |t.node[v].kids|
    ensures KidValues(u, cp[v], i) == KidValues(t, v, i)
    decreases t.node[v].rank, |t.node[v].kids| - i
  {
    var k := t.node[v].kids;
    assert MirrorAt(t, u, cp, v);
    forall x | x in k ensures x in cp {
      assert ChildWf(t, v, IndexOf(k, x));
      assert MirrorAt(t, u, cp, x);
    }
    CopiesAll(cp, k);
    if i < |k| {
      assert ChildWf(t, v, i);
      MirrorValue(t, u, sn, cp, k[i]);
      MirrorKids(t, u, sn, cp, v, i + 1);
    }
  }

  /** What was below sn before dn was attached still is. */
  lemma {:induction false} StillUnder(t0: Tree, t1: Tree, dn: Ref, info: Info, p: Ref, place: Place, v: Ref, sn: Ref)
    requires Wf(t0) && Wf(t1) && Grows(t0, t1, dn, info, p, place) && v in t0.node && sn in t0.node && Under(t0, v, sn)
    ensures v in t1.node && Under(t1, v, sn)
    decreases t0.node[t0.root].rank - t0.node[v].rank
  {
    if v != sn {
      var q := Parent(t0, v);
      StillUnder(t0, t1, dn, info, p, place, q, sn);
      assert t1.node[q].kids == GrownList(t0.node[q].kids, q == p, dn, place);
      StillIn(t0.node[q].kids, q == p, dn, place, v);
      var i := IndexOf(t1.node[q].kids, v);
      assert ChildWf(t1, q, i);
    }
  }

  lemma StillIn(s: seq<Ref>, here: bool, n: Ref, place: Place, x: Ref)
    requires x in s
    ensures x in GrownList(s, here, n, place)
  {
    var i := PlaceIn(s, place);
    assert s == s[..i] + s[i..];
  }

  lemma ContentedUnder(t: Tree, n: Ref, src: Ref, base: Ref, v: Ref, top: Ref)
    requires Wf(t) && n in t.node && src in t.node && Wf(Contented(t, n, src, base)) && v in t.node && Under(t, v, top)
    ensures Under(Contented(t, n, src, base), v, top)
    decreases t.node[t.root].rank - t.node[v].rank
  {
    if v != top {
      ContentedUnder(t, n, src, base, Parent(t, v), top);
    }
  }

  /** From the walk's view to the view before the copy was attached. */
  lemma MirrorsBefore(t0: Tree, t1: Tree, t: Tree, u: Tree, sn: Ref, dn: Ref, p: Ref, place: Place, info: Info, base: Ref, cp: map<Ref, Ref>)
    requires Wf(t0) && Wf(t1) && Grows(t0, t1, dn, info, p, place) && sn in t0.node && sn in t1.node && dn in t1.node
    requires t == Contented(t1, dn, sn, base) && Copying(t, u, sn, dn, cp)
    requires forall x :: x in cp <==> x in t.node && Under(t, x, sn) && x != dn
    ensures Mirrors(t0, u, sn, cp)
  {
    forall v {:trigger MirrorAt(t0, u, cp, v)} | v in t0.node && Under(t0, v, sn) ensures MirrorAt(t0, u, cp, v) {
      StillUnder(t0, t1, dn, info, p, place, v, sn);
      ContentedUnder(t1, dn, sn, base, v, sn);
      MirrorsAtBefore(t0, t1, t, u, sn, dn, p, place, info, base, cp, v);
    }
  }

  lemma MirrorsAtBefore(t0: Tree, t1: Tree, t: Tree, u: Tree, sn: Ref, dn: Ref, p: Ref, place: Place, info: Info, base: Ref, cp: map<Ref, Ref>, v: Ref)
    requires Grows(t0, t1, dn, info, p, place) && sn in t1.node && dn in t1.node && t == Contented(t1, dn, sn, base)
    requires v in t0.node && v in cp && CopyAt(t, u, cp, v) && dn !in cp
    ensures MirrorAt(t0, u, cp, v)
  {
    var k := t0.node[v].kids;
    assert t1.node[v].kids == GrownList(k, v == p, dn, place);
    if v == p {
      CopiesInsert(cp, k, PlaceIn(k, place), dn);
    }
  }

  /** What happens to a node that was there before: it is as before, only p has the new child. */
  ghost predicate OthersKept(t0: Tree, u: Tree, p: Ref, place: Place, n: Ref) {
    forall m {:trigger OtherKept(t0, u, p, place, n, m)} | m in t0.node :: OtherKept(t0, u, p, place, n, m)
  }

  ghost predicate OtherKept(t0: Tree, u: Tree, p: Ref, place: Place, n: Ref, m: Ref)
    requires m in t0.node
  {
    m in u.node && SameContents(t0, u, m) && u.node[m].kids == GrownList(t0.node[m].kids, m == p, n, place)
  }

  lemma OthersKeptAll(t0: Tree, t1: Tree, t: Tree, u: Tree, sn: Ref, dn: Ref, p: Ref, place: Place, info: Info, base: Ref, cp: map<Ref, Ref>)
    requires Grows(t0, t1, dn, info, p, place) && sn in t1.node && dn in t1.node
    requires t == Contented(t1, dn, sn, base) && Copying(t, u, sn, dn, cp)
    ensures OthersKept(t0, u, p, place, dn)
  {
    forall m {:trigger OtherKept(t0, u, p, place, dn, m)} | m in t0.node ensures OtherKept(t0, u, p, place, dn, m) {
      assert Kept(t, u, dn, m);
      assert t1.node[m].kids == GrownList(t0.node[m].kids, m == p, dn, place);
    }
  }

  /** Link in the node that is to be the copy. */
  method AttachLeaf(d: XmlDocument, p: Ref, ty: NodeType, place: Place) returns (n: Ref)
    requires d.Valid() && p in d.tree.node && d.PlaceAllowed(p, place)
    modifies d, d.dom
    ensures d.Valid() && d.moved == old(d.moved) && Grows(old(d.tree), d.tree, n, Info(ty, "", ""), p, place)
  {
    ghost var t0 := d.tree;
    n := d.unused;
    d.unused := d.unused + 1;
    PlaceInList(t0, p, place);
    d.tree := LinkNew(d.dom, n, Info(ty, "", ""), p, place, t0);
    GrowsKeys(t0, d.tree, n, Info(ty, "", ""), p, place, d.root);
  }

  /**
   * Append, prepend or insert a copy of proto below p; p may be below proto.
   * The new subtree has the value proto had before, and nothing else changes.
   */
  method CopyChild(d: XmlDocument, p: Ref, proto: Ref, place: Place) returns (n: Ref, cp: map<Ref, Ref>, seen: seq<Ref>)
    requires d.Valid() && p in d.tree.node && proto in d.tree.node && d.PlaceKnown(place)
    modifies d, d.dom
    ensures d.Valid() && d.moved == old(d.moved)
    ensures (n != 0) == (AllowInsertChild(old(d.tree).node[p].info.ty, old(d.tree).node[proto].info.ty) && old(d.PlaceAllowed(p, place)))
    ensures n == 0 ==> d.tree == old(d.tree)
    ensures n != 0 ==> n !in old(d.tree).node && n in d.tree.node && ValueOf(d.tree, n) == old(ValueOf(d.tree, proto))
    ensures n != 0 ==> OthersKept(old(d.tree), d.tree, p, place, n)
    ensures n != 0 ==> CopiesOf(old(d.tree), d.tree, cp) && Visited(cp, seen, n) && Distinct(seen)
    ensures n != 0 ==> proto in cp && cp[proto] == n && Mirrors(old(d.tree), d.tree, proto, cp)
  {
    assert LinkedAt(d.dom.links, d.dom.nodes, p) && LinkedAt(d.dom.links, d.dom.nodes, proto);
    var placed := d.CheckPlace(p, place);
    var ty := d.dom.links[proto].info.ty;
    if !AllowInsertChild(d.dom.links[p].info.ty, ty) || !placed {
      return 0, map[], [];
    }
    ghost var t0 := d.tree;
    n := AttachLeaf(d, p, ty, place);
    ghost var t1, info := d.tree, Info(ty, "", "");
    ghost var base := d.unused;
    ghost var t;
    t, cp, seen := NodeCopyTree(d, n, proto);
    CopyDone(t0, t1, t, d.tree, proto, n, p, place, info, base, cp);
  }

  lemma CopyDone(t0: Tree, t1: Tree, t: Tree, u: Tree, sn: Ref, dn: Ref, p: Ref, place: Place, info: Info, base: Ref, cp: map<Ref, Ref>)
    requires Wf(t0) && Wf(t1) && Grows(t0, t1, dn, info, p, place) && sn in t0.node && sn in t1.node && dn in t1.node
    requires t == Contented(t1, dn, sn, base) && Copying(t, u, sn, dn, cp) && u.node.Keys == t.node.Keys + Made(cp)
    requires forall x :: x in cp <==> x in t.node && Under(t, x, sn) && x != dn
    ensures dn in u.node && ValueOf(u, dn) == ValueOf(t0, sn)
    ensures OthersKept(t0, u, p, place, dn) && CopiesOf(t0, u, cp)
    ensures sn in cp && cp[sn] == dn && Mirrors(t0, u, sn, cp)
  {
    MirrorsBefore(t0, t1, t, u, sn, dn, p, place, info, base, cp);
    MirrorValue(t0, u, sn, cp, sn);
    OthersKeptAll(t0, t1, t, u, sn, dn, p, place, info, base, cp);
    CopiesOfSource(t0, t1, t, u, sn, dn, p, place, info, base, cp);
  }

  /** The new nodes are the copies; each has as many attributes as its source, and each source has one copy. */
  ghost predicate CopiesOf(t: Tree, u: Tree, cp: map<Ref, Ref>) {
    && u.node.Keys == t.node.Keys + Made(cp)
    && (forall v {:trigger cp[v]} | v in cp :: CopyOf(t, u, v, cp[v]))
    && (forall v, w {:trigger cp[v], cp[w]} | v in cp && w in cp && v != w :: cp[v] != cp[w])
  }

  ghost predicate CopyOf(t: Tree, u: Tree, v: Ref, c: Ref) {
    && v in t.node && v in u.node && c in u.node && c !in t.node
    && |u.node[c].attrs| == |t.node[v].attrs| && u.node[v].attrs == t.node[v].attrs
  }

  lemma CopiesOfSource(t0: Tree, t1: Tree, t: Tree, u: Tree, sn: Ref, dn: Ref, p: Ref, place: Place, info: Info, base: Ref, cp: map<Ref, Ref>)
    requires Grows(t0, t1, dn, info, p, place) && sn in t1.node && dn in t1.node
    requires t == Contented(t1, dn, sn, base) && Copying(t, u, sn, dn, cp) && u.node.Keys == t.node.Keys + Made(cp)
    ensures CopiesOf(t0, u, cp)
  {
    forall v {:trigger cp[v]} | v in cp ensures CopyOf(t0, u, v, cp[v]) {
      assert CopyAt(t, u, cp, v) && CopiedBelow(t, cp, sn, v) && Kept(t, u, dn, v);
      assert |AttrValues(u.node[cp[v]].attrs)| == |AttrValues(t.node[v].attrs)|;
      assert t1.node[v].kids == GrownList(t0.node[v].kids, v == p, dn, place);
    }
    assert dn in Made(cp) by {
      assert cp[sn] == dn;
    }
  }

  lemma GrowsKeys(t0: Tree, t1: Tree, n: Ref, info: Info, p: Ref, place: Place, m: Ref)
    requires Grows(t0, t1, n, info, p, place) && m in t0.node
    ensures SameContents(t0, t1, m)
  {
    assert t1.node[m].kids == GrownList(t0.node[m].kids, m == p, n, place);
  }
}
