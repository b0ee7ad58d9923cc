/** Two trees that agree on the child lists of their common nodes order these nodes in the same way. */
module OrderKept {
  import opened Sequences
  import opened XmlTree
  import opened Axes
  import opened Steps
  import opened DocumentOrder
  import opened DomLinks
  import opened TreeEdits
  import opened CopyTree

  /** The elements of s that are in d, in their order. */
  function Only(s: seq<Ref>, d: set<Ref>): seq<Ref> {
    if s == [] then [] else if s[0] in d then [s[0]] + Only(s[1..], d) else Only(s[1..], d)
  }

  lemma {:induction false} OnlyAppend(a: seq<Ref>, b: seq<Ref>, d: set<Ref>)
    ensures Only(a + b, d) == Only(a, d) + Only(b, d)
  {
    if a == [] {
      assert a + b == b;
    } else {
      assert (a + b)[1..] == a[1..] + b;
      OnlyAppend(a[1..], b, d);
    }
  }

  lemma {:induction false} OnlyMembers(s: seq<Ref>, d: set<Ref>, x: Ref)
    ensures x in Only(s, d) <==> x in s && x in d
  {
    if s != [] {
      OnlyMembers(s[1..], d, x);
      assert s == [s[0]] + s[1..];
    }
  }

  lemma {:induction false} OnlyNone(s: seq<Ref>, d: set<Ref>)
    requires forall x | x in s :: x !in d
    ensures Only(s, d) == []
  {
    if s != [] {
      OnlyNone(s[1..], d);
    }
  }

  lemma {:induction false} OnlyAscends(key: map<Ref, int>, s: seq<Ref>, d: set<Ref>)
    requires Ascends(key, s)
    ensures Ascends(key, Only(s, d))
  {
    if s != [] {
      AscendsTail(key, s);
      OnlyAscends(key, s[1..], d);
      if s[0] in d && Only(s[1..], d) != [] {
        OnlyMembers(s[1..], d, Only(s[1..], d)[0]);
      }
    }
  }

  function CommonNodes(t: Tree, u: Tree): set<Ref> {
    t.node.Keys * u.node.Keys
  }

  ghost predicate AgreeAt(t: Tree, u: Tree, m: Ref)
    requires Wf(t) && Wf(u) && m in t.node && m in u.node
  {
    && Only(t.node[m].kids, CommonNodes(t, u)) == Only(u.node[m].kids, CommonNodes(t, u))
    && (m != t.root ==> m != u.root && Parent(t, m) == Parent(u, m))
  }

  /** Common nodes have the same parents and the same common children in the same order. */
  ghost predicate Agree(t: Tree, u: Tree) {
    && Wf(t) && Wf(u) && t.root == u.root
    && forall m {:trigger AgreeAt(t, u, m)} | m in t.node && m in u.node :: AgreeAt(t, u, m)
  }

  /** Below a node that is not common nothing is. */
  lemma {:induction false} UncommonBelow(t: Tree, u: Tree, c: Ref, m: Ref)
    requires Agree(t, u) && c in t.node && c !in u.node && m in t.node && Under(t, m, c)
    ensures m !in u.node
    decreases t.node[t.root].rank - t.node[m].rank
  {
    if m != c {
      UncommonBelow(t, u, c, Parent(t, m));
      assert m in u.node ==> AgreeAt(t, u, m);
    }
  }

  lemma UncommonPre(t: Tree, u: Tree, c: Ref)
    requires Agree(t, u) && c in t.node && c !in u.node
    ensures Only(Pre(t, c), CommonNodes(t, u)) == []
  {
    forall m | m in Pre(t, c) ensures m !in CommonNodes(t, u) {
      PreMembers(t, c, m);
      UncommonBelow(t, u, c, m);
    }
    OnlyNone(Pre(t, c), CommonNodes(t, u));
  }

  lemma AgreeBack(t: Tree, u: Tree)
    requires Agree(t, u)
    ensures Agree(u, t) && CommonNodes(u, t) == CommonNodes(t, u)
  {
    forall m {:trigger AgreeAt(u, t, m)} | m in t.node && m in u.node ensures AgreeAt(u, t, m) {
      assert AgreeAt(t, u, m);
    }
  }

  lemma {:induction false} AgreePre(t: Tree, u: Tree, n: Ref)
    requires Agree(t, u) && n in t.node && n in u.node
    ensures Only(Pre(t, n), CommonNodes(t, u)) == Only(Pre(u, n), CommonNodes(t, u))
    decreases t.node[n].rank, |t.node[n].kids| + |u.node[n].kids| + 1
  {
    var d := CommonNodes(t, u);
    assert AgreeAt(t, u, n);
    assert t.node[n].kids[0..] == t.node[n].kids && u.node[n].kids[0..] == u.node[n].kids;
    AgreeForest(t, u, n, 0, 0);
    OnlyAppend([n], Forest(t, n, 0), d);
    OnlyAppend([n], Forest(u, n, 0), d);
  }

  lemma OnlyTail(s: seq<Ref>, i: nat, d: set<Ref>)
    requires i <= |s|
    ensures i == |s| ==> Only(s[i..], d) == []
    ensures i < |s| && s[i] in d ==> Only(s[i..], d) == [s[i]] + Only(s[i + 1..], d)
    ensures i < |s| && s[i] !in d ==> Only(s[i..], d) == Only(s[i + 1..], d)
  {
    assert i < |s| ==> s[i..][1..] == s[i + 1..];
  }

  /** The i-th child and later ones in t against the j-th and later ones in u. */
  lemma {:induction false} AgreeForest(t: Tree, u: Tree, n: Ref, i: nat, j: nat)
    requires Agree(t, u) && n in t.node && n in u.node && i <= |t.node[n].kids| && j <= |u.node[n].kids|
    requires Only(t.node[n].kids[i..], CommonNodes(t, u)) == Only(u.node[n].kids[j..], CommonNodes(t, u))
    ensures Only(Forest(t, n, i), CommonNodes(t, u)) == Only(Forest(u, n, j), CommonNodes(t, u))
    decreases t.node[n].rank, |t.node[n].kids| - i + |u.node[n].kids| - j
  {
    var d, k, l := CommonNodes(t, u), t.node[n].kids, u.node[n].kids;
    OnlyTail(k, i, d);
    OnlyTail(l, j, d);
    if i < |k| {
      assert ChildWf(t, n, i) && k[i..][1..] == k[i + 1..];
      OnlyAppend(Pre(t, k[i]), Forest(t, n, i + 1), d);
    }
    if j < |l| {
      assert ChildWf(u, n, j) && l[j..][1..] == l[j + 1..];
      OnlyAppend(Pre(u, l[j]), Forest(u, n, j + 1), d);
    }
    if i < |k| && k[i] !in d {
      UncommonPre(t, u, k[i]);
      AgreeForest(t, u, n, i + 1, j);
    } else if j < |l| && l[j] !in d {
      AgreeBack(t, u);
      UncommonPre(u, t, l[j]);
      AgreeForest(t, u, n, i, j + 1);
    } else if i < |k| && j < |l| {
      assert k[i] == Only(k[i..], d)[0] == Only(l[j..], d)[0] == l[j];
      assert Only(k[i + 1..], d) == Only(k[i..], d)[1..];
      AgreePre(t, u, k[i]);
      AgreeForest(t, u, n, i + 1, j + 1);
    }
  }

  /** Common nodes stand in the same order in both documents. */
  lemma AgreeOrder(t: Tree, u: Tree, x: Ref, y: Ref)
    requires Agree(t, u) && x in CommonNodes(t, u) && y in CommonNodes(t, u)
    ensures Pos(t, x) < Pos(t, y) <==> Pos(u, x) < Pos(u, y)
  {
    var d := CommonNodes(t, u);
    AgreePre(t, u, t.root);
    var s := Only(Nodes(t), d);
    NodesAscend(t);
    NodesAscend(u);
    OnlyAscends(Positions(t), Nodes(t), d);
    OnlyAscends(Positions(u), Nodes(u), d);
    NodesAll(t);
    OnlyMembers(Nodes(t), d, x);
    OnlyMembers(Nodes(t), d, y);
    SameOrder(Positions(t), Positions(u), s, IndexOf(s, x), IndexOf(s, y));
  }

  lemma SameOrder(a: map<Ref, int>, b: map<Ref, int>, s: seq<Ref>, i: nat, j: nat)
    requires Ascends(a, s) && Ascends(b, s) && i < |s| && j < |s|
    ensures a[s[i]] < a[s[j]] <==> b[s[i]] < b[s[j]]
  {
  }

  /** Attributes that are in both lists stand in the same order. */
  ghost predicate ListsAgree(s: seq<Attr>, r: seq<Attr>) {
    forall a, b {:trigger FindAttr(s, a), FindAttr(s, b)} |
      FindAttr(s, a) < |s| && FindAttr(s, b) < |s| && FindAttr(r, a) < |r| && FindAttr(r, b) < |r| ::
      FindAttr(s, a) < FindAttr(s, b) <==> FindAttr(r, a) < FindAttr(r, b)
  }

  /** Common attributes of common nodes stand in the same order. */
  ghost predicate AttrsAgree(t: Tree, u: Tree) {
    forall m {:trigger ListsAgree(t.node[m].attrs, u.node[m].attrs)} | m in t.node && m in u.node ::
      ListsAgree(t.node[m].attrs, u.node[m].attrs)
  }

  /** Document order of common items is the same. */
  lemma ItemsOrder(t: Tree, u: Tree, x: XNode, y: XNode)
    requires Agree(t, u) && AttrsAgree(t, u) && Has(t, x) && Has(t, y) && Has(u, x) && Has(u, y)
    ensures DocLess(t, x, y) <==> DocLess(u, x, y)
  {
    AgreeOrder(t, u, Owner(x), Owner(y));
    if Owner(x) == Owner(y) {
      assert ListsAgree(t.node[Owner(x)].attrs, u.node[Owner(x)].attrs);
    } else if Pos(t, Owner(x)) == Pos(t, Owner(y)) || Pos(u, Owner(x)) == Pos(u, Owner(y)) {
      assert false;
    }
  }

  // Which edits agree.

  lemma {:induction false} OnlyInsert(s: seq<Ref>, i: nat, n: Ref, d: set<Ref>)
    requires i <= |s| && n !in d
    ensures Only(InsertAt(s, i, n), d) == Only(s, d)
  {
    assert s == s[..i] + s[i..];
    OnlyAppend(s[..i], s[i..], d);
    OnlyAppend(s[..i], [n] + s[i..], d);
    OnlyAppend([n], s[i..], d);
    assert InsertAt(s, i, n) == s[..i] + ([n] + s[i..]);
  }

  lemma OnlyWithout(s: seq<Ref>, c: Ref, d: set<Ref>)
    requires c !in d
    ensures Only(Without(s, c), d) == Only(s, d)
  {
    if c in s {
      var i := IndexOf(s, c);
      assert InsertAt(RemoveAt(s, i), i, c) == s;
      OnlyInsert(RemoveAt(s, i), i, c, d);
    }
  }

  /** A new subtree at n changes the order of nothing else. */
  lemma NewSubtreeAgrees(t: Tree, u: Tree, p: Ref, place: Place, n: Ref)
    requires Wf(t) && Wf(u) && u.root == t.root && n !in t.node && OthersKept(t, u, p, place, n)
    ensures Agree(t, u) && AttrsAgree(t, u)
  {
    forall m {:trigger AgreeAt(t, u, m)} | m in t.node && m in u.node ensures AgreeAt(t, u, m) {
      assert OtherKept(t, u, p, place, n, m);
      if m == p {
        OnlyInsert(t.node[m].kids, PlaceIn(t.node[m].kids, place), n, CommonNodes(t, u));
      }
      if m != t.root {
        var q := Parent(t, m);
        assert OtherKept(t, u, p, place, n, q);
        StillIn(t.node[q].kids, q == p, n, place, m);
        assert ChildWf(u, q, IndexOf(u.node[q].kids, m));
      }
    }
    forall m | m in t.node && m in u.node ensures u.node[m].attrs == t.node[m].attrs {
      assert OtherKept(t, u, p, place, n, m);
    }
  }

  lemma GrowsKeepsOthers(t: Tree, u: Tree, n: Ref, info: Info, p: Ref, place: Place)
    requires Grows(t, u, n, info, p, place)
    ensures OthersKept(t, u, p, place, n)
  {
    forall m {:trigger OtherKept(t, u, p, place, n, m)} | m in t.node ensures OtherKept(t, u, p, place, n, m) {
      assert u.node[m].kids == GrownList(t.node[m].kids, m == p, n, place);
    }
  }

  /** Removing a subtree changes the order of nothing else. */
  lemma PruneAgrees(t: Tree, u: Tree, c: Ref)
    requires Wf(t) && Wf(u) && c in t.node && Prunes(t, u, c)
    ensures Agree(t, u) && AttrsAgree(t, u)
  {
    forall m {:trigger AgreeAt(t, u, m)} | m in t.node && m in u.node ensures AgreeAt(t, u, m) {
      assert u.node[m].kids == Without(t.node[m].kids, c);
      OnlyWithout(t.node[m].kids, c, CommonNodes(t, u));
      if m != t.root {
        KeptBelow(t, u, c, m);
      }
    }
    forall m | m in t.node && m in u.node ensures u.node[m].attrs == t.node[m].attrs {
      assert u.node[m].kids == Without(t.node[m].kids, c);
    }
  }

  lemma InWithout(s: seq<Ref>, c: Ref, x: Ref)
    requires x in s && x != c
    ensures x in Without(s, c)
  {
    if c in s {
      SplitOne(s, IndexOf(s, c));
    }
  }

  lemma KeptBelow(t: Tree, u: Tree, c: Ref, m: Ref)
    requires Wf(t) && Wf(u) && c in t.node && Prunes(t, u, c) && m in u.node && m in t.node && m != t.root
    ensures Parent(t, m) in u.node && Parent(u, m) == Parent(t, m)
  {
    var p := Parent(t, m);
    assert Attached(t, m);
    assert Under(t, m, c) == (m == c || Under(t, p, c));
    assert Under(t, c, c);
    assert u.node[p].kids == Without(t.node[p].kids, c);
    InWithout(t.node[p].kids, c, m);
    assert ChildWf(u, p, IndexOf(u.node[p].kids, m));
  }

  /** Same nodes in the same places with the same attributes; texts may differ. */
  ghost predicate SameShape(t: Tree, u: Tree) {
    && u.root == t.root && u.node.Keys == t.node.Keys
    && forall m {:trigger SameShapeAt(t, u, m)} | m in t.node :: SameShapeAt(t, u, m)
  }

  ghost predicate SameShapeAt(t: Tree, u: Tree, m: Ref)
    requires m in t.node
  {
    && m in u.node && u.node[m].kids == t.node[m].kids && u.node[m].parent == t.node[m].parent
    && AttrIds(u.node[m].attrs) == AttrIds(t.node[m].attrs)
  }

  function AttrIds(s: seq<Attr>): seq<Ref> {
    seq(|s|, i requires 0 <= i < |s| => s[i].id)
  }

  lemma {:induction false} FindByIds(s: seq<Attr>, r: seq<Attr>, a: Ref)
    requires AttrIds(s) == AttrIds(r)
    ensures |s| == |r| && FindAttr(s, a) == FindAttr(r, a)
  {
    assert |s| == |AttrIds(s)| && |r| == |AttrIds(r)|;
    if s != [] {
      assert s[0].id == AttrIds(s)[0] == AttrIds(r)[0] == r[0].id;
      assert AttrIds(s[1..]) == AttrIds(s)[1..] && AttrIds(r[1..]) == AttrIds(r)[1..];
      FindByIds(s[1..], r[1..], a);
    }
  }

  lemma SameShapeAgrees(t: Tree, u: Tree)
    requires Wf(t) && Wf(u) && SameShape(t, u)
    ensures Agree(t, u) && AttrsAgree(t, u)
  {
    forall m {:trigger AgreeAt(t, u, m)} | m in t.node && m in u.node ensures AgreeAt(t, u, m) {
      assert SameShapeAt(t, u, m);
    }
    forall m {:trigger ListsAgree(t.node[m].attrs, u.node[m].attrs)} | m in t.node && m in u.node
      ensures ListsAgree(t.node[m].attrs, u.node[m].attrs)
    {
      assert SameShapeAt(t, u, m);
      forall a ensures |u.node[m].attrs| == |t.node[m].attrs| && FindAttr(u.node[m].attrs, a) == FindAttr(t.node[m].attrs, a) {
        FindByIds(t.node[m].attrs, u.node[m].attrs, a);
      }
    }
  }

  // Attributes.

  lemma GainAgrees(t: Tree, u: Tree, n: Ref, i: nat, a: Attr)
    requires Wf(t) && Wf(u) && GainsAttr(t, u, n, i, a)
    ensures Agree(t, u) && AttrsAgree(t, u) && Agree(u, t) && AttrsAgree(u, t)
  {
    forall m {:trigger AgreeAt(t, u, m)} | m in t.node && m in u.node ensures AgreeAt(t, u, m) {
      assert m != n ==> u.node[m] == t.node[m];
    }
    AgreeBack(t, u);
    var s, r := t.node[n].attrs, u.node[n].attrs;
    assert forall j | 0 <= j < |s| :: AttrWf(t, n, j);
    InsertedAgree(s, i, a);
    forall m | m in t.node && m != n ensures u.node[m].attrs == t.node[m].attrs {
      assert u.node[m] == t.node[m];
    }
  }

  lemma InsertedAgree(s: seq<Attr>, i: nat, a: Attr)
    requires i <= |s| && forall j | 0 <= j < |s| :: s[j].id != a.id
    ensures ListsAgree(s, InsertAt(s, i, a)) && ListsAgree(InsertAt(s, i, a), s)
  {
    var r := InsertAt(s, i, a);
    forall b | b != a.id ensures FindAttr(r, b) == if FindAttr(s, b) < i then FindAttr(s, b) else FindAttr(s, b) + 1 {
      FindInserted(s, i, a, b);
    }
    assert FindAttr(s, a.id) == |s|;
  }
}
