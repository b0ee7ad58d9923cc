/**
 * What a document says: its tree with the names and values that its strings hold. Queries and output work on this tree;
 * here is what edits of links and strings do to it.
 */
module LiveTree {
  import opened Sequences
  import opened Utf
  import opened XmlTree
  import opened Steps
  import opened DocumentOrder
  import opened TreeEdits
  import opened OrderKept
  import opened BufferOrder
  import CopyTree
  import XmlParse
  import XmlOutput
  import Strings

  // Strings that read as before.

  /** Every string that was there reads as before. */
  ghost predicate StaysRead(m: Strings.Mem, w: Strings.Mem) {
    forall r {:trigger Strings.Text(w, r)} | Strings.HasSlot(m, r) && Strings.HasSlot(w, r) :: Strings.Text(w, r) == Strings.Text(m, r)
  }

  ghost predicate StaysReadBut(m: Strings.Mem, w: Strings.Mem, s: Strings.Slot) {
    forall r {:trigger Strings.Text(w, r)} | Strings.HasSlot(m, r) && Strings.HasSlot(w, r) && r != s :: Strings.Text(w, r) == Strings.Text(m, r)
  }

  // The tree with its strings.

  function Letters(s: seq<Byte>): string {
    seq(|s|, i requires 0 <= i < |s| => s[i] as char)
  }

  function Reads(m: Strings.Mem, id: Strings.Id, isName: bool): seq<Byte> {
    if id in m.obj then Strings.Text(m, Strings.Slot(id, isName)) else []
  }

  function FullInfo(m: Strings.Mem, n: Ref, ty: NodeType): Info {
    Info(ty, Letters(Reads(m, Strings.NodeId(n), true)), Letters(Reads(m, Strings.NodeId(n), false)))
  }

  function FullAttr(m: Strings.Mem, a: Ref): Attr {
    Attr(a, Letters(Reads(m, Strings.AttrId(a), true)), Letters(Reads(m, Strings.AttrId(a), false)))
  }

  function FullAttrs(m: Strings.Mem, s: seq<Attr>): seq<Attr> {
    seq(|s|, i requires 0 <= i < |s| => FullAttr(m, s[i].id))
  }

  function FullNode(m: Strings.Mem, n: Ref, v: Node): Node {
    v.(info := FullInfo(m, n, v.info.ty), attrs := FullAttrs(m, v.attrs))
  }

  /** The tree t with the names and values that its strings have. */
  function Full(t: Tree, m: Strings.Mem): Tree {
    Tree(t.root, map n | n in t.node :: FullNode(m, n, t.node[n]), t.holder)
  }

  lemma FullKeys(t: Tree, m: Strings.Mem)
    ensures Full(t, m).node.Keys == t.node.Keys
  {
  }

  lemma FullShape(t: Tree, m: Strings.Mem)
    ensures SameShape(t, Full(t, m))
  {
    forall n | n in t.node ensures AttrIds(Full(t, m).node[n].attrs) == AttrIds(t.node[n].attrs) {
    }
  }

  /** It is a document with the same items in the same order. */
  lemma FullWf(t: Tree, m: Strings.Mem)
    requires Wf(t)
    ensures Wf(Full(t, m)) && forall x :: Has(Full(t, m), x) == Has(t, x)
  {
    var u := Full(t, m);
    FullShape(t, m);
    forall n, i {:trigger ChildWf(u, n, i)} | n in u.node && 0 <= i < |u.node[n].kids| ensures ChildWf(u, n, i) {
      assert ChildWf(t, n, i);
    }
    forall n {:trigger Attached(u, n)} | n in u.node && n != u.root ensures Attached(u, n) {
      assert Attached(t, n);
    }
    forall n, a | n in t.node ensures FindAttr(u.node[n].attrs, a) == FindAttr(t.node[n].attrs, a) && |u.node[n].attrs| == |t.node[n].attrs| {
      assert SameShapeAt(t, u, n);
      FindByIds(t.node[n].attrs, u.node[n].attrs, a);
    }
    forall n, i {:trigger AttrWf(u, n, i)} | n in u.node && 0 <= i < |u.node[n].attrs| ensures AttrWf(u, n, i) {
      assert AttrWf(t, n, i);
    }
  }

  lemma FullOrder(t: Tree, m: Strings.Mem, x: XNode, y: XNode)
    requires Wf(t) && Has(t, x) && Has(t, y)
    ensures Wf(Full(t, m)) && Has(Full(t, m), x) && Has(Full(t, m), y) && (DocLess(Full(t, m), x, y) <==> DocLess(t, x, y))
  {
    FullWf(t, m);
    FullShape(t, m);
    SameShapeAgrees(t, Full(t, m));
    ItemsOrder(t, Full(t, m), x, y);
  }

  // Nodes that no edit has touched.

  lemma AttrsKept(t: Tree, m: Strings.Mem, u: Tree, w: Strings.Mem, n: Ref)
    requires Wf(t) && Wf(u) && Covers(t, m.obj) && Covers(u, w.obj) && StaysRead(m, w) && n in t.node && n in u.node
    ensures forall a {:trigger FullAttr(w, a)} | FindAttr(t.node[n].attrs, a) < |t.node[n].attrs| && FindAttr(u.node[n].attrs, a) < |u.node[n].attrs| ::
      FullAttr(w, a) == FullAttr(m, a)
  {
    forall a {:trigger FullAttr(w, a)} | FindAttr(t.node[n].attrs, a) < |t.node[n].attrs| && FindAttr(u.node[n].attrs, a) < |u.node[n].attrs|
      ensures FullAttr(w, a) == FullAttr(m, a)
    {
      IdItem(t, XAttr(a, n));
      IdItem(u, XAttr(a, n));
      assert Strings.AttrId(a) in m.obj && Strings.AttrId(a) in w.obj;
    }
  }

  lemma InfoKept(t: Tree, m: Strings.Mem, u: Tree, w: Strings.Mem, n: Ref)
    requires Wf(t) && Wf(u) && Covers(t, m.obj) && Covers(u, w.obj) && StaysRead(m, w) && n in t.node && n in u.node
    ensures forall ty :: FullInfo(w, n, ty) == FullInfo(m, n, ty)
  {
    assert Strings.NodeId(n) in m.obj && Strings.NodeId(n) in w.obj by {
      IdItem(t, XElem(n));
      IdItem(u, XElem(n));
    }
  }

  lemma NodeKept(t: Tree, m: Strings.Mem, u: Tree, w: Strings.Mem, n: Ref)
    requires Wf(t) && Wf(u) && Covers(t, m.obj) && Covers(u, w.obj) && StaysRead(m, w) && n in t.node && n in u.node && SameContents(t, u, n)
    ensures SameContents(Full(t, m), Full(u, w), n)
  {
    AttrsKept(t, m, u, w, n);
    InfoKept(t, m, u, w, n);
    var s := t.node[n].attrs;
    forall i | 0 <= i < |s| ensures FullAttr(w, s[i].id) == FullAttr(m, s[i].id) {
      assert AttrWf(t, n, i);
    }
    assert FullAttrs(w, s) == FullAttrs(m, s);
  }

  // Edits.

  /** One name or value is another. */
  function Renamed(t: Tree, x: XNode, isName: bool, text: string): Tree
    requires x.XElem? ==> x.n in t.node
    requires x.XAttr? ==> x.p in t.node && FindAttr(t.node[x.p].attrs, x.a) < |t.node[x.p].attrs|
  {
    match x
    case XElem(n) =>
      var i := t.node[n].info;
      t.(node := t.node[n := t.node[n].(info := if isName then i.(name := text) else i.(value := text))])
    case XAttr(a, p) =>
      var s, i := t.node[p].attrs, FindAttr(t.node[p].attrs, a);
      t.(node := t.node[p := t.node[p].(attrs := s[i := if isName then s[i].(name := text) else s[i].(value := text)])])
    case XNull => t
  }

  /** Only slots of one item can read differently. */
  lemma FullBut(t: Tree, m: Strings.Mem, w: Strings.Mem, x: XNode, isName: bool, n: Ref)
    requires Wf(t) && Covers(t, m.obj) && Covers(t, w.obj) && StaysReadBut(m, w, Strings.Slot(IdOf(x), isName)) && n in t.node
    ensures x != XElem(n) ==> FullInfo(w, n, t.node[n].info.ty) == FullInfo(m, n, t.node[n].info.ty)
    ensures forall i | 0 <= i < |t.node[n].attrs| && IdOf(x) != Strings.AttrId(t.node[n].attrs[i].id) ::
      FullAttr(w, t.node[n].attrs[i].id) == FullAttr(m, t.node[n].attrs[i].id)
  {
    assert Strings.NodeId(n) in m.obj && Strings.NodeId(n) in w.obj by {
      IdItem(t, XElem(n));
    }
    assert x == XNull ==> IdOf(x) != Strings.NodeId(n);
    forall i | 0 <= i < |t.node[n].attrs| && IdOf(x) != Strings.AttrId(t.node[n].attrs[i].id)
      ensures FullAttr(w, t.node[n].attrs[i].id) == FullAttr(m, t.node[n].attrs[i].id)
    {
      var a := t.node[n].attrs[i].id;
      assert AttrWf(t, n, i);
      IdItem(t, XAttr(a, n));
      assert Strings.AttrId(a) in m.obj && Strings.AttrId(a) in w.obj;
    }
  }

  lemma FullSet(t: Tree, m: Strings.Mem, w: Strings.Mem, x: XNode, isName: bool, text: seq<Byte>)
    requires Wf(t) && Covers(t, m.obj) && Covers(t, w.obj) && Has(t, x)
    requires StaysReadBut(m, w, Strings.Slot(IdOf(x), isName)) && Reads(w, IdOf(x), isName) == text
    ensures Wf(Full(t, m)) && Has(Full(t, m), x) && Full(t, w) == Renamed(Full(t, m), x, isName, Letters(text))
  {
    FullWf(t, m);
    forall n | n in t.node ensures Full(t, w).node[n] == Renamed(Full(t, m), x, isName, Letters(text)).node[n] {
      FullSetAt(t, m, w, x, isName, text, n);
    }
    RenamedElsewhere(Full(t, m), x, isName, Letters(text), t.root);
    SameTree(Full(t, w), Renamed(Full(t, m), x, isName, Letters(text)));
  }

  lemma SameTree(t: Tree, u: Tree)
    requires u.root == t.root && u.holder == t.holder && u.node.Keys == t.node.Keys
    requires forall n | n in t.node :: t.node[n] == u.node[n]
    ensures t == u
  {
    assert t.node == u.node;
  }

  lemma RenamedElsewhere(t: Tree, x: XNode, isName: bool, text: string, n: Ref)
    requires Wf(t) && Has(t, x)
    ensures var r := Renamed(t, x, isName, text);
      r.root == t.root && r.holder == t.holder && r.node.Keys == t.node.Keys && (n in t.node && Owner(x) != n ==> r.node[n] == t.node[n])
  {
  }

  lemma FullSetAt(t: Tree, m: Strings.Mem, w: Strings.Mem, x: XNode, isName: bool, text: seq<Byte>, n: Ref)
    requires Wf(t) && Covers(t, m.obj) && Covers(t, w.obj) && Has(t, x) && n in t.node && Wf(Full(t, m)) && Has(Full(t, m), x)
    requires StaysReadBut(m, w, Strings.Slot(IdOf(x), isName)) && Reads(w, IdOf(x), isName) == text
    ensures var r := Renamed(Full(t, m), x, isName, Letters(text)); n in r.node && Full(t, w).node[n] == r.node[n]
  {
    if Owner(x) == n {
      OwnerSet(t, m, w, x, isName, text);
    } else {
      OtherSet(t, m, w, x, isName, n);
      RenamedElsewhere(Full(t, m), x, isName, Letters(text), n);
    }
  }

  lemma OtherSet(t: Tree, m: Strings.Mem, w: Strings.Mem, x: XNode, isName: bool, n: Ref)
    requires Wf(t) && Covers(t, m.obj) && Covers(t, w.obj) && Has(t, x) && n in t.node && Owner(x) != n
    requires StaysReadBut(m, w, Strings.Slot(IdOf(x), isName))
    ensures Full(t, w).node[n] == Full(t, m).node[n]
  {
    FullBut(t, m, w, x, isName, n);
    forall i | 0 <= i < |t.node[n].attrs| ensures IdOf(x) != Strings.AttrId(t.node[n].attrs[i].id) {
      assert AttrWf(t, n, i);
      if IdOf(x) == Strings.AttrId(t.node[n].attrs[i].id) {
        IdItem(t, x);
      }
    }
    assert FullAttrs(w, t.node[n].attrs) == FullAttrs(m, t.node[n].attrs);
  }

  lemma OwnerSet(t: Tree, m: Strings.Mem, w: Strings.Mem, x: XNode, isName: bool, text: seq<Byte>)
    requires Wf(t) && Covers(t, m.obj) && Covers(t, w.obj) && Has(t, x) && Wf(Full(t, m)) && Has(Full(t, m), x)
    requires StaysReadBut(m, w, Strings.Slot(IdOf(x), isName)) && Reads(w, IdOf(x), isName) == text
    ensures Full(t, w).node[Owner(x)] == Renamed(Full(t, m), x, isName, Letters(text)).node[Owner(x)]
  {
    ItemSet(t, m, w, x, isName, text);
    if x.XElem? {
      FullBut(t, m, w, x, isName, x.n);
      assert FullAttrs(w, t.node[x.n].attrs) == FullAttrs(m, t.node[x.n].attrs);
    } else {
      var s, k := FullAttrs(m, t.node[x.p].attrs), FindAttr(t.node[x.p].attrs, x.a);
      AttrSet(t, m, w, x, isName);
      assert FullInfo(w, x.p, t.node[x.p].info.ty) == FullInfo(m, x.p, t.node[x.p].info.ty) by {
        FullBut(t, m, w, x, isName, x.p);
      }
      assert s[k] == FullAttr(m, x.a);
      assert FullAttr(w, x.a) == if isName then s[k].(name := Letters(text)) else s[k].(value := Letters(text));
    }
  }

  /** How the item itself reads. */
  lemma ItemSet(t: Tree, m: Strings.Mem, w: Strings.Mem, x: XNode, isName: bool, text: seq<Byte>)
    requires Wf(t) && Covers(t, m.obj) && Covers(t, w.obj) && Has(t, x)
    requires StaysReadBut(m, w, Strings.Slot(IdOf(x), isName)) && Reads(w, IdOf(x), isName) == text
    ensures Reads(w, IdOf(x), isName) == text && Reads(w, IdOf(x), !isName) == Reads(m, IdOf(x), !isName)
  {
    assert IdOf(x) in m.obj && IdOf(x) in w.obj by {
      IdItem(t, x);
    }
    var other := Strings.Slot(IdOf(x), !isName);
    assert Strings.Text(w, other) == Strings.Text(m, other);
  }

  lemma AttrSet(t: Tree, m: Strings.Mem, w: Strings.Mem, x: XNode, isName: bool)
    requires Wf(t) && Covers(t, m.obj) && Covers(t, w.obj) && Has(t, x) && x.XAttr? && StaysReadBut(m, w, Strings.Slot(IdOf(x), isName))
    ensures var s, k := t.node[x.p].attrs, FindAttr(t.node[x.p].attrs, x.a);
      FindAttr(FullAttrs(m, s), x.a) == k && FullAttrs(w, s) == FullAttrs(m, s)[k := FullAttr(w, x.a)]
  {
    var n, f := x.p, Full(t, m);
    var s := t.node[n].attrs;
    var k, r := FindAttr(s, x.a), FullAttrs(m, s);
    assert FindAttr(r, x.a) == k by {
      FullShape(t, m);
      assert SameShapeAt(t, f, n);
      FindByIds(s, f.node[n].attrs, x.a);
    }
    FullBut(t, m, w, x, isName, n);
    forall i | 0 <= i < |s| ensures FullAttrs(w, s)[i] == if i == k then FullAttr(w, x.a) else r[i] {
      assert AttrWf(t, n, i);
    }
  }

  lemma FullGrows(t: Tree, m: Strings.Mem, u: Tree, w: Strings.Mem, n: Ref, info: Info, p: Ref, place: Place, full: Info)
    requires Wf(t) && Wf(u) && Covers(t, m.obj) && Covers(u, w.obj) && StaysRead(m, w) && Grows(t, u, n, info, p, place)
    requires full == FullInfo(w, n, info.ty)
    ensures Grows(Full(t, m), Full(u, w), n, full, p, place)
  {
    var f, g := Full(t, m), Full(u, w);
    forall x {:trigger g.node[x].kids} | x in f.node ensures SameContents(f, g, x) && g.node[x].kids == GrownList(f.node[x].kids, x == p, n, place) {
      assert u.node[x].kids == GrownList(t.node[x].kids, x == p, n, place);
      NodeKept(t, m, u, w, x);
    }
  }

  lemma FullMoves(t: Tree, u: Tree, m: Strings.Mem, c: Ref, q: Ref, place: Place)
    requires MovesTo(t, u, c, q, place)
    ensures MovesTo(Full(t, m), Full(u, m), c, q, place)
  {
    var f, g := Full(t, m), Full(u, m);
    forall x {:trigger g.node[x].kids} | x in f.node ensures SameContents(f, g, x) && g.node[x].kids == MovedList(f.node[x].kids, x == q, c, place) {
      assert u.node[x].kids == MovedList(t.node[x].kids, x == q, c, place);
    }
  }

  lemma FullPrunes(t: Tree, m: Strings.Mem, u: Tree, w: Strings.Mem, c: Ref)
    requires Wf(t) && Wf(u) && Covers(t, m.obj) && Covers(u, w.obj) && StaysRead(m, w) && c in t.node && Prunes(t, u, c)
    ensures Wf(Full(t, m)) && Prunes(Full(t, m), Full(u, w), c)
  {
    FullWf(t, m);
    assert Full(u, w).node.Keys == Full(t, m).node.Keys - Subtree(Full(t, m), c) by {
      PrunesKeys(t, u, c);
      FullSubtree(t, m, c);
      FullKeys(t, m);
      FullKeys(u, w);
    }
    forall x | x in u.node ensures Remains(Full(t, m), Full(u, w), c, x) {
      PrunesAt(t, u, c, x);
      FullRemains(t, m, u, w, c, x);
    }
    RemainsPrunes(Full(t, m), Full(u, w), c);
  }

  lemma PrunesKeys(t: Tree, u: Tree, c: Ref)
    requires Wf(t) && Prunes(t, u, c)
    ensures u.root == t.root && u.holder == t.holder && u.node.Keys == t.node.Keys - Subtree(t, c)
  {
  }

  lemma PrunesAt(t: Tree, u: Tree, c: Ref, n: Ref)
    requires Wf(t) && Prunes(t, u, c) && n in u.node
    ensures Remains(t, u, c, n)
  {
    assert u.node[n].kids == Without(t.node[n].kids, c);
  }

  lemma FullRemains(t: Tree, m: Strings.Mem, u: Tree, w: Strings.Mem, c: Ref, n: Ref)
    requires Wf(t) && Wf(u) && Covers(t, m.obj) && Covers(u, w.obj) && StaysRead(m, w) && Remains(t, u, c, n)
    ensures Remains(Full(t, m), Full(u, w), c, n)
  {
    NodeKept(t, m, u, w, n);
  }

  /** The node n is as before, without the child c. */
  ghost predicate Remains(t: Tree, u: Tree, c: Ref, n: Ref) {
    n in t.node && n in u.node && SameContents(t, u, n) && u.node[n].kids == Without(t.node[n].kids, c)
  }

  lemma RemainsPrunes(t: Tree, u: Tree, c: Ref)
    requires Wf(t) && u.root == t.root && u.holder == t.holder && u.node.Keys == t.node.Keys - Subtree(t, c)
    requires forall n | n in u.node :: Remains(t, u, c, n)
    ensures Prunes(t, u, c)
  {
  }

  lemma FullSubtree(t: Tree, m: Strings.Mem, c: Ref)
    requires Wf(t) && Wf(Full(t, m))
    ensures Subtree(Full(t, m), c) == Subtree(t, c)
  {
    forall x ensures x in Subtree(Full(t, m), c) <==> x in Subtree(t, c) {
      if x in t.node {
        FullUnder(t, m, x, c);
      }
    }
  }

  lemma {:induction false} FullUnder(t: Tree, m: Strings.Mem, x: Ref, c: Ref)
    requires Wf(t) && Wf(Full(t, m)) && x in t.node
    ensures Under(Full(t, m), x, c) == Under(t, x, c)
    decreases t.node[t.root].rank - t.node[x].rank
  {
    if x != c && x != t.root {
      FullUnder(t, m, Parent(t, x), c);
    }
  }

  lemma FullGains(t: Tree, m: Strings.Mem, u: Tree, w: Strings.Mem, n: Ref, i: nat, a: Attr)
    requires Wf(t) && Wf(u) && Covers(t, m.obj) && Covers(u, w.obj) && StaysRead(m, w) && GainsAttr(t, u, n, i, a)
    ensures GainsAttr(Full(t, m), Full(u, w), n, i, FullAttr(w, a.id))
  {
    var f, g := Full(t, m), Full(u, w);
    forall x {:trigger g.node[x]} | x in f.node && x != n ensures g.node[x] == f.node[x] {
      assert u.node[x] == t.node[x];
      NodeKept(t, m, u, w, x);
    }
    AttrsKept(t, m, u, w, n);
    InfoKept(t, m, u, w, n);
    OthersFull(t, u, m, w, n, i, a);
  }

  /** The attributes beside a new one read the same in both memories. */
  lemma OthersFull(t: Tree, u: Tree, m: Strings.Mem, w: Strings.Mem, n: Ref, i: nat, a: Attr)
    requires Wf(t) && Wf(u) && GainsAttr(t, u, n, i, a)
    requires forall b {:trigger FullAttr(w, b)} | FindAttr(t.node[n].attrs, b) < |t.node[n].attrs| && FindAttr(u.node[n].attrs, b) < |u.node[n].attrs| ::
      FullAttr(w, b) == FullAttr(m, b)
    ensures FullAttrs(w, u.node[n].attrs) == InsertAt(FullAttrs(m, t.node[n].attrs), i, FullAttr(w, a.id))
  {
    var s, r := t.node[n].attrs, u.node[n].attrs;
    var x := FullAttrs(m, s);
    forall k | 0 <= k < |r| ensures FullAttrs(w, r)[k] == InsertAt(x, i, FullAttr(w, a.id))[k] {
      if k != i {
        var j := if k < i then k else k - 1;
        assert r[k] == s[j] && AttrWf(t, n, j) && AttrWf(u, n, k);
        assert FullAttr(w, s[j].id) == FullAttr(m, s[j].id) == x[j];
      }
    }
  }

  lemma FullLoses(t: Tree, m: Strings.Mem, u: Tree, w: Strings.Mem, n: Ref, i: nat, a: Attr)
    requires Wf(t) && Wf(u) && Covers(t, m.obj) && Covers(u, w.obj) && StaysRead(m, w) && GainsAttr(u, t, n, i, a)
    ensures GainsAttr(Full(u, w), Full(t, m), n, i, FullAttr(m, a.id))
  {
    StaysBack(m, w);
    FullGains(u, w, t, m, n, i, a);
  }

  lemma StaysBack(m: Strings.Mem, w: Strings.Mem)
    requires StaysRead(m, w)
    ensures StaysRead(w, m)
  {
  }

  // Copies.

  /** Copies have the names and values of their sources. */
  lemma FullMirrors(t: Tree, m: Strings.Mem, u: Tree, w: Strings.Mem, sn: Ref, cp: map<Ref, Ref>)
    requires Wf(t) && Wf(u) && sn in t.node && CopyTree.Mirrors(t, u, sn, cp)
    requires forall v {:trigger cp[v]} | v in cp && v in t.node && cp[v] in u.node :: CopyFull(t, m, u, w, v, cp[v])
    ensures Wf(Full(t, m)) && Wf(Full(u, w)) && CopyTree.Mirrors(Full(t, m), Full(u, w), sn, cp)
  {
    FullWf(t, m);
    FullWf(u, w);
    var f, g := Full(t, m), Full(u, w);
    forall v {:trigger CopyTree.MirrorAt(f, g, cp, v)} | v in f.node && Under(f, v, sn) ensures CopyTree.MirrorAt(f, g, cp, v) {
      FullUnder(t, m, v, sn);
      assert CopyTree.MirrorAt(t, u, cp, v);
      assert CopyFull(t, m, u, w, v, cp[v]);
    }
  }

  /** c reads in w as v does in m. */
  ghost predicate CopyFull(t: Tree, m: Strings.Mem, u: Tree, w: Strings.Mem, v: Ref, c: Ref)
    requires v in t.node && c in u.node
  {
    && (forall ty :: FullInfo(w, c, ty) == FullInfo(m, v, ty))
    && CopyTree.AttrValues(FullAttrs(w, u.node[c].attrs)) == CopyTree.AttrValues(FullAttrs(m, t.node[v].attrs))
  }

  lemma FullCopied(t: Tree, m: Strings.Mem, u: Tree, w: Strings.Mem, sn: Ref, cp: map<Ref, Ref>)
    requires Wf(t) && Wf(u) && sn in t.node && CopyTree.Mirrors(t, u, sn, cp)
    requires forall v {:trigger cp[v]} | v in cp && v in t.node && cp[v] in u.node :: CopyFull(t, m, u, w, v, cp[v])
    ensures Wf(Full(t, m)) && Wf(Full(u, w)) && sn in cp && cp[sn] in u.node && CopyTree.ValueOf(Full(u, w), cp[sn]) == CopyTree.ValueOf(Full(t, m), sn)
  {
    FullMirrors(t, m, u, w, sn, cp);
    CopyTree.MirrorValue(Full(t, m), Full(u, w), sn, cp, sn);
  }

  lemma FullOthersKept(t: Tree, m: Strings.Mem, u: Tree, w: Strings.Mem, p: Ref, place: Place, n: Ref)
    requires Wf(t) && Wf(u) && Covers(t, m.obj) && Covers(u, w.obj) && StaysRead(m, w) && CopyTree.OthersKept(t, u, p, place, n)
    ensures CopyTree.OthersKept(Full(t, m), Full(u, w), p, place, n)
  {
    var f, g := Full(t, m), Full(u, w);
    forall x {:trigger CopyTree.OtherKept(f, g, p, place, n, x)} | x in f.node ensures CopyTree.OtherKept(f, g, p, place, n, x) {
      assert CopyTree.OtherKept(t, u, p, place, n, x);
      NodeKept(t, m, u, w, x);
    }
  }

  // Output.

  function AttrTexts(m: Strings.Mem, s: seq<Attr>): seq<XmlParse.Attribute> {
    seq(|s|, i requires 0 <= i < |s| => XmlParse.Attribute(Reads(m, Strings.AttrId(s[i].id), true), Reads(m, Strings.AttrId(s[i].id), false)))
  }

  /** The strings that output writes. */
  function Contents(t: Tree, m: Strings.Mem): (c: map<Ref, XmlOutput.Content>)
    ensures c.Keys == t.node.Keys
  {
    map n | n in t.node :: XmlOutput.Content(Reads(m, Strings.NodeId(n), true), Reads(m, Strings.NodeId(n), false), AttrTexts(m, t.node[n].attrs))
  }

  function Bytes(s: string): seq<Byte> {
    seq(|s|, i requires 0 <= i < |s| => if s[i] as int < 256 then s[i] as int else 0)
  }

  lemma BytesBack(s: seq<Byte>)
    ensures Bytes(Letters(s)) == s
  {
  }

  /** What is written for a subtree with this value. */
  function XmlFrom(v: CopyTree.Value): XmlParse.Xml
    decreases v, 0
  {
    if v.info.ty == Pcdata then XmlParse.Chars(Bytes(v.info.value))
    else XmlParse.Elem(Bytes(v.info.name), AttrsFrom(v.attrs), AllFrom(v.kids))
  }

  function AllFrom(s: seq<CopyTree.Value>): seq<XmlParse.Xml>
    decreases s, 1
  {
    if s == [] then [] else [XmlFrom(s[0])] + AllFrom(s[1..])
  }

  function AttrsFrom(s: seq<(string, string)>): seq<XmlParse.Attribute> {
    seq(|s|, i requires 0 <= i < |s| => XmlParse.Attribute(Bytes(s[i].0), Bytes(s[i].1)))
  }

  lemma AttrsWritten(m: Strings.Mem, s: seq<Attr>)
    ensures AttrsFrom(CopyTree.AttrValues(FullAttrs(m, s))) == AttrTexts(m, s)
  {
    var r := AttrsFrom(CopyTree.AttrValues(FullAttrs(m, s)));
    forall i | 0 <= i < |s| ensures r[i] == AttrTexts(m, s)[i] {
      BytesBack(Reads(m, Strings.AttrId(s[i].id), true));
      BytesBack(Reads(m, Strings.AttrId(s[i].id), false));
    }
  }

  /** Output depends on nothing but the names and values of the subtree: equal values are written alike. */
  lemma {:induction false} ValueWritten(t: Tree, m: Strings.Mem, n: Ref)
    requires Wf(t) && Wf(Full(t, m)) && n in t.node
    ensures XmlOutput.XmlOf(t, Contents(t, m), n) == XmlFrom(CopyTree.ValueOf(Full(t, m), n))
    decreases t.node[n].rank, |t.node[n].kids| + 1
  {
    BytesBack(Reads(m, Strings.NodeId(n), true));
    BytesBack(Reads(m, Strings.NodeId(n), false));
    AttrsWritten(m, t.node[n].attrs);
    KidsWritten(t, m, n, 0);
  }

  lemma {:induction false} KidsWritten(t: Tree, m: Strings.Mem, n: Ref, i: nat)
    requires Wf(t) && Wf(Full(t, m)) && n in t.node && i <= |t.node[n].kids|
    ensures XmlOutput.KidsOf(t, Contents(t, m), n, i) == AllFrom(CopyTree.KidValues(Full(t, m), n, i))
    decreases t.node[n].rank, |t.node[n].kids| - i
  {
    if i < |t.node[n].kids| {
      assert ChildWf(t, n, i);
      ValueWritten(t, m, t.node[n].kids[i]);
      KidsWritten(t, m, n, i + 1);
      var s := CopyTree.KidValues(Full(t, m), n, i);
      assert s[1..] == CopyTree.KidValues(Full(t, m), n, i + 1);
    }
  }
}
