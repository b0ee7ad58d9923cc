/**
 * Node sets with nodes of several documents. The comparison goes by buffer addresses where it can, by document order inside a
 * document, and by the addresses of the roots otherwise. Here is when these three make one order.
 */
module SeveralDocuments {
  import opened Sequences
  import opened XmlTree
  import opened Axes
  import opened Steps
  import opened DocumentOrder
  import opened BufferOrder
  import Strings

  /** A document, and where its buffer lies. */
  datatype Place = Place(doc: Doc, base: nat, size: nat)

  /** Documents by the addresses of their roots. */
  type Family = map<Ref, Place>

  /** Documents share no nodes, their buffers do not overlap, and a document as such has neither name nor value. */
  ghost predicate FamilyOk(f: Family) {
    && (forall r {:trigger f[r]} | r in f :: PlaceOk(f, r))
    && forall r, s {:trigger Apart(f, r, s)} | r in f && s in f && r != s :: Apart(f, r, s)
  }

  ghost predicate PlaceOk(f: Family, r: Ref)
    requires r in f
  {
    var d := f[r].doc;
    && InBufferOrder(d) && d.t.root == r && BufferKey(d, XElem(r)).Null?
    && forall x {:trigger BufferKey(d, x)} :: BufferKey(d, x).Buf? ==> BufferKey(d, x).off < f[r].size
  }

  ghost predicate Apart(f: Family, r: Ref, s: Ref)
    requires r in f && s in f
  {
    && f[r].doc.t.node.Keys !! f[s].doc.t.node.Keys
    && (f[r].base + f[r].size <= f[s].base || f[s].base + f[s].size <= f[r].base)
  }

  datatype Item = Item(root: Ref, x: XNode)

  ghost predicate Among(f: Family, i: Item) {
    i.root in f && Wf(f[i.root].doc.t) && Has(f[i.root].doc.t, i.x)
  }

  ghost function Key(f: Family, i: Item): Strings.Ptr
    requires i.root in f
  {
    BufferKey(f[i.root].doc, i.x)
  }

  ghost function Address(f: Family, i: Item): nat
    requires i.root in f && Key(f, i).Buf?
  {
    f[i.root].base + Key(f, i).off
  }

  /** What the comparison says of two different items. */
  ghost predicate Less(f: Family, i: Item, j: Item)
    requires FamilyOk(f) && Among(f, i) && Among(f, j)
  {
    if Key(f, i).Buf? && Key(f, j).Buf? then Address(f, i) < Address(f, j)
    else if i.root == j.root then DocLess(f[i.root].doc.t, i.x, j.x)
    else i.root < j.root
  }

  // The comparison.

  /** Climb from two nodes of different documents until both are at the root; on the way they are never the same node. */
  method BeforeElsewhere(t: Tree, u: Tree, ln0: Ref, rn0: Ref) returns (b: bool)
    requires Wf(t) && Wf(u) && ln0 in t.node && rn0 in u.node && t.node.Keys !! u.node.Keys
    ensures b == (t.root < u.root)
  {
    var ln, rn, lp, rp := ln0, rn0, ln0, rn0;
    while lp != 0 && rp != 0 && Parent(t, lp) != Parent(u, rp)
      invariant (lp == 0 || lp in t.node) && (rp == 0 || rp in u.node)
      invariant ClimbLength(t, ln) - ClimbLength(t, lp) == ClimbLength(u, rn) - ClimbLength(u, rp) >= 0
      decreases ClimbLength(t, lp)
    {
      lp, rp := Parent(t, lp), Parent(u, rp);
    }
    if lp != 0 && rp != 0 {
      b := RootIsBefore(t, u, lp, rp);
      return;
    }
    while lp != 0
      invariant ln in t.node && (lp == 0 || lp in t.node) && (rp == 0 || rp in u.node)
      invariant ClimbLength(t, ln) - ClimbLength(t, lp) == ClimbLength(u, rn) - ClimbLength(u, rp) >= 0
      invariant rp == 0 || lp == 0
      decreases ClimbLength(t, lp)
    {
      lp := Parent(t, lp);
      ln := Parent(t, ln);
    }
    while rp != 0
      invariant rn in u.node && (rp == 0 || rp in u.node)
      invariant ClimbLength(t, ln) == ClimbLength(u, rn) - ClimbLength(u, rp)
      decreases ClimbLength(u, rp)
    {
      rp := Parent(u, rp);
      rn := Parent(u, rn);
    }
    while Parent(t, ln) != Parent(u, rn)
      invariant ln in t.node && rn in u.node && ClimbLength(t, ln) == ClimbLength(u, rn)
      decreases ClimbLength(t, ln)
    {
      ln, rn := Parent(t, ln), Parent(u, rn);
    }
    b := RootIsBefore(t, u, ln, rn);
  }

  /** Two nodes with one parent that are of different documents have none: they are the roots. */
  method RootIsBefore(t: Tree, u: Tree, ln: Ref, rn: Ref) returns (b: bool)
    requires Wf(t) && Wf(u) && ln in t.node && rn in u.node && t.node.Keys !! u.node.Keys && Parent(t, ln) == Parent(u, rn)
    ensures b == (t.root < u.root)
  {
    assert Parent(t, ln) == 0;
    b := ln < rn;
  }

  method Compare(f: Family, i: Item, j: Item) returns (b: bool)
    requires FamilyOk(f) && Among(f, i) && Among(f, j) && i != j
    ensures b == Less(f, i, j)
  {
    var d, e := f[i.root].doc, f[j.root].doc;
    var lo := if IdOf(i.x) in d.head then KeyIn(d.moved, i.x, d.head[IdOf(i.x)]) else Strings.Null;
    var ro := if IdOf(j.x) in e.head then KeyIn(e.moved, j.x, e.head[IdOf(j.x)]) else Strings.Null;
    assert lo == Key(f, i) && ro == Key(f, j);
    KeysAreBuffers(f, i);
    KeysAreBuffers(f, j);
    if lo.Buf? && ro.Buf? {
      return f[i.root].base + lo.off < f[j.root].base + ro.off;
    }
    if i.root == j.root {
      b := DocumentOrderLess(d.t, i.x, j.x);
    } else {
      assert Apart(f, i.root, j.root);
      OwnerThere(d.t, i.x);
      OwnerThere(e.t, j.x);
      b := BeforeElsewhere(d.t, e.t, Owner(i.x), Owner(j.x));
    }
  }

  lemma OwnerThere(t: Tree, x: XNode)
    requires Wf(t) && Has(t, x)
    ensures Owner(x) in t.node
  {
  }

  lemma KeysAreBuffers(f: Family, i: Item)
    requires FamilyOk(f) && Among(f, i)
    ensures !Key(f, i).Null? ==> Key(f, i).Buf? && Key(f, i).off < f[i.root].size
  {
    assert PlaceOk(f, i.root);
    if !Key(f, i).Null? {
      KeyIsPtr(f[i.root].doc, i.x);
    }
  }

  // When it is an order.

  /** Inside a document the comparison is document order. */
  lemma LessWithin(f: Family, i: Item, j: Item)
    requires FamilyOk(f) && Among(f, i) && Among(f, j) && i.root == j.root
    ensures Less(f, i, j) == DocLess(f[i.root].doc.t, i.x, j.x)
  {
    assert PlaceOk(f, i.root);
    if Key(f, i).Buf? && Key(f, j).Buf? {
      ShortcutSound(f[i.root].doc, i.x, j.x);
    }
  }

  /** Of two different items exactly one is less. */
  lemma LessTotal(f: Family, i: Item, j: Item)
    requires FamilyOk(f) && Among(f, i) && Among(f, j) && i != j
    ensures Less(f, i, j) <==> !Less(f, j, i)
  {
    if i.root == j.root {
      LessWithin(f, i, j);
      LessWithin(f, j, i);
      DocLessTotal(f[i.root].doc.t, i.x, j.x);
    } else {
      assert Apart(f, i.root, j.root);
      KeysAreBuffers(f, i);
      KeysAreBuffers(f, j);
    }
  }

  /** Some item of the document has a string in the buffer. */
  ghost predicate Keyed(f: Family, r: Ref) {
    exists x :: Among(f, Item(r, x)) && Key(f, Item(r, x)).Buf?
  }

  /** Buffers with strings lie in the order of the roots. */
  ghost predicate BuffersInOrder(f: Family) {
    forall r, s {:trigger Keyed(f, r), Keyed(f, s)} | r in f && s in f && r < s && Keyed(f, r) && Keyed(f, s) :: f[r].base <= f[s].base
  }

  ghost predicate Transitive(f: Family)
    requires FamilyOk(f)
  {
    forall i, j, k | Among(f, i) && Among(f, j) && Among(f, k) && i != j && j != k && i != k && Less(f, i, j) && Less(f, j, k) :: Less(f, i, k)
  }

  lemma LessApart(f: Family, i: Item, j: Item)
    requires FamilyOk(f) && BuffersInOrder(f) && Among(f, i) && Among(f, j) && i.root < j.root
    ensures Less(f, i, j) && !Less(f, j, i)
  {
    assert Apart(f, i.root, j.root);
    KeysAreBuffers(f, i);
    KeysAreBuffers(f, j);
    if Key(f, i).Buf? && Key(f, j).Buf? {
      assert i == Item(i.root, i.x) && j == Item(j.root, j.x);
      assert Keyed(f, i.root) && Keyed(f, j.root);
    }
  }

  lemma OrderedTransitive(f: Family, i: Item, j: Item, k: Item)
    requires FamilyOk(f) && BuffersInOrder(f) && Among(f, i) && Among(f, j) && Among(f, k) && Less(f, i, j) && Less(f, j, k)
    ensures Less(f, i, k)
  {
    LessOrRoot(f, i, j);
    LessOrRoot(f, j, k);
    if i.root == k.root {
      LessWithin(f, i, k);
      DocLessTransitive(f[i.root].doc.t, i.x, j.x, k.x);
    } else {
      LessApart(f, i, k);
    }
  }

  lemma LessOrRoot(f: Family, i: Item, j: Item)
    requires FamilyOk(f) && BuffersInOrder(f) && Among(f, i) && Among(f, j) && Less(f, i, j)
    ensures i.root < j.root || (i.root == j.root && DocLess(f[i.root].doc.t, i.x, j.x))
  {
    if i.root == j.root {
      LessWithin(f, i, j);
    } else if j.root < i.root {
      LessApart(f, j, i);
    }
  }

  /** If the buffers of r and s lie the other way round than the roots, three items go in a circle: x before the document s, that before y, y before x. */
  lemma Circle(f: Family, r: Ref, s: Ref, x: XNode, y: XNode)
    requires FamilyOk(f) && r in f && s in f && r < s && f[s].base < f[r].base
    requires Among(f, Item(r, x)) && Key(f, Item(r, x)).Buf? && Among(f, Item(s, y)) && Key(f, Item(s, y)).Buf?
    ensures var w := Item(s, XElem(s));
      Among(f, w) && Less(f, Item(r, x), w) && Less(f, w, Item(s, y)) && Less(f, Item(s, y), Item(r, x)) && w != Item(s, y)
  {
    var w := Item(s, XElem(s));
    assert PlaceOk(f, s) && Apart(f, r, s);
    KeysAreBuffers(f, Item(r, x));
    KeysAreBuffers(f, Item(s, y));
    var t := f[s].doc.t;
    assert DocLess(t, XElem(s), y) by {
      RootFirst(t, y);
    }
  }

  lemma RootFirst(t: Tree, y: XNode)
    requires Wf(t) && Has(t, y) && y != XElem(t.root)
    ensures DocLess(t, XElem(t.root), y)
  {
    UnderRoot(t, Owner(y));
    AncestorFirst(t, Owner(y), t.root);
  }

  /** The comparison is an order on the items of several documents exactly if their buffers lie in the order of their roots. */
  lemma SeveralExact(f: Family)
    requires FamilyOk(f)
    ensures Transitive(f) <==> BuffersInOrder(f)
  {
    if BuffersInOrder(f) {
      forall i, j, k | Among(f, i) && Among(f, j) && Among(f, k) && Less(f, i, j) && Less(f, j, k) ensures Less(f, i, k) {
        OrderedTransitive(f, i, j, k);
      }
    }
    if Transitive(f) {
      forall r, s {:trigger Keyed(f, r), Keyed(f, s)} | r in f && s in f && r < s && Keyed(f, r) && Keyed(f, s) ensures f[r].base <= f[s].base {
        if f[s].base < f[r].base {
          var x :| Among(f, Item(r, x)) && Key(f, Item(r, x)).Buf?;
          var y :| Among(f, Item(s, y)) && Key(f, Item(s, y)).Buf?;
          Circle(f, r, s, x, y);
          LessTotal(f, Item(r, x), Item(s, y));
        }
      }
    }
  }

  /** A document with its root at r and one element behind it, whose name is at the start of the buffer. */
  function SmallDoc(r: Ref): Doc {
    Doc(Tree(r, map[r := Node([r + 1], 0, 0, 1, [], Info(NodeType.Document, "", "")), r + 1 := Node([], r, 0, 0, [], Info(Element, "", ""))], map[]),
        map[Strings.NodeId(r) := Plain(), Strings.NodeId(r + 1) := Strings.Obj(Strings.Buf(0), false, Strings.Null, false, false)],
        false)
  }

  lemma SmallWf(r: Ref)
    requires r != 0
    ensures Wf(SmallDoc(r).t)
  {
    var t := SmallDoc(r).t;
    forall n, i {:trigger ChildWf(t, n, i)} | n in t.node && 0 <= i < |t.node[n].kids| ensures ChildWf(t, n, i) {
    }
    forall n {:trigger Attached(t, n)} | n in t.node && n != t.root ensures Attached(t, n) {
    }
  }

  lemma SmallOrder(r: Ref)
    requires r != 0
    ensures InBufferOrder(SmallDoc(r))
    ensures forall x {:trigger BufferKey(SmallDoc(r), x)} :: BufferKey(SmallDoc(r), x) == if x == XElem(r + 1) then Strings.Buf(0) else Strings.Null
  {
    var d := SmallDoc(r);
    SmallWf(r);
    forall x {:trigger Header(d, x)} ensures HeaderOk(Header(d, x)) && (x != XElem(r + 1) ==> Header(d, x) == Plain()) {
    }
  }

  /** Roots at 1 and 5, buffers at 20 and 0. */
  function TwoSmall(): Family {
    map[1 := Place(SmallDoc(1), 20, 10), 5 := Place(SmallDoc(5), 0, 10)]
  }

  lemma TwoSmallOk()
    ensures FamilyOk(TwoSmall())
  {
    SmallPlace(TwoSmall(), 1);
    SmallPlace(TwoSmall(), 5);
    SmallApart(TwoSmall(), 1, 5);
    PairOk(TwoSmall(), 1, 5);
  }

  lemma PairOk(f: Family, r: Ref, s: Ref)
    requires f.Keys == {r, s} && PlaceOk(f, r) && PlaceOk(f, s) && Apart(f, r, s) && Apart(f, s, r)
    ensures FamilyOk(f)
  {
  }

  lemma SmallApart(f: Family, r: Ref, s: Ref)
    requires r in f && s in f && f[r].doc == SmallDoc(r) && f[s].doc == SmallDoc(s) && r + 1 < s && f[s].base + f[s].size <= f[r].base
    ensures Apart(f, r, s) && Apart(f, s, r)
  {
  }

  lemma SmallPlace(f: Family, r: Ref)
    requires r != 0 && r in f && f[r].doc == SmallDoc(r) && f[r].size > 0
    ensures PlaceOk(f, r)
  {
    SmallOrder(r);
  }

  lemma SmallItem(f: Family, r: Ref)
    requires r != 0 && r in f && f[r].doc == SmallDoc(r)
    ensures Among(f, Item(r, XElem(r + 1))) && Key(f, Item(r, XElem(r + 1))).Buf?
  {
    SmallOrder(r);
  }

  /** The element of the first document, the second document and its element go in a circle. */
  lemma SeveralExample()
    ensures var f, i, j, k := TwoSmall(), Item(1, XElem(2)), Item(5, XElem(5)), Item(5, XElem(6));
      && FamilyOk(f) && !Transitive(f) && Among(f, i) && Among(f, j) && Among(f, k)
      && Less(f, i, j) && Less(f, j, k) && Less(f, k, i)
  {
    TwoSmallOk();
    SmallItem(TwoSmall(), 1);
    SmallItem(TwoSmall(), 5);
    Circle(TwoSmall(), 1, 5, XElem(2), XElem(6));
    LessTotal(TwoSmall(), Item(1, XElem(2)), Item(5, XElem(6)));
  }
}
