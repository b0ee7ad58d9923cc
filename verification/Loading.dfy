/** From text to a live document: parse the buffer in place, build the tree with the document's own operations, keep its strings in the buffer. */
module Loading {
  import opened Sequences
  import opened Utf
  import opened XmlTree
  import opened Steps
  import opened DocumentOrder
  import opened DomLinks
  import opened TreeEdits
  import opened Document
  import opened OrderKept
  import opened BufferOrder
  import opened XmlParse
  import opened XmlRoundTrip
  import opened ParseMarks
  import opened ParseOrder
  import ParseInPlace
  import opened ParsedOrder
  import opened LiveDocument
  import opened LiveTree
  import opened XmlOutput
  import Strings

  /** Nodes are made after their parents. */
  ghost predicate Upward(t: Tree) {
    forall n, i {:trigger t.node[n].kids[i]} | n in t.node && 0 <= i < |t.node[n].kids| :: n < t.node[n].kids[i]
  }

  /** A document under construction. */
  ghost predicate Building(t: Tree, o: Heads) {
    && Wf(t) && Covers(t, o) && Upward(t)
    && forall id {:trigger o[id]} | id in o :: Untouched(o[id])
  }

  /** What was there stays; only p gains children. */
  ghost predicate Extends(t: Tree, o: Heads, u: Tree, w: Heads, p: Ref) {
    && u.root == t.root
    && (forall n {:trigger t.node[n]} | n in t.node :: ExtendsAt(t, u, p, n))
    && (forall id {:trigger o[id]} | id in o :: id in w && w[id] == o[id])
  }

  ghost predicate ExtendsAt(t: Tree, u: Tree, p: Ref, n: Ref)
    requires n in t.node
  {
    && n in u.node && SameContents(t, u, n) && (n != p ==> u.node[n].kids == t.node[n].kids)
  }

  lemma ExtendsTwice(t: Tree, o: Heads, v: Tree, h: Heads, u: Tree, w: Heads, p: Ref)
    requires Extends(t, o, v, h, p) && Extends(v, h, u, w, p)
    ensures Extends(t, o, u, w, p)
  {
    forall n {:trigger t.node[n]} | n in t.node ensures ExtendsAt(t, u, p, n) {
      assert ExtendsAt(t, v, p, n) && ExtendsAt(v, u, p, n);
    }
  }

  /** A node that is new, with everything that happens to it later, is out of sight of the others. */
  lemma ExtendsNew(t: Tree, o: Heads, v: Tree, h: Heads, u: Tree, w: Heads, p: Ref, n: Ref)
    requires Extends(t, o, v, h, p) && Extends(v, h, u, w, n) && n !in t.node
    ensures Extends(t, o, u, w, p)
  {
    forall x {:trigger t.node[x]} | x in t.node ensures ExtendsAt(t, u, p, x) {
      assert ExtendsAt(t, v, p, x) && ExtendsAt(v, u, n, x);
    }
  }

  // What has been built is not disturbed.

  lemma HeaderKept(t: Tree, o: Heads, u: Tree, w: Heads, p: Ref, x: XNode)
    requires Wf(t) && Wf(u) && Covers(t, o) && Extends(t, o, u, w, p) && Has(t, x)
    ensures Header(Doc(u, w, false), x) == Header(Doc(t, o, false), x)
  {
    assert ExtendsAt(t, u, p, Owner(x));
    IdItem(t, x);
    assert IdOf(x) in o;
  }

  lemma {:induction false} HeldOn(t: Tree, o: Heads, u: Tree, w: Heads, p: Ref, n: Ref, m: Mark)
    requires Building(t, o) && Wf(u) && Extends(t, o, u, w, p) && p < n && n in t.node && Held(Doc(t, o, false), n, m)
    ensures n in u.node && Held(Doc(u, w, false), n, m)
    decreases m, 0
  {
    assert ExtendsAt(t, u, p, n);
    HeaderKept(t, o, u, w, p, XElem(n));
    if m.Node? {
      AttrsOn(t, o, u, w, p, n, m.attrs);
      KidsOn(t, o, u, w, p, n, m.kids);
    }
  }

  lemma AttrsOn(t: Tree, o: Heads, u: Tree, w: Heads, p: Ref, n: Ref, slots: seq<ParseMarks.Slot>)
    requires Building(t, o) && Wf(u) && Extends(t, o, u, w, p) && n in t.node && AttrsHeld(Doc(t, o, false), n, slots)
    ensures n in u.node && AttrsHeld(Doc(u, w, false), n, slots)
  {
    assert ExtendsAt(t, u, p, n);
    var s := t.node[n].attrs;
    forall i | 0 <= i < |s| ensures SlotHeld(Header(Doc(u, w, false), XAttr(s[i].id, n)), slots[i]) {
      assert AttrWf(t, n, i);
      HeaderKept(t, o, u, w, p, XAttr(s[i].id, n));
      assert SlotHeld(Header(Doc(t, o, false), XAttr(s[i].id, n)), slots[i]);
    }
  }

  lemma {:induction false} KidsOn(t: Tree, o: Heads, u: Tree, w: Heads, p: Ref, n: Ref, ms: seq<Mark>)
    requires Building(t, o) && Wf(u) && Extends(t, o, u, w, p) && p < n && n in t.node && KidsHeld(Doc(t, o, false), n, ms)
    ensures n in u.node && KidsHeld(Doc(u, w, false), n, ms)
    decreases ms, 1
  {
    assert ExtendsAt(t, u, p, n);
    forall i {:trigger KidHeld(Doc(u, w, false), n, ms, i)} | 0 <= i < |ms| ensures KidHeld(Doc(u, w, false), n, ms, i) {
      assert KidHeld(Doc(t, o, false), n, ms, i) && ChildWf(t, n, i);
      HeldOn(t, o, u, w, p, t.node[n].kids[i], ms[i]);
    }
  }

  // Building.

  /** The first i children of n are held. */
  ghost predicate SomeHeld(d: Doc, n: Ref, ms: seq<Mark>, i: nat)
    requires Wf(d.t) && n in d.t.node && i <= |ms|
  {
    |d.t.node[n].kids| == i && forall j {:trigger d.t.node[n].kids[j]} | 0 <= j < i :: d.t.node[n].kids[j] in d.t.node && Held(d, d.t.node[n].kids[j], ms[j])
  }

  lemma SomeOn(t: Tree, o: Heads, u: Tree, w: Heads, n: Ref, ms: seq<Mark>, i: nat, k: Ref)
    requires Building(t, o) && Wf(u) && Extends(t, o, u, w, n) && n in t.node && i < |ms| && SomeHeld(Doc(t, o, false), n, ms, i)
    requires n in u.node && u.node[n].kids == t.node[n].kids + [k] && k in u.node && Held(Doc(u, w, false), k, ms[i])
    ensures SomeHeld(Doc(u, w, false), n, ms, i + 1)
  {
    forall j {:trigger u.node[n].kids[j]} | 0 <= j < i + 1 ensures u.node[n].kids[j] in u.node && Held(Doc(u, w, false), u.node[n].kids[j], ms[j]) {
      if j < i {
        assert u.node[n].kids[j] == t.node[n].kids[j] && ChildWf(t, n, j);
        HeldOn(t, o, u, w, n, t.node[n].kids[j], ms[j]);
      }
    }
  }

  /** A new last child of p. */
  method BuildLeaf(d: XmlDocument, p: Ref, ty: NodeType, x: Strings.Obj, o: Heads) returns (n: Ref, w: Heads)
    requires d.Valid() && Building(d.tree, o) && p in d.tree.node && d.tree.node[p].info.ty in {NodeType.Document, Element} && ty in {Element, Pcdata}
    requires Untouched(x)
    modifies d, d.dom
    ensures d.Valid() && d.moved == old(d.moved) && Building(d.tree, w) && Extends(old(d.tree), o, d.tree, w, p)
    ensures p < n && n !in old(d.tree).node && n in d.tree.node && d.tree.node[n].info.ty == ty && d.tree.node[n].kids == [] && d.tree.node[n].attrs == []
    ensures p in d.tree.node && d.tree.node[p].kids == old(d.tree).node[p].kids + [n]
    ensures w == o[Strings.NodeId(n) := x]
  {
    ghost var t := d.tree;
    n := d.InsertChild(p, ty, AtEnd);
    w := o[Strings.NodeId(n) := x];
    LeafBuilt(t, d.tree, p, n, NewInfo(ty), x, o);
  }

  lemma LeafBuilt(t: Tree, u: Tree, p: Ref, n: Ref, info: Info, x: Strings.Obj, o: Heads)
    requires Building(t, o) && Wf(u) && Grows(t, u, n, info, p, AtEnd) && Untouched(x) && p in t.node && (forall y | y in t.node :: y < n)
    ensures var w := o[Strings.NodeId(n) := x]; Building(u, w) && Extends(t, o, u, w, p)
    ensures u.node[p].kids == t.node[p].kids + [n]
  {
    var w := o[Strings.NodeId(n) := x];
    var plain := Doc(u, o[Strings.NodeId(n) := Plain()], false);
    CoversGrown(Doc(t, o, false), plain, n, info, p, AtEnd);
    forall id {:trigger id in w} ensures id in w <==> Has(u, ItemOf(u, id)) {
      assert id in plain.head <==> Has(u, ItemOf(u, id));
    }
    forall y {:trigger t.node[y]} | y in t.node ensures ExtendsAt(t, u, p, y) && u.node[y].kids == if y == p then t.node[y].kids + [n] else t.node[y].kids {
      assert u.node[y].kids == GrownList(t.node[y].kids, y == p, n, AtEnd);
      assert InsertAt(t.node[y].kids, |t.node[y].kids|, n) == t.node[y].kids + [n];
    }
    assert Strings.NodeId(n) !in o by {
      assert Strings.NodeId(n) in o <==> Has(t, ItemOf(t, Strings.NodeId(n)));
    }
    forall y, i {:trigger u.node[y].kids[i]} | y in u.node && 0 <= i < |u.node[y].kids| ensures y < u.node[y].kids[i] {
      if y in t.node && i < |t.node[y].kids| {
        assert u.node[y].kids[i] == t.node[y].kids[i];
      }
    }
  }

  /** A new last attribute of n. */
  method BuildAttribute(d: XmlDocument, n: Ref, x: Strings.Obj, o: Heads) returns (a: Ref, w: Heads)
    requires d.Valid() && Building(d.tree, o) && n in d.tree.node && d.tree.node[n].info.ty == Element && Untouched(x)
    modifies d, d.dom
    ensures d.Valid() && d.moved == old(d.moved) && Building(d.tree, w) && w == o[Strings.AttrId(a) := x] && Strings.AttrId(a) !in o
    ensures var t, u := old(d.tree), d.tree;
      && u.root == t.root && u.node == t.node[n := t.node[n].(attrs := t.node[n].attrs + [Attr(a, "", "")])]
  {
    ghost var t := d.tree;
    a := d.InsertAttribute(n, AtEnd);
    w := o[Strings.AttrId(a) := x];
    var s := t.node[n].attrs;
    assert InsertAt(s, |s|, Attr(a, "", "")) == s + [Attr(a, "", "")];
    AttributeBuilt(t, d.tree, n, |s|, Attr(a, "", ""), x, o);
    assert d.tree.node == t.node[n := t.node[n].(attrs := s + [Attr(a, "", "")])];
  }

  lemma AttributeBuilt(t: Tree, u: Tree, n: Ref, i: nat, a: Attr, x: Strings.Obj, o: Heads)
    requires Building(t, o) && Wf(u) && GainsAttr(t, u, n, i, a) && Untouched(x)
    ensures Building(u, o[Strings.AttrId(a.id) := x]) && Strings.AttrId(a.id) !in o
  {
    var w, plain := o[Strings.AttrId(a.id) := x], Doc(u, o[Strings.AttrId(a.id) := Plain()], false);
    NewAttribute(Doc(t, o, false), u, n, i, a);
    CoversGained(Doc(t, o, false), plain, n, i, a);
    forall id {:trigger id in w} ensures id in w <==> Has(u, ItemOf(u, id)) {
      assert id in plain.head <==> Has(u, ItemOf(u, id));
    }
    forall y, j {:trigger u.node[y].kids[j]} | y in u.node && 0 <= j < |u.node[y].kids| ensures y < u.node[y].kids[j] {
      assert u.node[y].kids == t.node[y].kids && t.node[y].kids[j] == u.node[y].kids[j];
    }
  }

  function SlotObj(s: ParseMarks.Slot): Strings.Obj {
    Strings.Obj(Strings.Buf(s.name), false, Strings.Buf(s.value), false, false)
  }

  /** The attributes of n so far have their strings at the first i slots. */
  ghost predicate SomeSlots(u: Tree, w: Heads, n: Ref, slots: seq<ParseMarks.Slot>, i: nat) {
    && n in u.node && |u.node[n].attrs| == i <= |slots|
    && forall j | 0 <= j < i :: Strings.AttrId(u.node[n].attrs[j].id) in w && w[Strings.AttrId(u.node[n].attrs[j].id)] == SlotObj(slots[j])
  }

  method BuildAttributes(d: XmlDocument, n: Ref, slots: seq<ParseMarks.Slot>, o: Heads) returns (w: Heads)
    requires d.Valid() && Building(d.tree, o) && n in d.tree.node && d.tree.node[n].info.ty == Element && d.tree.node[n].attrs == []
    modifies d, d.dom
    ensures d.Valid() && d.moved == old(d.moved) && Building(d.tree, w)
    ensures OnlyAttrs(old(d.tree), o, d.tree, w, n) && AttrsHeld(Doc(d.tree, w, false), n, slots)
  {
    ghost var t := d.tree;
    w := o;
    for i: nat := 0 to |slots|
      invariant d.Valid() && d.moved == old(d.moved) && Building(d.tree, w)
      invariant SomeSlots(d.tree, w, n, slots, i) && OnlyAttrs(t, o, d.tree, w, n)
    {
      ghost var v, h := d.tree, w;
      var a;
      a, w := BuildAttribute(d, n, SlotObj(slots[i]), w);
      OneMoreSlot(t, o, v, h, d.tree, w, n, slots, i, a);
    }
    SlotsBuilt(d.tree, w, n, slots);
  }

  /** Only n has changed, and only its attributes. */
  ghost predicate OnlyAttrs(t: Tree, o: Heads, u: Tree, w: Heads, n: Ref) {
    && n in t.node && n in u.node && u.root == t.root && u.node == t.node[n := t.node[n].(attrs := u.node[n].attrs)]
    && forall id {:trigger o[id]} | id in o :: id in w && w[id] == o[id]
  }

  lemma OneMoreSlot(t: Tree, o: Heads, v: Tree, h: Heads, u: Tree, w: Heads, n: Ref, slots: seq<ParseMarks.Slot>, i: nat, a: Ref)
    requires OnlyAttrs(t, o, v, h, n) && SomeSlots(v, h, n, slots, i) && i < |slots|
    requires w == h[Strings.AttrId(a) := SlotObj(slots[i])] && Strings.AttrId(a) !in h
    requires u.root == v.root && u.node == v.node[n := v.node[n].(attrs := v.node[n].attrs + [Attr(a, "", "")])]
    ensures OnlyAttrs(t, o, u, w, n) && SomeSlots(u, w, n, slots, i + 1)
  {
    forall id {:trigger o[id]} | id in o ensures id in w && w[id] == o[id] {
      assert h[id] == o[id];
    }
  }

  lemma SlotsBuilt(u: Tree, w: Heads, n: Ref, slots: seq<ParseMarks.Slot>)
    requires Building(u, w) && SomeSlots(u, w, n, slots, |slots|)
    ensures AttrsHeld(Doc(u, w, false), n, slots)
  {
    var s := u.node[n].attrs;
    forall i | 0 <= i < |s| ensures SlotHeld(Header(Doc(u, w, false), XAttr(s[i].id, n)), slots[i]) {
      assert AttrWf(u, n, i);
    }
  }

  lemma OnlyAttrsExtends(t: Tree, o: Heads, v: Tree, h: Heads, u: Tree, w: Heads, p: Ref, n: Ref)
    requires Extends(t, o, v, h, p) && OnlyAttrs(v, h, u, w, n) && n !in t.node
    ensures Extends(t, o, u, w, p)
  {
    forall x {:trigger t.node[x]} | x in t.node ensures ExtendsAt(t, u, p, x) {
      assert ExtendsAt(t, v, p, x);
    }
  }

  /** A node, and everything below it, becomes the last child of p. */
  method BuildNode(d: XmlDocument, p: Ref, m: Mark, o: Heads) returns (n: Ref, w: Heads)
    requires d.Valid() && Building(d.tree, o) && p in d.tree.node && d.tree.node[p].info.ty in {NodeType.Document, Element}
    modifies d, d.dom
    ensures d.Valid() && d.moved == old(d.moved) && Building(d.tree, w) && Extends(old(d.tree), o, d.tree, w, p)
    ensures p in d.tree.node && d.tree.node[p].kids == old(d.tree).node[p].kids + [n]
    ensures n in d.tree.node && Held(Doc(d.tree, w, false), n, m)
    decreases m, 0
  {
    ghost var t := d.tree;
    match m
    case Text(at) =>
      n, w := BuildLeaf(d, p, Pcdata, Strings.Obj(Strings.Null, false, Strings.Buf(at), false, false), o);
    case Node(name, slots, kids) =>
      n, w := BuildLeaf(d, p, Element, Strings.Obj(Strings.Buf(name), false, Strings.Null, false, false), o);
      ghost var t1, o1 := d.tree, w;
      w := BuildAttributes(d, n, slots, w);
      ghost var t2, o2 := d.tree, w;
      assert o1[Strings.NodeId(n)] == Strings.Obj(Strings.Buf(name), false, Strings.Null, false, false);
      OnlyAttrsExtends(t, o, t1, o1, t2, o2, p, n);
      w := BuildAll(d, n, kids, w);
      ExtendsNew(t, o, t2, o2, d.tree, w, p, n);
      NodeBuilt(t2, o2, d.tree, w, n, name, slots, kids);
      assert ExtendsAt(t2, d.tree, n, p);
  }

  lemma NodeBuilt(t: Tree, o: Heads, u: Tree, w: Heads, n: Ref, name: nat, slots: seq<ParseMarks.Slot>, kids: seq<Mark>)
    requires Building(t, o) && Building(u, w) && Extends(t, o, u, w, n) && n in t.node && n in u.node && AttrsHeld(Doc(t, o, false), n, slots)
    requires Strings.NodeId(n) in o && o[Strings.NodeId(n)] == Strings.Obj(Strings.Buf(name), false, Strings.Null, false, false)
    requires t.node[n].info.ty == Element && KidsHeld(Doc(u, w, false), n, kids)
    ensures Held(Doc(u, w, false), n, Mark.Node(name, slots, kids))
  {
    AttrsOn(t, o, u, w, n, n, slots);
    HeaderKept(t, o, u, w, n, XElem(n));
  }

  /** A list of nodes becomes the children of p, which has none yet. */
  method BuildAll(d: XmlDocument, p: Ref, ms: seq<Mark>, o: Heads) returns (w: Heads)
    requires d.Valid() && Building(d.tree, o) && p in d.tree.node && d.tree.node[p].info.ty in {NodeType.Document, Element} && d.tree.node[p].kids == []
    modifies d, d.dom
    ensures d.Valid() && d.moved == old(d.moved) && Building(d.tree, w) && Extends(old(d.tree), o, d.tree, w, p)
    ensures p in d.tree.node && KidsHeld(Doc(d.tree, w, false), p, ms)
    decreases ms, 1
  {
    ghost var t := d.tree;
    w := o;
    for i: nat := 0 to |ms|
      invariant d.Valid() && d.moved == old(d.moved) && Building(d.tree, w) && Extends(t, o, d.tree, w, p)
      invariant p in d.tree.node && SomeHeld(Doc(d.tree, w, false), p, ms, i)
    {
      ghost var v, h := d.tree, w;
      assert ExtendsAt(t, v, p, p);
      var n;
      n, w := BuildNode(d, p, ms[i], w);
      SomeOn(v, h, d.tree, w, p, ms, i, n);
      ExtendsTwice(t, o, v, h, d.tree, w, p);
    }
    AllBuilt(Doc(d.tree, w, false), p, ms);
  }

  lemma AllBuilt(d: Doc, p: Ref, ms: seq<Mark>)
    requires Wf(d.t) && p in d.t.node && SomeHeld(d, p, ms, |ms|)
    ensures KidsHeld(d, p, ms)
  {
    forall i {:trigger KidHeld(d, p, ms, i)} | 0 <= i < |ms| ensures KidHeld(d, p, ms, i) {
      assert Held(d, d.t.node[p].kids[i], ms[i]);
    }
  }

  // Reading what has been built.

  lemma {:induction false} ReadText(b: seq<Byte>, at: nat)
    ensures ReadString(b, at) == Strings.TextAt(b, at)
    decreases |b| - at
  {
    if at < |b| && b[at] != 0 {
      LengthInside(b, at + 1);
      ReadText(b, at + 1);
      var n := Strings.StrLen(b, at + 1);
      assert b[at..at + 1 + n] == [b[at]] + b[at + 1..at + 1 + n];
    }
  }

  lemma LengthInside(b: seq<Byte>, at: nat)
    requires at <= |b|
    ensures at + Strings.StrLen(b, at) <= |b|
  {
    Strings.StrLenBound(b, at);
  }

  lemma HeldReads(d: Doc, b: seq<Byte>, x: XNode)
    requires Wf(d.t) && Covers(d.t, d.head) && Has(d.t, x)
    ensures var o, m := Header(d, x), Strings.Mem(b, map[], d.head);
      && (o.name.Buf? ==> Reads(m, IdOf(x), true) == ReadString(b, o.name.off)) && (o.name.Null? ==> Reads(m, IdOf(x), true) == [])
      && (o.value.Buf? ==> Reads(m, IdOf(x), false) == ReadString(b, o.value.off)) && (o.value.Null? ==> Reads(m, IdOf(x), false) == [])
  {
    var o := Header(d, x);
    IdItem(d.t, x);
    assert IdOf(x) in d.head;
    if o.name.Buf? {
      ReadText(b, o.name.off);
    }
    if o.value.Buf? {
      ReadText(b, o.value.off);
    }
  }

  lemma SlotsHeldRead(d: Doc, b: seq<Byte>, n: Ref, slots: seq<ParseMarks.Slot>, i: nat)
    requires Wf(d.t) && Covers(d.t, d.head) && n in d.t.node && AttrsHeld(d, n, slots) && i <= |slots|
    ensures AttrTexts(Strings.Mem(b, map[], d.head), d.t.node[n].attrs)[i..] == ReadSlots(b, slots[i..])
    decreases |slots| - i
  {
    var s, m := d.t.node[n].attrs, Strings.Mem(b, map[], d.head);
    if i < |slots| {
      assert AttrWf(d.t, n, i) && SlotHeld(Header(d, XAttr(s[i].id, n)), slots[i]);
      HeldReads(d, b, XAttr(s[i].id, n));
      SlotsHeldRead(d, b, n, slots, i + 1);
      var r := AttrTexts(m, s);
      assert r[i..] == [r[i]] + r[i + 1..] && slots[i..][1..] == slots[i + 1..];
    }
  }

  /** The strings of a document that holds the marks are what the marks stand for. */
  lemma {:induction false} HeldRead(d: Doc, b: seq<Byte>, n: Ref, mark: Mark)
    requires Wf(d.t) && Covers(d.t, d.head) && n in d.t.node && Held(d, n, mark)
    ensures XmlOf(d.t, Contents(d.t, Strings.Mem(b, map[], d.head)), n) == Read(b, mark)
    decreases mark, 0
  {
    HeldReads(d, b, XElem(n));
    if mark.Node? {
      SlotsHeldRead(d, b, n, mark.attrs, 0);
      assert mark.attrs[0..] == mark.attrs;
      KidsHeldRead(d, b, n, mark.kids, 0);
      assert mark.kids[0..] == mark.kids;
    }
  }

  lemma {:induction false} KidsHeldRead(d: Doc, b: seq<Byte>, n: Ref, ms: seq<Mark>, i: nat)
    requires Wf(d.t) && Covers(d.t, d.head) && n in d.t.node && KidsHeld(d, n, ms) && i <= |ms|
    ensures KidsOf(d.t, Contents(d.t, Strings.Mem(b, map[], d.head)), n, i) == ReadAll(b, ms[i..])
    decreases ms, |ms| - i
  {
    if i < |ms| {
      assert KidHeld(d, n, ms, i) && ChildWf(d.t, n, i);
      HeldRead(d, b, d.t.node[n].kids[i], ms[i]);
      KidsHeldRead(d, b, n, ms, i + 1);
      assert ms[i..][0] == ms[i] && ms[i..][1..] == ms[i + 1..];
    }
  }

  // Loading.

  /** A document that has been built keeps the marks' strings in order in its buffer. */
  lemma BuiltParsed(d: Doc, ms: seq<Mark>, b: seq<Byte>)
    requires Building(d.t, d.head) && KidsHeld(d, d.t.root, ms) && d.t.node[d.t.root].attrs == [] && Spaced(b, AllOffsets(ms))
    requires Strings.NodeId(d.t.root) in d.head && d.head[Strings.NodeId(d.t.root)] == Plain()
    ensures Parsed(d, ms) && InBufferOrder(d) && Strings.Inv(Strings.Mem(b, map[], d.head))
  {
    forall x {:trigger Header(d, x)} ensures HeaderOk(Header(d, x)) {
    }
    ParsedInBufferOrder(d, ms, b);
    ParsedSound(d, ms, b);
  }

  /**
   * Load a zero-terminated buffer. The outcome is that of the machine on the text; the document's nodes point at the
   * strings that the parser has left in the buffer, nothing is shared or overlaps, and addresses are in document order.
   */
  method Load(a: array<Byte>, fragment: bool) returns (ok: bool, doc: LiveDocument?, ghost ms: seq<Mark>)
    requires a.Length > 0 && a[a.Length - 1] == 0
    modifies a
    ensures var r := XmlParse.Run(old(a[..]), Main(0, [Frame([], [], [])]), fragment);
      ok == r.Done? && (ok ==> AllMarked(a[..], ms, r.kids))
    ensures ok ==> doc != null && fresh(doc) && fresh(doc.d) && fresh(doc.d.dom) && fresh(doc.st) && doc.st.buf == a
    ensures ok ==> doc.Valid() && Parsed(doc.State(), ms)
    ensures ok ==> KidsOf(doc.d.tree, Contents(doc.d.tree, doc.st.Memory()), doc.d.root, 0) == ReadAll(a[..], ms)
    ensures ok ==> var xs := XmlParse.Run(old(a[..]), Main(0, [Frame([], [], [])]), fragment).kids;
      KidsOf(doc.d.tree, Contents(doc.d.tree, doc.st.Memory()), doc.d.root, 0) == xs <==> AllZeroless(xs)
  {
    var kids;
    ok, kids := ParseInPlace.ParseBuffer(a, fragment);
    doc, ms := null, kids;
    if ok {
      var d := new XmlDocument();
      var o := map[Strings.NodeId(d.root) := Plain()];
      EmptyBuilding(d.tree, o);
      ghost var t := d.tree;
      var w := BuildAll(d, d.root, kids, o);
      assert ExtendsAt(t, d.tree, d.root, d.root);
      assert o[Strings.NodeId(d.root)] == Plain();
      BuiltParsed(Doc(d.tree, w, false), kids, a[..]);
      var st := new Strings.Store(a, w);
      doc := new LiveDocument(d, st);
      KidsHeldRead(Doc(d.tree, w, false), a[..], d.root, kids, 0);
      assert kids[0..] == kids;
      ReadExact(a[..], kids, XmlParse.Run(old(a[..]), Main(0, [Frame([], [], [])]), fragment).kids);
    }
  }

  /** Loading the print of a tree gives a document that says the same. */
  method Reload(a: array<Byte>, ghost xs: seq<Xml>, fragment: bool) returns (doc: LiveDocument)
    requires AllOk(xs) && (fragment || AllElems(xs)) && a[..] == PrintAll(xs) + [0]
    modifies a
    ensures fresh(doc) && fresh(doc.d) && fresh(doc.d.dom) && fresh(doc.st) && doc.st.buf == a && doc.Valid()
    ensures KidsOf(doc.d.tree, Contents(doc.d.tree, doc.st.Memory()), doc.d.root, 0) == xs
  {
    RoundTrip(a[..], xs, fragment);
    ParseInPlace.AllOkZeroless(xs);
    assert a[a.Length - 1] == a[..][|PrintAll(xs)|] == 0;
    ghost var ms;
    var ok, d;
    ok, d, ms := Load(a, fragment);
    doc := d;
  }

  lemma EmptyBuilding(t: Tree, o: Heads)
    requires Wf(t) && t.node.Keys == {t.root} && t.node[t.root].kids == [] && t.node[t.root].attrs == []
    requires o == map[Strings.NodeId(t.root) := Plain()]
    ensures Building(t, o)
  {
    forall id {:trigger id in o} ensures id in o <==> Has(t, ItemOf(t, id)) {
    }
  }
}
