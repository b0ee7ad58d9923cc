/**
 * The short cut of the document order comparison: two items whose text still lies in the parsed buffer are
 * compared by address. It is sound in every state that editing can reach.
 */
module BufferOrder {
  import opened Sequences
  import opened XmlTree
  import opened Steps
  import opened DocumentOrder
  import opened DomLinks
  import opened TreeEdits
  import opened CopyTree
  import opened OrderKept
  import Strings

  /** The tree with the string headers of its nodes and attributes; moved is the mark on the document. */
  datatype Doc = Doc(t: Tree, head: map<Strings.Id, Strings.Obj>, moved: bool)

  function IdOf(x: XNode): Strings.Id {
    match x
    case XElem(n) => Strings.NodeId(n)
    case XAttr(a, _) => Strings.AttrId(a)
    case XNull => Strings.NodeId(0)
  }

  /** The item with that id, if there is one. */
  function ItemOf(t: Tree, id: Strings.Id): XNode {
    match id
    case NodeId(n) => XElem(n)
    case AttrId(a) => if a in t.holder then XAttr(a, t.holder[a]) else XNull
  }

  lemma IdItem(t: Tree, x: XNode)
    requires Wf(t) && Has(t, x)
    ensures ItemOf(t, IdOf(x)) == x
  {
    if x.XAttr? {
      assert AttrWf(t, x.p, FindAttr(t.node[x.p].attrs, x.a));
    }
  }

  lemma ItemId(t: Tree, id: Strings.Id)
    requires Wf(t) && Has(t, ItemOf(t, id))
    ensures IdOf(ItemOf(t, id)) == id
  {
  }

  /** There are headers for the items of the tree and for nothing else. */
  ghost predicate Covers(t: Tree, head: map<Strings.Id, Strings.Obj>)
    requires Wf(t)
  {
    forall id {:trigger id in head} :: id in head <==> Has(t, ItemOf(t, id))
  }

  /** A header without strings. */
  function Plain(): Strings.Obj {
    Strings.Obj(Strings.Null, false, Strings.Null, false, false)
  }

  ghost function Header(d: Doc, x: XNode): Strings.Obj {
    if Wf(d.t) && Has(d.t, x) && IdOf(x) in d.head then d.head[IdOf(x)] else Plain()
  }

  /** The address the short cut uses; null if there is none. */
  function KeyIn(moved: bool, x: XNode, o: Strings.Obj): Strings.Ptr {
    if moved then Strings.Null
    else if x.XElem? then
      if !o.name.Null? && !o.nameOwned && !o.shared then o.name
      else if !o.value.Null? && !o.valueOwned && !o.shared then o.value
      else Strings.Null
    else if !o.nameOwned && !o.shared then o.name
    else if !o.valueOwned && !o.shared then o.value
    else Strings.Null
  }

  ghost function BufferKey(d: Doc, x: XNode): Strings.Ptr {
    KeyIn(d.moved, x, Header(d, x))
  }

  /** Does the short cut apply? */
  ghost predicate Applies(d: Doc, x: XNode, y: XNode) {
    !BufferKey(d, x).Null? && !BufferKey(d, y).Null?
  }

  /** An unshared buffer string of the item. */
  predicate HasPtr(o: Strings.Obj, p: nat) {
    !o.shared && (o.name == Strings.Buf(p) || o.value == Strings.Buf(p))
  }

  /** Heap strings are owned, buffer strings are not. */
  predicate HeaderOk(o: Strings.Obj) {
    (o.name.Heap? <==> o.nameOwned) && (o.value.Heap? <==> o.valueOwned)
  }

  /** Unless nodes have been moved, buffer strings lie in document order. */
  ghost predicate InBufferOrder(d: Doc) {
    && Wf(d.t)
    && (forall x {:trigger Header(d, x)} :: HeaderOk(Header(d, x)))
    && (!d.moved ==> forall x, y, p, q {:trigger HasPtr(Header(d, x), p), HasPtr(Header(d, y), q)} |
          Has(d.t, x) && Has(d.t, y) && DocLess(d.t, x, y) && HasPtr(Header(d, x), p) && HasPtr(Header(d, y), q) :: p < q)
  }

  /** Whenever the short cut applies it gives document order. */
  lemma ShortcutSound(d: Doc, x: XNode, y: XNode)
    requires InBufferOrder(d) && Has(d.t, x) && Has(d.t, y) && Applies(d, x, y)
    ensures BufferKey(d, x).Buf? && BufferKey(d, y).Buf?
    ensures BufferKey(d, x).off < BufferKey(d, y).off <==> DocLess(d.t, x, y)
  {
    KeyIsPtr(d, x);
    KeyIsPtr(d, y);
    DocLessTotal(d.t, x, y);
    var p, q := BufferKey(d, x).off, BufferKey(d, y).off;
    assert HasPtr(Header(d, x), p) && HasPtr(Header(d, y), q);
  }

  lemma KeyIsPtr(d: Doc, x: XNode)
    requires InBufferOrder(d) && !BufferKey(d, x).Null?
    ensures !d.moved && BufferKey(d, x).Buf? && HasPtr(Header(d, x), BufferKey(d, x).off)
  {
    assert HeaderOk(Header(d, x));
  }

  /** The comparison with its short cut; on two different items it is document order. */
  method Compare(d: Doc, x: XNode, y: XNode) returns (b: bool)
    requires InBufferOrder(d) && Has(d.t, x) && Has(d.t, y)
    ensures x != y ==> (b <==> DocLess(d.t, x, y))
    ensures x == y ==> (b <==> x.XAttr? && !Applies(d, x, y))
  {
    var lo := if IdOf(x) in d.head then KeyIn(d.moved, x, d.head[IdOf(x)]) else Strings.Null;
    var ro := if IdOf(y) in d.head then KeyIn(d.moved, y, d.head[IdOf(y)]) else Strings.Null;
    assert lo == BufferKey(d, x) && ro == BufferKey(d, y);
    if !lo.Null? && !ro.Null? {
      ShortcutSound(d, x, y);
      b := lo.off < ro.off;
    } else {
      b := DocumentOrderLess(d.t, x, y);
    }
  }

  // Editing.

  /** A header loses strings, or gets its own or shared ones; unshared buffer strings were there before. */
  predicate HeaderMayBecome(o: Strings.Obj, w: Strings.Obj) {
    HeaderOk(w) && (w.shared || ((w.name.Buf? ==> !o.shared && w.name == o.name) && (w.value.Buf? ==> !o.shared && w.value == o.value)))
  }

  /** A new item has no unshared buffer string. */
  predicate HeaderOfNew(w: Strings.Obj) {
    HeaderOk(w) && (w.shared || (!w.name.Buf? && !w.value.Buf?))
  }

  ghost predicate HeaderStep(d: Doc, e: Doc, x: XNode)
    requires Wf(d.t)
  {
    (if Has(d.t, x) then HeaderMayBecome(Header(d, x), Header(e, x)) else HeaderOfNew(Header(e, x)))
  }

  /** An edit that moves nothing: common items keep their order, and no item gains a buffer string of its own. */
  ghost predicate Gentle(d: Doc, e: Doc) {
    && Agree(d.t, e.t) && AttrsAgree(d.t, e.t) && e.moved == d.moved
    && forall x {:trigger HeaderStep(d, e, x)} :: HeaderStep(d, e, x)
  }

  /** One operation: a gentle edit, or one that marks the document. */
  ghost predicate Step(d: Doc, e: Doc) {
    Wf(e.t) && (forall x {:trigger Header(e, x)} :: HeaderOk(Header(e, x))) && (e.moved || Gentle(d, e))
  }

  lemma StepKeeps(d: Doc, e: Doc)
    requires InBufferOrder(d) && Step(d, e)
    ensures InBufferOrder(e)
  {
    if !e.moved {
      forall x, y, p, q {:trigger HasPtr(Header(e, x), p), HasPtr(Header(e, y), q)} |
        Has(e.t, x) && Has(e.t, y) && DocLess(e.t, x, y) && HasPtr(Header(e, x), p) && HasPtr(Header(e, y), q) ensures p < q
      {
        assert HeaderStep(d, e, x) && HeaderStep(d, e, y);
        assert Has(d.t, x) && Has(d.t, y);
        ItemsOrder(d.t, e.t, x, y);
        assert HasPtr(Header(d, x), p) && HasPtr(Header(d, y), q);
      }
    }
  }

  /** A run of the document. */
  ghost predicate Run(s: seq<Doc>) {
    s != [] && InBufferOrder(s[0]) && forall i | 0 <= i < |s| - 1 :: Step(s[i], s[i + 1])
  }

  /** In every reachable document the short cut is right wherever it applies. */
  lemma {:induction false} RunSound(s: seq<Doc>, i: nat)
    requires Run(s) && i < |s|
    ensures InBufferOrder(s[i])
    ensures forall x, y | Has(s[i].t, x) && Has(s[i].t, y) && Applies(s[i], x, y) ::
      BufferKey(s[i], x).Buf? && BufferKey(s[i], y).Buf? && (BufferKey(s[i], x).off < BufferKey(s[i], y).off <==> DocLess(s[i].t, x, y))
  {
    if i > 0 {
      RunSound(s, i - 1);
      assert Step(s[i - 1], s[i]);
      StepKeeps(s[i - 1], s[i]);
    }
    forall x, y | Has(s[i].t, x) && Has(s[i].t, y) && Applies(s[i], x, y)
      ensures BufferKey(s[i], x).Buf? && BufferKey(s[i], y).Buf? && (BufferKey(s[i], x).off < BufferKey(s[i], y).off <==> DocLess(s[i].t, x, y))
    {
      ShortcutSound(s[i], x, y);
    }
  }

  // Each operation is a step.

  ghost predicate HeadsOk(head: map<Strings.Id, Strings.Obj>) {
    forall id {:trigger head[id]} | id in head :: HeaderOk(head[id])
  }

  /** Old headers become shared at most, new ones have no unshared buffer string. */
  ghost predicate Grew(o: map<Strings.Id, Strings.Obj>, w: map<Strings.Id, Strings.Obj>) {
    && o.Keys <= w.Keys
    && forall id {:trigger w[id]} | id in w :: GrewAt(o, w, id)
  }

  predicate GrewAt(o: map<Strings.Id, Strings.Obj>, w: map<Strings.Id, Strings.Obj>, id: Strings.Id)
    requires id in w
  {
    if id in o then w[id] == o[id] || w[id] == o[id].(shared := true) else HeaderOfNew(w[id])
  }

  /** An item that is new in the tree has no header in the old one. */
  lemma NewItem(d: Doc, e: Doc, p: Ref, place: Place, n: Ref, x: XNode)
    requires Wf(d.t) && Wf(e.t) && OthersKept(d.t, e.t, p, place, n) && Covers(d.t, d.head) && Has(e.t, x) && !Has(d.t, x)
    ensures IdOf(x) !in d.head
  {
    if IdOf(x) in d.head {
      var y := ItemOf(d.t, IdOf(x));
      assert Has(d.t, y);
      assert OtherKept(d.t, e.t, p, place, n, Owner(y));
      IdItem(e.t, y);
      IdItem(e.t, x);
    }
  }

  /** Inserting or copying: one new subtree; old headers at most become shared. */
  lemma InsertIsStep(d: Doc, e: Doc, p: Ref, place: Place, n: Ref)
    requires InBufferOrder(d) && Wf(e.t) && e.t.root == d.t.root && n !in d.t.node && OthersKept(d.t, e.t, p, place, n) && e.moved == d.moved
    requires Covers(d.t, d.head) && Covers(e.t, e.head) && HeadsOk(e.head) && Grew(d.head, e.head)
    ensures Step(d, e)
  {
    NewSubtreeAgrees(d.t, e.t, p, place, n);
    forall x {:trigger HeaderStep(d, e, x)} ensures HeaderStep(d, e, x) {
      assert HeaderOk(Header(d, x));
      if Has(e.t, x) {
        IdItem(e.t, x);
        assert GrewAt(d.head, e.head, IdOf(x));
        if Has(d.t, x) {
          IdItem(d.t, x);
        } else {
          NewItem(d, e, p, place, n, x);
        }
      }
    }
    HeadersOk(e);
  }

  lemma HeadersOk(d: Doc)
    requires Wf(d.t) && HeadsOk(d.head)
    ensures forall x {:trigger Header(d, x)} :: HeaderOk(Header(d, x))
  {
  }

  /** Removing a subtree: the headers of the other items stay as they are. */
  lemma RemoveIsStep(d: Doc, e: Doc, c: Ref)
    requires InBufferOrder(d) && Wf(e.t) && c in d.t.node && Prunes(d.t, e.t, c) && e.moved == d.moved
    requires Covers(d.t, d.head) && Covers(e.t, e.head) && HeadsOk(e.head)
    requires forall id {:trigger e.head[id]} | id in e.head :: id in d.head && e.head[id] == d.head[id]
    ensures Step(d, e)
  {
    PruneAgrees(d.t, e.t, c);
    forall x {:trigger HeaderStep(d, e, x)} ensures HeaderStep(d, e, x) {
      assert HeaderOk(Header(d, x));
      if Has(e.t, x) {
        assert SameContents(d.t, e.t, Owner(x)) by {
          assert e.t.node[Owner(x)].kids == Without(d.t.node[Owner(x)].kids, c);
        }
        IdItem(e.t, x);
      }
    }
    HeadersOk(e);
  }

  /** Setting a name or value: the slot keeps its pointer, or is emptied, or gets a heap block. */
  lemma SetIsStep(d: Doc, e: Doc, id: Strings.Id, isName: bool, p: Strings.Ptr)
    requires InBufferOrder(d) && e.t == d.t && e.moved == d.moved && id in d.head && !p.Buf? && HeadsOk(e.head)
    requires e.head == d.head || e.head == d.head[id := Strings.SetPtr(d.head[id], isName, p)]
    ensures Step(d, e)
  {
    SameShapeAgrees(d.t, e.t);
    forall x {:trigger HeaderStep(d, e, x)} ensures HeaderStep(d, e, x) {
      assert HeaderOk(Header(d, x));
    }
    HeadersOk(e);
  }

  /** Adding an attribute. */
  lemma GainIsStep(d: Doc, e: Doc, n: Ref, i: nat, a: Attr)
    requires InBufferOrder(d) && Wf(e.t) && GainsAttr(d.t, e.t, n, i, a) && e.moved == d.moved
    requires Covers(d.t, d.head) && Covers(e.t, e.head) && HeadsOk(e.head) && e.head == d.head[Strings.AttrId(a.id) := Plain()]
    ensures Step(d, e)
  {
    GainAgrees(d.t, e.t, n, i, a);
    forall x {:trigger HeaderStep(d, e, x)} ensures HeaderStep(d, e, x) {
      assert HeaderOk(Header(d, x));
      GainedItem(d.t, e.t, n, i, a, x);
    }
    HeadersOk(e);
  }

  /** The items of the other attributes are the same. */
  lemma GainedItem(t: Tree, u: Tree, n: Ref, i: nat, a: Attr, x: XNode)
    requires Wf(t) && Wf(u) && GainsAttr(t, u, n, i, a)
    ensures IdOf(x) != Strings.AttrId(a.id) ==> Has(t, x) == Has(u, x)
    ensures IdOf(x) == Strings.AttrId(a.id) ==> !Has(t, x)
  {
    if x.XAttr? {
      if x.a == a.id {
        if Has(t, x) {
          IdItem(t, x);
          assert false;
        }
      } else if x.p == n {
        FindInserted(t.node[n].attrs, i, a, x.a);
      } else if x.p in t.node {
        assert u.node[x.p] == t.node[x.p];
      }
    }
  }

  /** Removing an attribute. */
  lemma LossIsStep(d: Doc, e: Doc, n: Ref, i: nat, a: Attr)
    requires InBufferOrder(d) && Wf(e.t) && GainsAttr(e.t, d.t, n, i, a) && e.moved == d.moved
    requires Covers(d.t, d.head) && Covers(e.t, e.head) && HeadsOk(e.head) && e.head == d.head - {Strings.AttrId(a.id)}
    ensures Step(d, e)
  {
    GainAgrees(e.t, d.t, n, i, a);
    forall x {:trigger HeaderStep(d, e, x)} ensures HeaderStep(d, e, x) {
      assert HeaderOk(Header(d, x));
      GainedItem(e.t, d.t, n, i, a, x);
    }
    HeadersOk(e);
  }

  /** Moving nodes marks the document; the short cut is off from then on. */
  lemma MarkIsStep(d: Doc, e: Doc, x: XNode, y: XNode)
    requires InBufferOrder(d) && Wf(e.t) && e.moved && HeadsOk(e.head)
    ensures Step(d, e) && !Applies(e, x, y)
  {
    HeadersOk(e);
  }
}
