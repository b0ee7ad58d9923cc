/** A freshly parsed document has its strings in the buffer in document order, so the address short cut starts out sound. */
module ParsedOrder {
  import opened Sequences
  import opened Utf
  import opened XmlTree
  import opened Axes
  import opened Steps
  import opened DocumentOrder
  import opened BufferOrder
  import opened ParseMarks
  import opened ParseOrder
  import Strings

  // Concatenation.

  function Concat(ss: seq<seq<nat>>): seq<nat> {
    if ss == [] then [] else ss[0] + Concat(ss[1..])
  }

  lemma {:induction false} ConcatAppend(a: seq<seq<nat>>, b: seq<seq<nat>>)
    ensures Concat(a + b) == Concat(a) + Concat(b)
  {
    if a == [] {
      assert a + b == b;
    } else {
      assert (a + b)[1..] == a[1..] + b;
      ConcatAppend(a[1..], b);
    }
  }

  lemma {:induction false} ConcatIn(ss: seq<seq<nat>>, i: nat, p: nat)
    requires i < |ss| && p in ss[i]
    ensures p in Concat(ss)
    decreases i
  {
    if i > 0 {
      ConcatIn(ss[1..], i - 1, p);
    }
  }

  lemma SpacedParts(b: seq<Byte>, x: seq<nat>, y: seq<nat>, p: nat, q: nat)
    requires Spaced(b, x + y) && p in x && q in y
    ensures Ended(b, p, q)
  {
    var i :| 0 <= i < |x| && x[i] == p;
    var j :| 0 <= j < |y| && y[j] == q;
    SpacedAt(b, x + y, i, |x| + j);
  }

  lemma {:induction false} SpacedBefore(b: seq<Byte>, ss: seq<seq<nat>>, i: nat, j: nat, p: nat, q: nat)
    requires Spaced(b, Concat(ss)) && i < j < |ss| && p in ss[i] && q in ss[j]
    ensures Ended(b, p, q)
    decreases i
  {
    if i == 0 {
      ConcatIn(ss[1..], j - 1, q);
      SpacedParts(b, ss[0], Concat(ss[1..]), p, q);
    } else {
      SpacedTail(b, ss[0], Concat(ss[1..]));
      SpacedBefore(b, ss[1..], i - 1, j - 1, p, q);
    }
  }

  lemma {:induction false} SpacedBlock(b: seq<Byte>, ss: seq<seq<nat>>, i: nat) returns (a: seq<Byte>)
    requires Spaced(b, Concat(ss)) && i < |ss|
    ensures a <= b && Spaced(a, ss[i])
    decreases i
  {
    if i == 0 {
      a := SpacedHead(b, ss[0], Concat(ss[1..]));
    } else {
      SpacedTail(b, ss[0], Concat(ss[1..]));
      a := SpacedBlock(b, ss[1..], i - 1);
    }
  }

  // The strings of a document, node by node.

  function OffsetOf(p: Strings.Ptr): seq<nat> {
    if p.Buf? then [p.off] else []
  }

  function StringsOf(o: Strings.Obj): seq<nat> {
    OffsetOf(o.name) + OffsetOf(o.value)
  }

  ghost function AttrBlocks(d: Doc, n: Ref): seq<seq<nat>>
    requires n in d.t.node
  {
    var s := d.t.node[n].attrs;
    seq(|s|, i requires 0 <= i < |s| => StringsOf(Header(d, XAttr(s[i].id, n))))
  }

  /** The strings of a node and of its attributes. */
  ghost function NodeStrings(d: Doc, n: Ref): seq<nat> {
    if n in d.t.node then StringsOf(Header(d, XElem(n))) + Concat(AttrBlocks(d, n)) else []
  }

  ghost function NodeBlocks(d: Doc, s: seq<Ref>): seq<seq<nat>> {
    seq(|s|, i requires 0 <= i < |s| => NodeStrings(d, s[i]))
  }

  lemma BlocksAppend(d: Doc, a: seq<Ref>, b: seq<Ref>)
    ensures Concat(NodeBlocks(d, a + b)) == Concat(NodeBlocks(d, a)) + Concat(NodeBlocks(d, b))
  {
    var s, r := NodeBlocks(d, a + b), NodeBlocks(d, a) + NodeBlocks(d, b);
    forall i | 0 <= i < |s| ensures s[i] == r[i] {
      assert (a + b)[i] == if i < |a| then a[i] else b[i - |a|];
    }
    assert s == r;
    ConcatAppend(NodeBlocks(d, a), NodeBlocks(d, b));
  }

  /** Of two items, the string of the earlier one is terminated before that of the later one. */
  lemma ItemsSpaced(d: Doc, b: seq<Byte>, x: XNode, y: XNode, p: nat, q: nat)
    requires Wf(d.t) && Spaced(b, Concat(NodeBlocks(d, Nodes(d.t))))
    requires Has(d.t, x) && Has(d.t, y) && DocLess(d.t, x, y) && HasPtr(Header(d, x), p) && HasPtr(Header(d, y), q)
    ensures Ended(b, p, q)
  {
    var ss := NodeBlocks(d, Nodes(d.t));
    var i, j := Pos(d.t, Owner(x)), Pos(d.t, Owner(y));
    ItemStrings(d, x, p);
    ItemStrings(d, y, q);
    if i < j {
      SpacedBefore(b, ss, i, j, p, q);
    } else {
      var a := SpacedBlock(b, ss, i);
      WithinNode(d, a, x, y, p, q);
      EndedMore(a, b, p, q, q);
    }
  }

  /** If the strings of all nodes, taken in document order, follow one another, the short cut is sound. */
  lemma SpacedInBufferOrder(d: Doc, b: seq<Byte>)
    requires Wf(d.t) && Spaced(b, Concat(NodeBlocks(d, Nodes(d.t))))
    requires forall x {:trigger Header(d, x)} :: HeaderOk(Header(d, x))
    ensures InBufferOrder(d)
  {
    forall x, y, p, q {:trigger HasPtr(Header(d, x), p), HasPtr(Header(d, y), q)} |
      Has(d.t, x) && Has(d.t, y) && DocLess(d.t, x, y) && HasPtr(Header(d, x), p) && HasPtr(Header(d, y), q) ensures p < q
    {
      ItemsSpaced(d, b, x, y, p, q);
    }
  }

  lemma ItemStrings(d: Doc, x: XNode, p: nat)
    requires Wf(d.t) && Has(d.t, x) && HasPtr(Header(d, x), p)
    ensures p in StringsOf(Header(d, x)) && p in NodeStrings(d, Owner(x))
  {
    if x.XAttr? {
      ConcatIn(AttrBlocks(d, x.p), FindAttr(d.t.node[x.p].attrs, x.a), p);
    }
  }

  /** Two items of one node. */
  lemma WithinNode(d: Doc, b: seq<Byte>, x: XNode, y: XNode, p: nat, q: nat)
    requires Wf(d.t) && Has(d.t, x) && Has(d.t, y) && Owner(x) == Owner(y) && DocumentOrder.Slot(d.t, x) < DocumentOrder.Slot(d.t, y)
    requires HasPtr(Header(d, x), p) && HasPtr(Header(d, y), q) && Spaced(b, NodeStrings(d, Owner(x)))
    ensures Ended(b, p, q)
  {
    var n := Owner(x);
    var own, ss := StringsOf(Header(d, XElem(n))), AttrBlocks(d, n);
    var j := FindAttr(d.t.node[n].attrs, y.a);
    ItemStrings(d, x, p);
    ItemStrings(d, y, q);
    if x.XElem? {
      ConcatIn(ss, j, q);
      SpacedParts(b, own, Concat(ss), p, q);
    } else {
      SpacedTail(b, own, Concat(ss));
      SpacedBefore(b, ss, FindAttr(d.t.node[n].attrs, x.a), j, p, q);
    }
  }

  /** The strings of one item: its name is terminated before its value. */
  lemma WithinItem(d: Doc, b: seq<Byte>, x: XNode)
    requires Wf(d.t) && Has(d.t, x) && Spaced(b, Concat(NodeBlocks(d, Nodes(d.t))))
    ensures exists a :: a <= b && Spaced(a, StringsOf(Header(d, x)))
  {
    var n := Owner(x);
    var own, ss := StringsOf(Header(d, XElem(n))), AttrBlocks(d, n);
    var a := SpacedBlock(b, NodeBlocks(d, Nodes(d.t)), Pos(d.t, n));
    var c;
    if x.XElem? {
      c := SpacedHead(a, own, Concat(ss));
    } else {
      SpacedTail(a, own, Concat(ss));
      c := SpacedBlock(a, ss, FindAttr(d.t.node[n].attrs, x.a));
    }
    assert c <= b && Spaced(c, StringsOf(Header(d, x)));
  }

  // The document that the parser has built.

  predicate SlotHeld(o: Strings.Obj, s: ParseMarks.Slot) {
    o.name == Strings.Buf(s.name) && o.value == Strings.Buf(s.value)
  }

  ghost predicate AttrsHeld(d: Doc, n: Ref, slots: seq<ParseMarks.Slot>)
    requires n in d.t.node
  {
    var s := d.t.node[n].attrs;
    |s| == |slots| && forall i | 0 <= i < |s| :: SlotHeld(Header(d, XAttr(s[i].id, n)), slots[i])
  }

  /** The node n and what is below it are what the parser has marked. */
  ghost predicate Held(d: Doc, n: Ref, m: Mark)
    requires Wf(d.t) && n in d.t.node
    decreases m, 0
  {
    var o := Header(d, XElem(n));
    match m
    case Text(at) => d.t.node[n].info.ty == Pcdata && o.name == Strings.Null && o.value == Strings.Buf(at) && d.t.node[n].attrs == [] && d.t.node[n].kids == []
    case Node(name, slots, kids) => d.t.node[n].info.ty == Element && o.name == Strings.Buf(name) && o.value == Strings.Null && AttrsHeld(d, n, slots) && KidsHeld(d, n, kids)
  }

  ghost predicate KidsHeld(d: Doc, n: Ref, ms: seq<Mark>)
    requires Wf(d.t) && n in d.t.node
    decreases ms, 1
  {
    |d.t.node[n].kids| == |ms| && forall i {:trigger KidHeld(d, n, ms, i)} | 0 <= i < |ms| :: KidHeld(d, n, ms, i)
  }

  ghost predicate KidHeld(d: Doc, n: Ref, ms: seq<Mark>, i: nat)
    requires Wf(d.t) && n in d.t.node && i < |ms| == |d.t.node[n].kids|
    decreases ms, 0
  {
    assert ChildWf(d.t, n, i);
    Held(d, d.t.node[n].kids[i], ms[i])
  }

  lemma {:induction false} SlotsFlat(d: Doc, n: Ref, slots: seq<ParseMarks.Slot>, i: nat)
    requires n in d.t.node && AttrsHeld(d, n, slots) && i <= |slots|
    ensures Concat(AttrBlocks(d, n)[i..]) == SlotOffsets(slots[i..])
    decreases |slots| - i
  {
    var ss := AttrBlocks(d, n);
    if i < |slots| {
      SlotsFlat(d, n, slots, i + 1);
      assert ss[i..][1..] == ss[i + 1..] && slots[i..][1..] == slots[i + 1..];
      assert SlotHeld(Header(d, XAttr(d.t.node[n].attrs[i].id, n)), slots[i]);
      assert ss[i] == [slots[i].name, slots[i].value];
    }
  }

  lemma {:induction false} HeldFlat(d: Doc, n: Ref, m: Mark)
    requires Wf(d.t) && n in d.t.node && Held(d, n, m)
    ensures Concat(NodeBlocks(d, Pre(d.t, n))) == Offsets(m)
    decreases m, 0
  {
    NodeThenForest(d, n);
    match m
    case Text(at) => TextFlat(d, n, at);
    case Node(name, slots, kids) =>
      KidsFlat(d, n, kids, 0);
      assert kids[0..] == kids;
      NodeFlat(d, n, name, slots);
      AppendAssociative([name], SlotOffsets(slots), AllOffsets(kids));
  }

  lemma NodeThenForest(d: Doc, n: Ref)
    requires Wf(d.t) && n in d.t.node
    ensures Concat(NodeBlocks(d, Pre(d.t, n))) == NodeStrings(d, n) + Concat(NodeBlocks(d, Forest(d.t, n, 0)))
  {
    BlocksAppend(d, [n], Forest(d.t, n, 0));
    OneBlock(d, n);
  }

  lemma TextFlat(d: Doc, n: Ref, at: nat)
    requires Wf(d.t) && n in d.t.node && d.t.node[n].attrs == [] && d.t.node[n].kids == []
    requires Header(d, XElem(n)).name == Strings.Null && Header(d, XElem(n)).value == Strings.Buf(at)
    ensures NodeStrings(d, n) + Concat(NodeBlocks(d, Forest(d.t, n, 0))) == [at]
  {
    assert AttrBlocks(d, n) == [] && NodeBlocks(d, Forest(d.t, n, 0)) == [];
  }

  lemma NodeFlat(d: Doc, n: Ref, name: nat, slots: seq<ParseMarks.Slot>)
    requires n in d.t.node && Header(d, XElem(n)).name == Strings.Buf(name) && Header(d, XElem(n)).value == Strings.Null
    requires AttrsHeld(d, n, slots)
    ensures NodeStrings(d, n) == [name] + SlotOffsets(slots)
  {
    SlotsFlat(d, n, slots, 0);
    assert slots[0..] == slots && AttrBlocks(d, n)[0..] == AttrBlocks(d, n);
  }

  lemma OneBlock(d: Doc, n: Ref)
    ensures Concat(NodeBlocks(d, [n])) == NodeStrings(d, n)
  {
    var ss := NodeBlocks(d, [n]);
    assert ss[1..] == [] && ss[0] + [] == ss[0];
  }

  lemma {:induction false} KidsFlat(d: Doc, n: Ref, ms: seq<Mark>, i: nat)
    requires Wf(d.t) && n in d.t.node && KidsHeld(d, n, ms) && i <= |ms|
    ensures Concat(NodeBlocks(d, Forest(d.t, n, i))) == AllOffsets(ms[i..])
    decreases ms, |ms| - i
  {
    if i < |ms| {
      assert KidHeld(d, n, ms, i) && ChildWf(d.t, n, i);
      var k := d.t.node[n].kids[i];
      BlocksAppend(d, Pre(d.t, k), Forest(d.t, n, i + 1));
      HeldFlat(d, k, ms[i]);
      KidsFlat(d, n, ms, i + 1);
      assert ms[i..][1..] == ms[i + 1..];
    }
  }

  /** A parsed document: the tree with its headers is what the parser has marked, and the document node has no strings. */
  ghost predicate Parsed(d: Doc, ms: seq<Mark>) {
    && Wf(d.t) && KidsHeld(d, d.t.root, ms)
    && d.t.node[d.t.root].attrs == [] && StringsOf(Header(d, XElem(d.t.root))) == []
    && forall x {:trigger Header(d, x)} :: HeaderOk(Header(d, x))
  }

  lemma ParsedFlat(d: Doc, ms: seq<Mark>)
    requires Parsed(d, ms)
    ensures Concat(NodeBlocks(d, Nodes(d.t))) == AllOffsets(ms)
  {
    var root := d.t.root;
    NodeThenForest(d, root);
    KidsFlat(d, root, ms, 0);
    assert ms[0..] == ms;
    assert AttrBlocks(d, root) == [] && NodeStrings(d, root) == [];
    assert [] + AllOffsets(ms) == AllOffsets(ms);
  }

  /** The short cut is sound on what the parser has built. */
  lemma ParsedInBufferOrder(d: Doc, ms: seq<Mark>, b: seq<Byte>)
    requires Parsed(d, ms) && Spaced(b, AllOffsets(ms))
    ensures InBufferOrder(d)
  {
    ParsedFlat(d, ms);
    SpacedInBufferOrder(d, b);
  }

  // Its strings.

  /** Nothing is shared yet, and nothing has been allocated. */
  predicate Untouched(o: Strings.Obj) {
    !o.shared && !o.nameOwned && !o.valueOwned && !o.name.Heap? && !o.value.Heap?
  }

  lemma {:induction false} StrLenMost(b: seq<Byte>, o: nat, k: nat)
    requires o <= k < |b| && b[k] == 0
    ensures o + Strings.StrLen(b, o) <= k
    decreases k - o
  {
    if o < k {
      StrLenMost(b, o + 1, k);
    }
  }

  lemma EndedLength(b: seq<Byte>, p: nat, q: nat)
    requires Ended(b, p, q)
    ensures p + Strings.StrLen(b, p) < q
  {
    StrLenMost(b, p, p + IndexOf(b[p..q], 0));
  }

  /** The strings of a parsed document do not overlap, and end in the buffer. */
  lemma ParsedSound(d: Doc, ms: seq<Mark>, b: seq<Byte>)
    requires Parsed(d, ms) && Covers(d.t, d.head) && Spaced(b, AllOffsets(ms))
    requires forall id {:trigger d.head[id]} | id in d.head :: Untouched(d.head[id])
    ensures Strings.Inv(Strings.Mem(b, map[], d.head))
  {
    var m := Strings.Mem(b, map[], d.head);
    ParsedFlat(d, ms);
    forall s {:trigger Strings.SlotOk(m, s)} | Strings.HasSlot(m, s) ensures Strings.SlotOk(m, s) {
      SlotSound(d, b, s);
    }
    forall s, r {:trigger Strings.PairOk(m, s, r)} | Strings.HasSlot(m, s) && Strings.HasSlot(m, r) && s != r ensures Strings.PairOk(m, s, r) {
      PairSound(d, b, s, r);
    }
  }

  lemma SlotItem(d: Doc, s: Strings.Slot) returns (x: XNode)
    requires Wf(d.t) && Covers(d.t, d.head) && s.id in d.head
    ensures Has(d.t, x) && IdOf(x) == s.id && Header(d, x) == d.head[s.id]
  {
    x := ItemOf(d.t, s.id);
    assert s.id in d.head <==> Has(d.t, x);
    ItemId(d.t, s.id);
  }

  lemma SlotSound(d: Doc, b: seq<Byte>, s: Strings.Slot)
    requires Wf(d.t) && Covers(d.t, d.head) && Spaced(b, Concat(NodeBlocks(d, Nodes(d.t)))) && s.id in d.head && Untouched(d.head[s.id])
    ensures Strings.SlotOk(Strings.Mem(b, map[], d.head), s)
  {
    var p := if s.isName then d.head[s.id].name else d.head[s.id].value;
    if p.Buf? {
      var x := SlotItem(d, s);
      WithinItem(d, b, x);
      var a :| a <= b && Spaced(a, StringsOf(Header(d, x)));
      var i := IndexOf(StringsOf(Header(d, x)), p.off);
      SpacedEnd(a, StringsOf(Header(d, x)), i);
      EndedMore(a, b, p.off, |a|, |b|);
      EndedLength(b, p.off, |b|);
    }
  }

  lemma PairSound(d: Doc, b: seq<Byte>, s: Strings.Slot, r: Strings.Slot)
    requires Wf(d.t) && Covers(d.t, d.head) && Spaced(b, Concat(NodeBlocks(d, Nodes(d.t)))) && s != r
    requires s.id in d.head && r.id in d.head && Untouched(d.head[s.id]) && Untouched(d.head[r.id])
    ensures Strings.PairOk(Strings.Mem(b, map[], d.head), s, r)
  {
    var m := Strings.Mem(b, map[], d.head);
    var p, q := Strings.PtrOf(m, s), Strings.PtrOf(m, r);
    if p.Buf? && q.Buf? {
      var x := SlotItem(d, s);
      var y := SlotItem(d, r);
      DocLessTotal(d.t, x, y);
      if x == y {
        NameThenValue(d, b, x);
      } else if DocLess(d.t, x, y) {
        ItemsSpaced(d, b, x, y, p.off, q.off);
        EndedLength(b, p.off, q.off);
      } else {
        ItemsSpaced(d, b, y, x, q.off, p.off);
        EndedLength(b, q.off, p.off);
      }
    }
  }

  lemma NameThenValue(d: Doc, b: seq<Byte>, x: XNode)
    requires Wf(d.t) && Has(d.t, x) && Spaced(b, Concat(NodeBlocks(d, Nodes(d.t)))) && Header(d, x).name.Buf? && Header(d, x).value.Buf?
    ensures Header(d, x).name.off + Strings.StrLen(b, Header(d, x).name.off) < Header(d, x).value.off
  {
    WithinItem(d, b, x);
    var a :| a <= b && Spaced(a, StringsOf(Header(d, x)));
    SpacedAt(a, StringsOf(Header(d, x)), 0, 1);
    EndedMore(a, b, Header(d, x).name.off, Header(d, x).value.off, Header(d, x).value.off);
    EndedLength(b, Header(d, x).name.off, Header(d, x).value.off);
  }
}
