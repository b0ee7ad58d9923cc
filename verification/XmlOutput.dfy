/** Printing a document in raw format: a stackless walk that writes start tags, text and end tags. */
module XmlOutput {
  import opened Sequences
  import opened XmlTree
  import Steps
  import opened Utf
  import opened TextSpec
  import opened Writer
  import opened XmlText
  import opened XmlParse
  import opened XmlRoundTrip

  /** The strings of a node, as bytes. */
  datatype Content = Content(name: seq<Byte>, value: seq<Byte>, attrs: seq<Attribute>)

  /** Documents of elements and character data only; text has no children. */
  ghost predicate Simple(t: Tree, c: map<Ref, Content>) {
    && Wf(t) && c.Keys == t.node.Keys
    && forall n {:trigger SimpleAt(t, n)} | n in t.node :: SimpleAt(t, n)
  }

  predicate SimpleAt(t: Tree, n: Ref)
    requires n in t.node
  {
    && t.node[n].info.ty in {NodeType.Document, Element, Pcdata}
    && (n != t.root ==> t.node[n].info.ty != NodeType.Document)
    && (t.node[n].info.ty == Pcdata ==> t.node[n].kids == [])
  }

  /** All that is to be written is whole, and has no zeros. */
  ghost predicate Writable(w: BufferedWriter, c: map<Ref, Content>)
    reads w
  {
    forall n {:trigger c[n]} | n in c :: ContentWritable(w, c[n])
  }

  ghost predicate ContentWritable(w: BufferedWriter, x: Content)
    reads w
  {
    && w.Accepts(x.name) && w.Accepts(x.value) && 0 !in x.value
    && forall i | 0 <= i < |x.attrs| :: w.Accepts(x.attrs[i].name) && w.Accepts(x.attrs[i].value) && 0 !in x.attrs[i].value
  }

  predicate IsElement(t: Tree, n: Ref)
    requires n in t.node
  {
    t.node[n].info.ty == Element
  }

  /** The tree below a node as a value. */
  function XmlOf(t: Tree, c: map<Ref, Content>, n: Ref): Xml
    requires Wf(t) && c.Keys == t.node.Keys && n in t.node
    decreases t.node[n].rank, |t.node[n].kids| + 1
  {
    if t.node[n].info.ty == Pcdata then Chars(c[n].value) else Elem(c[n].name, c[n].attrs, KidsOf(t, c, n, 0))
  }

  function KidsOf(t: Tree, c: map<Ref, Content>, n: Ref, i: nat): seq<Xml>
    requires Wf(t) && c.Keys == t.node.Keys && n in t.node && i <= |t.node[n].kids|
    decreases t.node[n].rank, |t.node[n].kids| - i
  {
    if i == |t.node[n].kids| then [] else
      assert ChildWf(t, n, i);
      [XmlOf(t, c, t.node[n].kids[i])] + KidsOf(t, c, n, i + 1)
  }

  /** What is written for a node; the document itself has no tags. */
  function Written(t: Tree, c: map<Ref, Content>, n: Ref): seq<Byte>
    requires Wf(t) && c.Keys == t.node.Keys && n in t.node
  {
    if t.node[n].info.ty == NodeType.Document then PrintAll(KidsOf(t, c, n, 0)) else Print(XmlOf(t, c, n))
  }

  function EndTag(t: Tree, c: map<Ref, Content>, n: Ref): seq<Byte>
    requires c.Keys == t.node.Keys && n in t.node
  {
    if IsElement(t, n) then [LT, SLASH] + (c[n].name + [GT]) else []
  }

  /** What is still to be written after a node, up to the end of top. */
  function Remaining(t: Tree, c: map<Ref, Content>, n: Ref, top: Ref): seq<Byte>
    requires Wf(t) && c.Keys == t.node.Keys && n in t.node && Under(t, n, top)
    decreases t.node[t.root].rank - t.node[n].rank
  {
    if n == top then [] else
      PrintAll(KidsOf(t, c, Parent(t, n), t.node[n].index + 1)) + (EndTag(t, c, Parent(t, n)) + Remaining(t, c, Parent(t, n), top))
  }

  // The pieces.

  method OutputAttributes(w: BufferedWriter, x: Content)
    requires w.Valid() && ContentWritable(w, x)
    modifies w, w.buffer
    ensures w.Valid() && w.Contents() == old(w.Contents()) + PrintAttrs(x.attrs)
  {
    ghost var before := w.Contents();
    assert x.attrs[0..] == x.attrs;
    for i: nat := 0 to |x.attrs|
      invariant w.Valid() && w.Contents() + PrintAttrs(x.attrs[i..]) == before + PrintAttrs(x.attrs)
    {
      var a := x.attrs[i];
      assert x.attrs[i..][0] == a && x.attrs[i..][1..] == x.attrs[i + 1..];
      ghost var now := w.Contents();
      OutputAttribute(w, a);
      AppendAssociative(now, PrintAttr(a), PrintAttrs(x.attrs[i + 1..]));
    }
    assert PrintAttrs(x.attrs[|x.attrs|..]) == [];
    assert w.Contents() + [] == w.Contents();
  }

  lemma PiecesWhole(s: seq<Byte>)
    requires forall i | 0 <= i < |s| :: s[i] < 128
    ensures Whole(s)
  {
    AsciiWhole(s);
  }

  method OutputAttribute(w: BufferedWriter, a: Attribute)
    requires w.Valid() && w.Accepts(a.name) && w.Accepts(a.value) && 0 !in a.value
    modifies w, w.buffer
    ensures w.Valid() && w.Contents() == old(w.Contents()) + PrintAttr(a)
  {
    ghost var s0, v := w.Contents(), Escaped(a.value, true);
    PiecesWhole([SPACE]);
    PiecesWhole([EQ, QUOT]);
    PiecesWhole([QUOT]);
    w.Write([SPACE]);
    w.WriteString(a.name);
    w.Write([EQ, QUOT]);
    TextOutputEscaped(w, a.value, true);
    w.Write([QUOT]);
    FivePieces(s0, [SPACE], a.name, [EQ, QUOT], v, [QUOT]);
  }

  lemma FivePieces(s: seq<Byte>, a: seq<Byte>, b: seq<Byte>, c: seq<Byte>, d: seq<Byte>, e: seq<Byte>)
    ensures s + a + b + c + d + e == s + (a + (b + (c + (d + e))))
  {
  }

  lemma ThreePieces(s: seq<Byte>, a: seq<Byte>, b: seq<Byte>, c: seq<Byte>)
    ensures s + a + b + c == s + (a + (b + c))
  {
  }

  /** The start tag; without children it is the whole element. */
  method OutputStart(w: BufferedWriter, t: Tree, c: map<Ref, Content>, n: Ref)
    requires w.Valid() && Simple(t, c) && Writable(w, c) && n in t.node && IsElement(t, n)
    modifies w, w.buffer
    ensures w.Valid() && w.Contents() == old(w.Contents()) + StartTag(t, c, n)
  {
    ghost var s0 := w.Contents();
    var x := c[n];
    PiecesWhole([LT]);
    PiecesWhole([SPACE, SLASH, GT]);
    PiecesWhole([GT]);
    w.Write([LT]);
    w.WriteString(x.name);
    OutputAttributes(w, x);
    ghost var s1 := w.Contents();
    if t.node[n].kids == [] {
      w.Write([SPACE, SLASH, GT]);
    } else {
      w.Write([GT]);
    }
    StartPieces(s0, [LT], x.name, PrintAttrs(x.attrs), if t.node[n].kids == [] then [SPACE, SLASH, GT] else [GT]);
  }

  lemma StartPieces(s: seq<Byte>, a: seq<Byte>, b: seq<Byte>, c: seq<Byte>, d: seq<Byte>)
    ensures s + a + b + c + d == s + (a + (b + (c + d)))
  {
  }

  function StartTag(t: Tree, c: map<Ref, Content>, n: Ref): seq<Byte>
    requires Wf(t) && c.Keys == t.node.Keys && n in t.node
  {
    [LT] + (c[n].name + (PrintAttrs(c[n].attrs) + if t.node[n].kids == [] then [SPACE, SLASH, GT] else [GT]))
  }

  method OutputEnd(w: BufferedWriter, t: Tree, c: map<Ref, Content>, n: Ref)
    requires w.Valid() && Simple(t, c) && Writable(w, c) && n in t.node
    modifies w, w.buffer
    ensures w.Valid() && w.Contents() == old(w.Contents()) + EndTag(t, c, n)
  {
    ghost var s0 := w.Contents();
    assert s0 + [] == s0;
    if t.node[n].info.ty == Element {
      var name := c[n].name;
      PiecesWhole([LT, SLASH]);
      PiecesWhole([GT]);
      w.Write([LT, SLASH]);
      w.WriteString(name);
      w.Write([GT]);
      ThreePieces(s0, [LT, SLASH], name, [GT]);
    }
  }

  // The walk.

  /** An element is its start tag, its children and its end tag. */
  lemma ElementParts(t: Tree, c: map<Ref, Content>, n: Ref)
    requires Simple(t, c) && n in t.node && IsElement(t, n)
    ensures t.node[n].kids == [] ==> Written(t, c, n) == StartTag(t, c, n)
    ensures t.node[n].kids != [] ==> Written(t, c, n) == StartTag(t, c, n) + (PrintAll(KidsOf(t, c, n, 0)) + EndTag(t, c, n))
  {
    var x := c[n];
    KidsEmpty(t, c, n);
    assert Written(t, c, n) == Print(Elem(x.name, x.attrs, KidsOf(t, c, n, 0)));
    if t.node[n].kids != [] {
      ElementRegroup([LT], x.name, PrintAttrs(x.attrs), [GT], PrintAll(KidsOf(t, c, n, 0)), EndTag(t, c, n));
    }
  }

  lemma KidsEmpty(t: Tree, c: map<Ref, Content>, n: Ref)
    requires Wf(t) && c.Keys == t.node.Keys && n in t.node
    ensures KidsOf(t, c, n, 0) == [] <==> t.node[n].kids == []
  {
  }

  lemma ElementRegroup(a: seq<Byte>, b: seq<Byte>, c: seq<Byte>, d: seq<Byte>, e: seq<Byte>, f: seq<Byte>)
    ensures a + (b + (c + (d + (e + f)))) == a + (b + (c + d)) + (e + f)
  {
  }

  lemma FirstKid(t: Tree, c: map<Ref, Content>, n: Ref, i: nat)
    requires Simple(t, c) && n in t.node && i < |t.node[n].kids|
    ensures var k := t.node[n].kids[i];
      k in t.node && k != t.root && PrintAll(KidsOf(t, c, n, i)) == Written(t, c, k) + PrintAll(KidsOf(t, c, n, i + 1))
  {
    var k := t.node[n].kids[i];
    assert ChildWf(t, n, i) && SimpleAt(t, k);
    assert KidsOf(t, c, n, i)[1..] == KidsOf(t, c, n, i + 1);
  }

  /** A node with children: its start tag, then from the first child on. */
  lemma WrittenStep(t: Tree, c: map<Ref, Content>, n: Ref, top: Ref)
    requires Simple(t, c) && n in t.node && top in t.node && Under(t, n, top) && t.node[n].kids != []
    ensures var k := t.node[n].kids[0];
      && k in t.node && k != top && Under(t, k, top)
      && Written(t, c, n) + Remaining(t, c, n, top) == Opening(t, c, n) + (Written(t, c, k) + Remaining(t, c, k, top))
  {
    var k := t.node[n].kids[0];
    assert ChildWf(t, n, 0) && SimpleAt(t, n);
    UnderRank(t, n, top);
    FirstKid(t, c, n, 0);
    var w, later, end, rest := Written(t, c, k), PrintAll(KidsOf(t, c, n, 1)), EndTag(t, c, n), Remaining(t, c, n, top);
    if IsElement(t, n) {
      ElementParts(t, c, n);
      StepRegroup(StartTag(t, c, n), w, later, end, rest);
    } else {
      StepRegroup([], w, later, [], rest);
      assert Written(t, c, n) == [] + (w + later + []);
    }
  }

  lemma StepRegroup(a: seq<Byte>, w: seq<Byte>, l: seq<Byte>, e: seq<Byte>, r: seq<Byte>)
    ensures a + (w + l + e) + r == a + (w + (l + (e + r)))
  {
  }

  /** What is written when a node is reached. */
  function Opening(t: Tree, c: map<Ref, Content>, n: Ref): seq<Byte>
    requires Wf(t) && c.Keys == t.node.Keys && n in t.node
  {
    if IsElement(t, n) then StartTag(t, c, n)
    else if t.node[n].info.ty == Pcdata then Escaped(c[n].value, false)
    else []
  }

  lemma WrittenLeaf(t: Tree, c: map<Ref, Content>, n: Ref)
    requires Simple(t, c) && n in t.node && t.node[n].kids == []
    ensures Written(t, c, n) == Opening(t, c, n)
  {
    assert SimpleAt(t, n);
    KidsEmpty(t, c, n);
    if IsElement(t, n) {
      ElementParts(t, c, n);
    }
  }

  /** The next sibling below top, if there is one. */
  lemma NextUnder(t: Tree, n: Ref, top: Ref)
    requires Wf(t) && n in t.node && top in t.node && Under(t, n, top) && n != top
    ensures n != t.root && Under(t, Parent(t, n), top)
    ensures var kids, i, s := t.node[Parent(t, n)].kids, t.node[n].index, NextSibling(t, n);
      if i + 1 < |kids| then s == kids[i + 1] && s != 0 && s in t.node && s != top && s != t.root && Parent(t, s) == Parent(t, n) && t.node[s].index == i + 1 else s == 0
  {
    var p, i := Parent(t, n), t.node[n].index;
    UnderRank(t, p, top);
    if i + 1 < |t.node[p].kids| {
      assert ChildWf(t, p, i + 1);
    }
  }

  lemma RemainingStep(t: Tree, c: map<Ref, Content>, n: Ref, top: Ref)
    requires Simple(t, c) && n in t.node && top in t.node && Under(t, n, top) && n != top
    ensures n != t.root && Under(t, Parent(t, n), top)
    ensures var s := NextSibling(t, n);
      s != 0 ==> s in t.node && s != top && Under(t, s, top) && Remaining(t, c, n, top) == Written(t, c, s) + Remaining(t, c, s, top)
    ensures NextSibling(t, n) == 0 ==> Remaining(t, c, n, top) == EndTag(t, c, Parent(t, n)) + Remaining(t, c, Parent(t, n), top)
  {
    var p, i := Parent(t, n), t.node[n].index;
    NextUnder(t, n, top);
    if NextSibling(t, n) != 0 {
      RemainingKid(t, c, p, i, top);
    } else {
      assert KidsOf(t, c, p, i + 1) == [];
      assert [] + (EndTag(t, c, p) + Remaining(t, c, p, top)) == EndTag(t, c, p) + Remaining(t, c, p, top);
    }
  }

  lemma RemainingKid(t: Tree, c: map<Ref, Content>, p: Ref, i: nat, top: Ref)
    requires Simple(t, c) && p in t.node && i + 1 < |t.node[p].kids| && top in t.node && Under(t, p, top)
    ensures t.node[p].kids[i + 1] in t.node
    ensures PrintAll(KidsOf(t, c, p, i + 1)) + (EndTag(t, c, p) + Remaining(t, c, p, top))
         == Written(t, c, t.node[p].kids[i + 1]) + (PrintAll(KidsOf(t, c, p, i + 2)) + (EndTag(t, c, p) + Remaining(t, c, p, top)))
  {
    FirstKid(t, c, p, i + 1);
    AppendAssociative(Written(t, c, t.node[p].kids[i + 1]), PrintAll(KidsOf(t, c, p, i + 2)), EndTag(t, c, p) + Remaining(t, c, p, top));
  }

  method OutputOpening(w: BufferedWriter, t: Tree, c: map<Ref, Content>, n: Ref)
    requires w.Valid() && Simple(t, c) && Writable(w, c) && n in t.node
    modifies w, w.buffer
    ensures w.Valid() && w.Contents() == old(w.Contents()) + Opening(t, c, n)
  {
    assert SimpleAt(t, n) && ContentWritable(w, c[n]);
    assert w.Contents() + [] == w.Contents();
    if t.node[n].info.ty == Element {
      OutputStart(w, t, c, n);
    } else if t.node[n].info.ty == Pcdata {
      TextOutputEscaped(w, c[n].value, false);
    }
  }

  /** Up to the next node, closing what is left; top says that the walk is over. */
  method ClimbOutput(w: BufferedWriter, t: Tree, c: map<Ref, Content>, from: Ref, top: Ref) returns (n: Ref)
    requires w.Valid() && Simple(t, c) && Writable(w, c) && from in t.node && top in t.node && Under(t, from, top)
    modifies w, w.buffer
    ensures w.Valid() && n in t.node && Under(t, n, top)
    ensures n != top ==> w.Contents() + (Written(t, c, n) + Remaining(t, c, n, top)) == old(w.Contents()) + Remaining(t, c, from, top)
    ensures n != top ==> Rest(t, from, top) == Pre(t, n) + Rest(t, n, top)
    ensures n == top ==> w.Contents() == old(w.Contents()) + Remaining(t, c, from, top)
  {
    n := from;
    ghost var total := w.Contents() + Remaining(t, c, from, top);
    while n != top
      invariant w.Valid() && n in t.node && Under(t, n, top) && w.Contents() + Remaining(t, c, n, top) == total
      invariant Rest(t, from, top) == Rest(t, n, top)
      decreases t.node[t.root].rank - t.node[n].rank
    {
      var next := NextSibling(t, n);
      RestStep(t, n, top);
      if next != 0 {
        assert w.Contents() + (Written(t, c, next) + Remaining(t, c, next, top)) == total by {
          RemainingStep(t, c, n, top);
        }
        n := next;
        return;
      }
      assert Remaining(t, c, n, top) == EndTag(t, c, Parent(t, n)) + Remaining(t, c, Parent(t, n), top) && Under(t, Parent(t, n), top) by {
        RemainingStep(t, c, n, top);
      }
      n := LeaveNode(w, t, c, n, top);
    }
    assert w.Contents() + [] == w.Contents();
  }

  /** The last child of its parent is done: print the parent's end tag. */
  method LeaveNode(w: BufferedWriter, t: Tree, c: map<Ref, Content>, n: Ref, ghost top: Ref) returns (p: Ref)
    requires w.Valid() && Simple(t, c) && Writable(w, c) && n in t.node && n != t.root && NextSibling(t, n) == 0
    requires top in t.node && Parent(t, n) in t.node && Under(t, Parent(t, n), top)
    requires Remaining(t, c, n, top) == EndTag(t, c, Parent(t, n)) + Remaining(t, c, Parent(t, n), top)
    modifies w, w.buffer
    ensures p == Parent(t, n) && w.Valid() && w.Contents() + Remaining(t, c, p, top) == old(w.Contents()) + Remaining(t, c, n, top)
  {
    ghost var now := w.Contents();
    p := Parent(t, n);
    OutputEnd(w, t, c, p);
    AppendAssociative(now, EndTag(t, c, p), Remaining(t, c, p, top));
  }

  /** Print everything below top. */
  method NodeOutput(w: BufferedWriter, t: Tree, c: map<Ref, Content>, top: Ref)
    requires w.Valid() && Simple(t, c) && Writable(w, c) && top in t.node
    modifies w, w.buffer
    ensures w.Valid() && w.Contents() == old(w.Contents()) + Written(t, c, top)
  {
    var n, done := top, false;
    ghost var total := w.Contents() + Written(t, c, top);
    assert Written(t, c, top) + [] == Written(t, c, top);
    while !done
      invariant w.Valid() && n in t.node && Under(t, n, top)
      invariant !done ==> w.Contents() + (Written(t, c, n) + Remaining(t, c, n, top)) == total
      invariant done ==> w.Contents() == total
      decreases if done then 0 else 1 + |Pre(t, n)| + |Rest(t, n, top)|
    {
      n, done := OutputNode(w, t, c, n, top);
    }
  }

  /** One node of the walk. */
  method OutputNode(w: BufferedWriter, t: Tree, c: map<Ref, Content>, n: Ref, top: Ref) returns (next: Ref, done: bool)
    requires w.Valid() && Simple(t, c) && Writable(w, c) && n in t.node && top in t.node && Under(t, n, top)
    modifies w, w.buffer
    ensures w.Valid() && next in t.node && Under(t, next, top)
    ensures !done ==> w.Contents() + (Written(t, c, next) + Remaining(t, c, next, top)) == old(w.Contents()) + (Written(t, c, n) + Remaining(t, c, n, top))
    ensures done ==> w.Contents() == old(w.Contents()) + (Written(t, c, n) + Remaining(t, c, n, top))
    ensures !done ==> |Pre(t, next)| + |Rest(t, next, top)| < |Pre(t, n)| + |Rest(t, n, top)|
  {
    ghost var now := w.Contents();
    OutputOpening(w, t, c, n);
    if t.node[n].kids != [] {
      WrittenStep(t, c, n, top);
      Steps.Descend(t, n, top);
      next, done := t.node[n].kids[0], false;
      AppendAssociative(now, Opening(t, c, n), Written(t, c, next) + Remaining(t, c, next, top));
    } else {
      WrittenLeaf(t, c, n);
      AppendAssociative(now, Opening(t, c, n), Remaining(t, c, n, top));
      next := ClimbOutput(w, t, c, n, top);
      done := next == top;
    }
  }

  /** What is printed for a document parses back to it: elements and text, with proper names, no empty or adjacent text. */
  lemma WrittenParsed(t: Tree, c: map<Ref, Content>, fragment: bool)
    requires Simple(t, c) && t.node[t.root].info.ty == NodeType.Document
    requires AllOk(KidsOf(t, c, t.root, 0)) && (fragment || AllElems(KidsOf(t, c, t.root, 0)))
    ensures Run(Written(t, c, t.root) + [0], Main(0, [Frame([], [], [])]), fragment) == Done(KidsOf(t, c, t.root, 0))
  {
    RoundTrip(Written(t, c, t.root) + [0], KidsOf(t, c, t.root, 0), fragment);
  }
}
