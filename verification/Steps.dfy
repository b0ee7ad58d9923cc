/** Location steps: node tests and the axis loops that push what passes them. */
module Steps {
  import opened Sequences
  import opened XmlTree
  import opened Axes

  /** What a node set holds: an element-like node, or an attribute together with its owner. */
  datatype XNode = XNull | XElem(n: Ref) | XAttr(a: Ref, p: Ref)

  datatype NodeTest =
    | NameTest(name: string) | TypeNode | TypeComment | TypePi | TypeText
    | PiTest(target: string) | AllTest | AllInNamespace(prefix: string)

  predicate Has(t: Tree, x: XNode)
    requires Wf(t)
  {
    match x
    case XNull => false
    case XElem(n) => n in t.node
    case XAttr(a, p) => p in t.node && FindAttr(t.node[p].attrs, a) < |t.node[p].attrs|
  }

  predicate StartsWith(s: string, prefix: string) {
    prefix <= s
  }

  /** Namespace declarations are not attributes of the XPath data model. */
  predicate IsXPathAttribute(name: string) {
    !(StartsWith(name, "xmlns") && (|name| == 5 || name[5] == ':'))
  }

  predicate AttrPasses(test: NodeTest, a: Attr) {
    match test
    case NameTest(name) => a.name == name && IsXPathAttribute(a.name)
    case TypeNode => IsXPathAttribute(a.name)
    case AllTest => IsXPathAttribute(a.name)
    case AllInNamespace(prefix) => StartsWith(a.name, prefix) && IsXPathAttribute(a.name)
    case _ => false
  }

  predicate NodePasses(test: NodeTest, info: Info) {
    match test
    case NameTest(name) => info.ty == Element && info.name == name
    case TypeNode => true
    case TypeComment => info.ty == Comment
    case TypeText => info.ty == Pcdata || info.ty == Cdata
    case TypePi => info.ty == Pi
    case PiTest(target) => info.ty == Pi && info.name == target
    case AllTest => info.ty == Element
    case AllInNamespace(prefix) => info.ty == Element && StartsWith(info.name, prefix)
  }

  /** The nodes of s that pass the test, as node set entries. */
  function Picked(t: Tree, test: NodeTest, s: seq<Ref>): seq<XNode>
    requires Wf(t)
  {
    if s == [] then []
    else if s[0] in t.node && NodePasses(test, t.node[s[0]].info) then [XElem(s[0])] + Picked(t, test, s[1..])
    else Picked(t, test, s[1..])
  }

  function PickedAttrs(test: NodeTest, s: seq<Attr>, p: Ref): seq<XNode> {
    if s == [] then []
    else if AttrPasses(test, s[0]) then [XAttr(s[0].id, p)] + PickedAttrs(test, s[1..], p)
    else PickedAttrs(test, s[1..], p)
  }

  /** The attribute itself, on the axes that contain it: only node() accepts it there. */
  function SelfAttr(t: Tree, test: NodeTest, a: Ref, p: Ref): seq<XNode>
    requires Wf(t) && Has(t, XAttr(a, p))
  {
    if test == TypeNode && AttrPasses(test, t.node[p].attrs[FindAttr(t.node[p].attrs, a)]) then [XAttr(a, p)] else []
  }

  /** Sections 2.2 and 2.3 of XPath 1.0: the nodes a step selects from x, in axis order. */
  function StepItems(t: Tree, axis: Axis, test: NodeTest, x: XNode): seq<XNode>
    requires Wf(t)
  {
    if !Has(t, x) then [] else
    match x
    case XElem(n) =>
      if axis == AttributeAxis then PickedAttrs(test, t.node[n].attrs, n)
      else Picked(t, test, AxisNodes(t, axis, n))
    case XAttr(a, p) =>
      match axis {
        case Ancestor => Picked(t, test, AxisNodes(t, AncestorOrSelf, p))
        case AncestorOrSelf => SelfAttr(t, test, a, p) + Picked(t, test, AxisNodes(t, AncestorOrSelf, p))
        case DescendantOrSelf => SelfAttr(t, test, a, p)
        case SelfAxis => SelfAttr(t, test, a, p)
        // an attribute comes after its owner and before the owner's children
        case Following => Picked(t, test, AxisNodes(t, Descendant, p)) + Picked(t, test, AxisNodes(t, Following, p))
        case ParentAxis => Picked(t, test, [p])
        case Preceding => Picked(t, test, AxisNodes(t, Preceding, p))
        case _ => []
      }
  }

  lemma {:induction false} PickedAppend(t: Tree, test: NodeTest, a: seq<Ref>, b: seq<Ref>)
    requires Wf(t)
    ensures Picked(t, test, a + b) == Picked(t, test, a) + Picked(t, test, b)
  {
    if a == [] {
      assert a + b == b;
    } else {
      assert (a + b)[1..] == a[1..] + b;
      PickedAppend(t, test, a[1..], b);
    }
  }

  lemma {:induction false} PickedAttrsAppend(test: NodeTest, a: seq<Attr>, b: seq<Attr>, p: Ref)
    ensures PickedAttrs(test, a + b, p) == PickedAttrs(test, a, p) + PickedAttrs(test, b, p)
  {
    if a == [] {
      assert a + b == b;
    } else {
      assert (a + b)[1..] == a[1..] + b;
      PickedAttrsAppend(test, a[1..], b, p);
    }
  }

  /**
   * State of an axis loop: ns started as ns0, has seen the nodes in seen, and todo is still ahead.
   * A loop that may stop early has pushed nothing yet.
   */
  ghost predicate Scanning(t: Tree, test: NodeTest, ns0: seq<XNode>, ns: seq<XNode>, once: bool, seen: seq<Ref>)
    requires Wf(t)
  {
    ns == ns0 + Picked(t, test, seen) && (once ==> Picked(t, test, seen) == [])
  }

  /** What a loop over the nodes in all leaves behind. */
  function Scanned(t: Tree, test: NodeTest, ns0: seq<XNode>, once: bool, all: seq<Ref>): seq<XNode>
    requires Wf(t)
  {
    ns0 + FirstIf(once, Picked(t, test, all))
  }

  /** Push n if it passes the test; stop says whether the caller's loop is finished. */
  method Push(t: Tree, test: NodeTest, ns: seq<XNode>, n: Ref, once: bool,
              ghost ns0: seq<XNode>, ghost seen: seq<Ref>, ghost rest: seq<Ref>)
    returns (out: seq<XNode>, stop: bool)
    requires Wf(t) && n in t.node && Scanning(t, test, ns0, ns, once, seen)
    ensures stop ==> out == Scanned(t, test, ns0, once, seen + [n] + rest)
    ensures !stop ==> Scanning(t, test, ns0, out, once, seen + [n])
  {
    var hit := NodePasses(test, t.node[n].info);
    out := if hit then ns + [XElem(n)] else ns;
    stop := hit && once;
    assert Picked(t, test, [n]) == if hit then [XElem(n)] else [];
    PickedAppend(t, test, seen, [n]);
    PickedAppend(t, test, seen + [n], rest);
  }

  /** Climb from cur until a next sibling exists; 0 when the walk leaves the subtree of stop. */
  method ClimbToNext(t: Tree, cur: Ref, ghost top: Ref, stop: Ref) returns (c: Ref)
    requires Wf(t) && cur in t.node && top in t.node && Under(t, cur, top) && cur != stop
    requires stop == top || (stop == 0 && top == t.root)
    ensures c == 0 ==> Rest(t, cur, top) == []
    ensures c != 0 ==> c in t.node && c != top && Under(t, c, top) && Rest(t, cur, top) == Pre(t, c) + Rest(t, c, top)
  {
    c := cur;
    while NextSibling(t, c) == 0
      invariant c in t.node && Under(t, c, top) && c != stop
      invariant Rest(t, cur, top) == Rest(t, c, top)
      decreases t.node[t.root].rank - t.node[c].rank
    {
      ghost var was := c;
      c := Parent(t, c);
      if c == stop {
        assert was != top ==> Rest(t, was, top) == [] + Rest(t, c, top);
        return 0;
      }
      assert Rest(t, was, top) == [] + Rest(t, c, top);
    }
    ghost var was := c;
    c := NextSibling(t, c);
    assert c == t.node[Parent(t, was)].kids[t.node[was].index + 1];
    UnderRank(t, Parent(t, was), top);
    assert Rest(t, was, top) == (Pre(t, c) + Forest(t, Parent(t, was), t.node[c].index + 1)) + Rest(t, Parent(t, was), top);
  }

  method FillAttributes(t: Tree, test: NodeTest, ns0: seq<XNode>, n: Ref, once: bool) returns (ns: seq<XNode>)
    requires Wf(t) && n in t.node
    ensures ns == ns0 + FirstIf(once, StepItems(t, AttributeAxis, test, XElem(n)))
  {
    ns := ns0;
    var s := t.node[n].attrs;
    for i := 0 to |s|
      invariant ns == ns0 + PickedAttrs(test, s[..i], n)
      invariant once ==> PickedAttrs(test, s[..i], n) == []
    {
      assert s[..i + 1] == s[..i] + [s[i]];
      assert s == s[..i + 1] + s[i + 1..];
      PickedAttrsAppend(test, s[..i], [s[i]], n);
      PickedAttrsAppend(test, s[..i + 1], s[i + 1..], n);
      assert PickedAttrs(test, [s[i]], n) == if AttrPasses(test, s[i]) then [XAttr(s[i].id, n)] else [];
      if AttrPasses(test, s[i]) {
        ns := ns + [XAttr(s[i].id, n)];
        if once {
          return;
        }
      }
    }
    assert s[..|s|] == s;
  }

  /** Child and following-sibling: follow next_sibling through the children of p, from the i-th on. */
  method FillSiblings(t: Tree, test: NodeTest, ns0: seq<XNode>, c: Ref, once: bool, ghost p: Ref, ghost i: nat) returns (ns: seq<XNode>)
    requires Wf(t) && p in t.node && i <= |t.node[p].kids|
    requires c == if i < |t.node[p].kids| then t.node[p].kids[i] else 0
    ensures ns == Scanned(t, test, ns0, once, t.node[p].kids[i..])
  {
    ns := ns0;
    var cur := c;
    ghost var s, k := t.node[p].kids, i;
    while cur != 0
      invariant i <= k <= |s| && cur == if k < |s| then s[k] else 0
      invariant Scanning(t, test, ns0, ns, once, s[i..k])
      decreases |s| - k
    {
      assert s[i..] == s[i..k] + [cur] + s[k + 1..];
      assert s[i..k + 1] == s[i..k] + [cur];
      var stop;
      ns, stop := Push(t, test, ns, cur, once, ns0, s[i..k], s[k + 1..]);
      if stop {
        return;
      }
      NextInList(t, p, k);
      cur := NextSibling(t, cur);
      k := k + 1;
    }
    NotNull(t, p, k);
    assert s[i..k] == s[i..];
  }

  lemma NextInList(t: Tree, p: Ref, k: nat)
    requires Wf(t) && p in t.node && k < |t.node[p].kids|
    ensures t.node[p].kids[k] in t.node && t.node[p].kids[k] != 0
    ensures NextSibling(t, t.node[p].kids[k]) == if k + 1 < |t.node[p].kids| then t.node[p].kids[k + 1] else 0
    ensures PrevSiblingC(t, t.node[p].kids[k]) == t.node[p].kids[if k == 0 then |t.node[p].kids| - 1 else k - 1]
  {
    assert Parent(t, t.node[p].kids[k]) == p;
  }

  lemma NotNull(t: Tree, p: Ref, k: nat)
    requires Wf(t) && p in t.node && k <= |t.node[p].kids|
    ensures k < |t.node[p].kids| ==> t.node[p].kids[k] != 0
  {
  }

  /** Where the loop over the preceding siblings of n is after k of them: at the end it is at the last child. */
  function BackAt(t: Tree, n: Ref, k: nat): Ref
    requires Wf(t) && n in t.node && n != t.root && k <= |PrecedingSiblings(t, n)|
  {
    var s, i := t.node[Parent(t, n)].kids, t.node[n].index;
    s[if k == i then |s| - 1 else i - k - 1]
  }

  lemma BackStep(t: Tree, n: Ref, k: nat)
    requires Wf(t) && n in t.node && n != t.root && k <= |PrecedingSiblings(t, n)|
    ensures BackAt(t, n, k) in t.node && (NextSibling(t, BackAt(t, n, k)) != 0 <==> k < |PrecedingSiblings(t, n)|)
    ensures k < |PrecedingSiblings(t, n)| ==> Reverse(PrecedingSiblings(t, n))[k] == BackAt(t, n, k)
    ensures k < |PrecedingSiblings(t, n)| ==> PrevSiblingC(t, BackAt(t, n, k)) == BackAt(t, n, k + 1)
  {
    var p, i := Parent(t, n), t.node[n].index;
    assert Attached(t, n);
    NextInList(t, p, if k == i then |t.node[p].kids| - 1 else i - k - 1);
    if k < i {
      NextInList(t, p, i - k);
      ReverseAt(PrecedingSiblings(t, n), k);
    }
  }

  method FillPrecedingSiblings(t: Tree, test: NodeTest, ns0: seq<XNode>, n: Ref, once: bool) returns (ns: seq<XNode>)
    requires Wf(t) && n in t.node
    ensures ns == Scanned(t, test, ns0, once, Reverse(PrecedingSiblings(t, n)))
  {
    ns := ns0;
    if n == t.root {
      return;
    }
    ghost var r, k := Reverse(PrecedingSiblings(t, n)), 0;
    NextInList(t, Parent(t, n), t.node[n].index);
    var c := PrevSiblingC(t, n);
    BackStep(t, n, 0);
    while NextSibling(t, c) != 0
      invariant k <= |r| && c in t.node && c == BackAt(t, n, k) && (NextSibling(t, c) != 0 <==> k < |r|)
      invariant Scanning(t, test, ns0, ns, once, r[..k])
      decreases |r| - k
    {
      BackStep(t, n, k);
      SplitOne(r, k);
      var stop;
      ns, stop := Push(t, test, ns, c, once, ns0, r[..k], r[k + 1..]);
      if stop {
        return;
      }
      c := PrevSiblingC(t, c);
      k := k + 1;
      BackStep(t, n, k);
    }
    assert r[..|r|] == r;
  }

  /** The stackless preorder walk of the proper descendants of n. */
  method FillDescendants(t: Tree, test: NodeTest, ns0: seq<XNode>, n: Ref, once: bool) returns (ns: seq<XNode>)
    requires Wf(t) && n in t.node
    ensures ns == Scanned(t, test, ns0, once, Forest(t, n, 0))
  {
    ns := Walk(t, test, ns0, FirstChild(t, n), n, n, once, Forest(t, n, 0));
  }

  /** Preorder from cur, up to the end of the subtree of top. */
  method Walk(t: Tree, test: NodeTest, ns0: seq<XNode>, from: Ref, ghost top: Ref, stopAt: Ref, once: bool, ghost all: seq<Ref>)
    returns (ns: seq<XNode>)
    requires Wf(t) && top in t.node && (stopAt == top || (stopAt == 0 && top == t.root))
    requires from == 0 ==> all == []
    requires from != 0 ==> from in t.node && from != top && Under(t, from, top) && all == Pre(t, from) + Rest(t, from, top)
    ensures ns == Scanned(t, test, ns0, once, all)
  {
    ns := ns0;
    var cur := from;
    ghost var seen: seq<Ref> := [];
    while cur != 0
      invariant Scanning(t, test, ns0, ns, once, seen)
      invariant cur == 0 ==> all == seen
      invariant cur != 0 ==> cur in t.node && cur != top && Under(t, cur, top)
      invariant cur != 0 ==> all == seen + (Pre(t, cur) + Rest(t, cur, top))
      decreases |all| - |seen|
    {
      ghost var rest := Forest(t, cur, 0) + Rest(t, cur, top);
      AppendRegroup(seen, [cur], Forest(t, cur, 0), Rest(t, cur, top));
      var stop;
      ns, stop := Push(t, test, ns, cur, once, ns0, seen, rest);
      if stop {
        return;
      }
      seen := seen + [cur];
      var down := FirstChild(t, cur);
      if down != 0 {
        Descend(t, cur, top);
        cur := down;
      } else {
        assert Forest(t, cur, 0) == [];
        assert rest == Rest(t, cur, top);
        cur := ClimbToNext(t, cur, top, stopAt);
      }
    }
  }

  lemma Descend(t: Tree, cur: Ref, top: Ref)
    requires Wf(t) && cur in t.node && top in t.node && Under(t, cur, top) && t.node[cur].kids != []
    ensures var c := t.node[cur].kids[0];
      c in t.node && c != top && Under(t, c, top)
      && Forest(t, cur, 0) + Rest(t, cur, top) == Pre(t, c) + Rest(t, c, top)
  {
    var c := t.node[cur].kids[0];
    UnderRank(t, cur, top);
  }

  method FillFollowing(t: Tree, test: NodeTest, ns0: seq<XNode>, n: Ref, once: bool) returns (ns: seq<XNode>)
    requires Wf(t) && n in t.node
    ensures Under(t, n, t.root)
    ensures ns == Scanned(t, test, ns0, once, Rest(t, n, t.root))
  {
    UnderRoot(t, n);
    var cur := ClimbToNext(t, n, t.root, 0);
    ns := Walk(t, test, ns0, cur, t.root, 0, once, Rest(t, n, t.root));
  }

  method FillAncestors(t: Tree, test: NodeTest, ns0: seq<XNode>, from: Ref, once: bool, ghost all: seq<Ref>) returns (ns: seq<XNode>)
    requires Wf(t) && (from == 0 ==> all == [])
    requires from != 0 ==> from in t.node && all == [from] + Ancestors(t, from)
    ensures ns == Scanned(t, test, ns0, once, all)
  {
    ns := ns0;
    var cur := from;
    ghost var seen: seq<Ref> := [];
    while cur != 0
      invariant Scanning(t, test, ns0, ns, once, seen)
      invariant cur == 0 ==> all == seen
      invariant cur != 0 ==> cur in t.node && all == seen + ([cur] + Ancestors(t, cur))
      decreases |all| - |seen|
    {
      assert all == seen + [cur] + Ancestors(t, cur);
      var stop;
      ns, stop := Push(t, test, ns, cur, once, ns0, seen, Ancestors(t, cur));
      if stop {
        return;
      }
      seen := seen + [cur];
      cur := Parent(t, cur);
    }
  }

  /** Is parent on the way up from node? */
  method NodeIsAncestor(t: Tree, parent: Ref, node: Ref) returns (b: bool)
    requires Wf(t) && parent in t.node && node in t.node
    ensures b <==> Under(t, node, parent)
  {
    var cur := node;
    while cur != 0 && cur != parent
      invariant cur != 0 ==> cur in t.node && (Under(t, node, parent) <==> Under(t, cur, parent))
      invariant cur == 0 ==> !Under(t, node, parent)
      decreases if cur == 0 then 0 else 1 + t.node[t.root].rank - t.node[cur].rank
    {
      cur := Parent(t, cur);
    }
    b := cur == parent;
  }

  /**
   * The reverse walk of what precedes n: last child first, each node after its subtree,
   * leaving out the ancestors of n.
   */
  method FillPreceding(t: Tree, test: NodeTest, ns0: seq<XNode>, n: Ref, once: bool) returns (ns: seq<XNode>)
    requires Wf(t) && n in t.node
    ensures ns == Scanned(t, test, ns0, once, Reverse(NotAbove(t, n, Before(t, n))))
  {
    ghost var all := Reverse(NotAbove(t, n, Before(t, n)));
    ns := ns0;
    var cur := n;
    while NextSibling(t, PrevSiblingC(t, cur)) == 0
      invariant cur in t.node && Under(t, n, cur) && NotAbove(t, n, Before(t, n)) == NotAbove(t, n, Before(t, cur))
      decreases t.node[t.root].rank - t.node[cur].rank
    {
      FirstOfSiblings(t, cur, n);
      cur := Parent(t, cur);
      if cur == 0 {
        return;
      }
    }
    UnderPos(t, n, cur);
    ToPrevious(t, cur, n);
    cur := PrevSiblingC(t, cur);
    ghost var seen: seq<Ref> := [];
    while true
      invariant Scanning(t, test, ns0, ns, once, seen)
      invariant cur in t.node && Precedes(t, cur, n)
      invariant all == seen + Reverse(NotAbove(t, n, Before(t, cur)) + Pre(t, cur))
      decreases |all| - |seen|, t.node[cur].rank
    {
      if FirstChild(t, cur) != 0 {
        ToLastChild(t, cur, n);
        cur := PrevSiblingC(t, FirstChild(t, cur));
      } else {
        assert Pre(t, cur) == [cur];
        var stop;
        ns, stop, seen := PushLeft(t, test, ns, cur, once, ns0, seen, all, n);
        if stop {
          return;
        }
        ns, cur, seen := ClimbToPrevious(t, test, ns, cur, once, ns0, seen, all, n);
        if cur == 0 {
          return;
        }
      }
    }
  }

  /** Push cur, the last node of what remains, in the reverse walk. */
  method PushLeft(t: Tree, test: NodeTest, ns: seq<XNode>, cur: Ref, once: bool,
                  ghost ns0: seq<XNode>, ghost seen: seq<Ref>, ghost all: seq<Ref>, ghost n: Ref)
    returns (out: seq<XNode>, stop: bool, ghost seen': seq<Ref>)
    requires Wf(t) && n in t.node && cur in t.node && Scanning(t, test, ns0, ns, once, seen)
    requires all == seen + Reverse(NotAbove(t, n, Before(t, cur)) + [cur])
    ensures seen' == seen + [cur] && all == seen' + Reverse(NotAbove(t, n, Before(t, cur)))
    ensures stop ==> out == Scanned(t, test, ns0, once, all)
    ensures !stop ==> Scanning(t, test, ns0, out, once, seen')
  {
    ghost var rest := Reverse(NotAbove(t, n, Before(t, cur)));
    ReverseAppend(NotAbove(t, n, Before(t, cur)), [cur]);
    assert Reverse([cur]) == [cur];
    assert all == seen + [cur] + rest;
    out, stop := Push(t, test, ns, cur, once, ns0, seen, rest);
    seen' := seen + [cur];
  }

  /** After the subtree of from: climb past first children, pushing those not above n, to the next node on the left. */
  method ClimbToPrevious(t: Tree, test: NodeTest, ns: seq<XNode>, from: Ref, once: bool,
                         ghost ns0: seq<XNode>, ghost seen: seq<Ref>, ghost all: seq<Ref>, n: Ref)
    returns (out: seq<XNode>, cur: Ref, ghost seen': seq<Ref>)
    requires Wf(t) && n in t.node && from in t.node && Scanning(t, test, ns0, ns, once, seen)
    requires all == seen + Reverse(NotAbove(t, n, Before(t, from))) && Pos(t, from) <= Pos(t, n)
    ensures cur == 0 ==> out == Scanned(t, test, ns0, once, all)
    ensures cur != 0 ==> Scanning(t, test, ns0, out, once, seen') && cur in t.node && Precedes(t, cur, n)
    ensures cur != 0 ==> all == seen' + Reverse(NotAbove(t, n, Before(t, cur)) + Pre(t, cur)) && |seen| <= |seen'|
  {
    out, cur, seen' := ns, from, seen;
    while NextSibling(t, PrevSiblingC(t, cur)) == 0
      invariant Scanning(t, test, ns0, out, once, seen')
      invariant cur in t.node && Pos(t, cur) <= Pos(t, n) && |seen| <= |seen'|
      invariant all == seen' + Reverse(NotAbove(t, n, Before(t, cur)))
      decreases t.node[t.root].rank - t.node[cur].rank
    {
      FirstOfSiblings(t, cur, n);
      assert cur == t.root ==> all == seen';
      cur := Parent(t, cur);
      if cur == 0 {
        return;
      }
      var above := NodeIsAncestor(t, cur, n);
      if !above {
        var stop;
        out, stop, seen' := PushLeft(t, test, out, cur, once, ns0, seen', all, n);
        if stop {
          return out, 0, seen';
        }
      }
    }
    ToPrevious(t, cur, n);
    cur := PrevSiblingC(t, cur);
  }

  ghost predicate Precedes(t: Tree, c: Ref, n: Ref)
    requires Wf(t) && c in t.node && n in t.node
  {
    Pos(t, c) <= Pos(t, n) && !Under(t, n, c)
  }

  /** A node whose cyclic predecessor has no successor is a first child, or the root. */
  lemma FirstOfSiblings(t: Tree, c: Ref, n: Ref)
    requires Wf(t) && c in t.node && n in t.node
    requires PrevSiblingC(t, c) in t.node && NextSibling(t, PrevSiblingC(t, c)) == 0
    ensures c == t.root ==> NotAbove(t, n, Before(t, c)) == []
    ensures c != t.root ==> var p := Parent(t, c);
      && (Under(t, n, p) ==> NotAbove(t, n, Before(t, c)) == NotAbove(t, n, Before(t, p)))
      && (!Under(t, n, p) ==> NotAbove(t, n, Before(t, c)) == NotAbove(t, n, Before(t, p)) + [p])
      && Pos(t, p) <= Pos(t, c)
      && (Under(t, n, c) ==> Under(t, n, p))
  {
    if c != t.root {
      var p := Parent(t, c);
      if t.node[c].index > 0 {
        NextInList(t, p, t.node[c].index - 1);
      }
      assert LeftForest(t, p, 0) == [];
      BeforeStep(t, c);
      assert Before(t, c) == Before(t, p) + [p];
      NotAboveAppend(t, n, Before(t, p), [p]);
      NotAboveOne(t, n, p);
      UnderParent(t, c, c);
      UnderPos(t, c, p);
      if Under(t, n, c) {
        UnderParent(t, n, c);
      }
    }
  }

  lemma NotAboveOne(t: Tree, n: Ref, p: Ref)
    requires Wf(t) && n in t.node && p in t.node
    ensures Under(t, n, p) ==> NotAbove(t, n, [p]) == []
    ensures !Under(t, n, p) ==> NotAbove(t, n, [p]) == [p]
  {
    assert NotAbove(t, n, []) == [];
    assert [p][1..] == [];
  }

  /** The sibling to the left of c ends just before c. */
  lemma PreviousEnds(t: Tree, c: Ref)
    requires Wf(t) && c in t.node && c != t.root && t.node[c].index > 0
    ensures var d := t.node[Parent(t, c)].kids[t.node[c].index - 1];
      d in t.node && Before(t, c) == Before(t, d) + Pre(t, d)
  {
    var p, i := Parent(t, c), t.node[c].index;
    var d := t.node[p].kids[i - 1];
    assert Parent(t, d) == p && t.node[d].index == i - 1;
    BeforeStep(t, c);
    BeforeStep(t, d);
    AppendAssociative(Before(t, p) + [p], LeftForest(t, p, i - 1), Pre(t, d));
  }

  /** Nothing in the subtree of a node that is not above n is above n. */
  lemma SubtreeNotAbove(t: Tree, d: Ref, n: Ref)
    requires Wf(t) && d in t.node && n in t.node && !Under(t, n, d)
    ensures NotAbove(t, n, Pre(t, d)) == Pre(t, d)
  {
    var s := Pre(t, d);
    forall i | 0 <= i < |s| ensures s[i] in t.node && !Under(t, n, s[i]) {
      PreMembers(t, d, s[i]);
      if Under(t, n, s[i]) {
        UnderTransitive(t, n, s[i], d);
      }
    }
    NotAboveAll(t, n, s);
  }

  /** Moving to the cyclic predecessor, when it has a successor. */
  lemma ToPrevious(t: Tree, c: Ref, n: Ref)
    requires Wf(t) && c in t.node && n in t.node && Pos(t, c) <= Pos(t, n)
    requires PrevSiblingC(t, c) in t.node && NextSibling(t, PrevSiblingC(t, c)) != 0
    ensures var d := PrevSiblingC(t, c);
      NotAbove(t, n, Before(t, c)) == NotAbove(t, n, Before(t, d)) + Pre(t, d) && Precedes(t, d, n)
  {
    var d := PrevSiblingC(t, c);
    PreviousEnds(t, c);
    Locate(t, d, n);
    NotAboveAppend(t, n, Before(t, d), Pre(t, d));
    SubtreeNotAbove(t, d, n);
  }

  /** The last child ends where its parent ends. */
  lemma LastChildEnds(t: Tree, c: Ref)
    requires Wf(t) && c in t.node && t.node[c].kids != []
    ensures t.node[c].kids[0] in t.node
    ensures var d := PrevSiblingC(t, t.node[c].kids[0]);
      d in t.node && Under(t, d, c) && t.node[d].rank < t.node[c].rank && Before(t, c) + Pre(t, c) == Before(t, d) + Pre(t, d)
  {
    var k := |t.node[c].kids|;
    var d := t.node[c].kids[k - 1];
    NextInList(t, c, 0);
    assert Parent(t, d) == c && t.node[d].index == k - 1;
    ForestSplit(t, c, k);
    BeforeStep(t, d);
    AppendRegroup(Before(t, c), [c], LeftForest(t, c, k - 1), Pre(t, d));
    assert Pre(t, c) == [c] + (LeftForest(t, c, k - 1) + Pre(t, d));
  }

  lemma ToLastChild(t: Tree, c: Ref, n: Ref)
    requires Wf(t) && c in t.node && n in t.node && t.node[c].kids != [] && Precedes(t, c, n)
    ensures t.node[c].kids[0] in t.node
    ensures var d := PrevSiblingC(t, t.node[c].kids[0]);
      d in t.node && t.node[d].rank < t.node[c].rank && Precedes(t, d, n)
      && NotAbove(t, n, Before(t, c)) + Pre(t, c) == NotAbove(t, n, Before(t, d)) + Pre(t, d)
  {
    LastChildEnds(t, c);
    var d := PrevSiblingC(t, t.node[c].kids[0]);
    Locate(t, c, n);
    Locate(t, c, d);
    if Under(t, n, d) {
      UnderTransitive(t, n, d, c);
    }
    NotAboveAppend(t, n, Before(t, c), Pre(t, c));
    NotAboveAppend(t, n, Before(t, d), Pre(t, d));
    SubtreeNotAbove(t, c, n);
    SubtreeNotAbove(t, d, n);
  }

  /** All nodes on an axis of the node n; with once, only the first that passes. */
  method FillNode(t: Tree, axis: Axis, test: NodeTest, ns0: seq<XNode>, n: Ref, once: bool) returns (ns: seq<XNode>)
    requires Wf(t) && n in t.node && axis != Namespace
    ensures ns == ns0 + FirstIf(once, StepItems(t, axis, test, XElem(n)))
  {
    match axis
    case AttributeAxis =>
      ns := FillAttributes(t, test, ns0, n, once);
    case Child =>
      ChildIs(t, n);
      ns := FillSiblings(t, test, ns0, FirstChild(t, n), once, n, 0);
      assert t.node[n].kids[0..] == t.node[n].kids;
    case Descendant =>
      DescendantIs(t, n);
      ns := FillDescendants(t, test, ns0, n, once);
    case DescendantOrSelf =>
      DescendantOrSelfIs(t, n);
      ns := FillDescendantsOrSelf(t, test, ns0, n, once);
    case FollowingSibling =>
      FollowingSiblingIs(t, n);
      if n == t.root {
        ns := ns0;
      } else {
        ns := FillSiblings(t, test, ns0, NextSibling(t, n), once, Parent(t, n), t.node[n].index + 1);
      }
    case Following =>
      FollowingIs(t, n);
      ns := FillFollowing(t, test, ns0, n, once);
    case SelfAxis =>
      SelfIs(t, n);
      ns := FillOne(t, test, ns0, n, once);
    case ParentAxis =>
      ParentIs(t, n);
      if Parent(t, n) != 0 {
        ns := FillOne(t, test, ns0, Parent(t, n), once);
      } else {
        ns := ns0;
      }
    case _ =>
      ns := FillReverse(t, axis, test, ns0, n, once);
  }

  method FillReverse(t: Tree, axis: Axis, test: NodeTest, ns0: seq<XNode>, n: Ref, once: bool) returns (ns: seq<XNode>)
    requires Wf(t) && n in t.node && IsReverse(axis)
    ensures ns == ns0 + FirstIf(once, StepItems(t, axis, test, XElem(n)))
  {
    match axis
    case PrecedingSibling =>
      PrecedingSiblingIs(t, n);
      ns := FillPrecedingSiblings(t, test, ns0, n, once);
    case Preceding =>
      PrecedingIs(t, n);
      ns := FillPreceding(t, test, ns0, n, once);
    case Ancestor =>
      AncestorIs(t, n);
      ns := FillAncestors(t, test, ns0, Parent(t, n), once, Ancestors(t, n));
    case AncestorOrSelf =>
      AncestorIs(t, n);
      ns := FillAncestors(t, test, ns0, n, once, [n] + Ancestors(t, n));
  }

  method FillDescendantsOrSelf(t: Tree, test: NodeTest, ns0: seq<XNode>, n: Ref, once: bool) returns (ns: seq<XNode>)
    requires Wf(t) && n in t.node
    ensures ns == Scanned(t, test, ns0, once, Pre(t, n))
  {
    var stop;
    assert [] + [n] == [n];
    ns, stop := Push(t, test, ns0, n, once, ns0, [], Forest(t, n, 0));
    if !stop {
      PickedAppend(t, test, [n], Forest(t, n, 0));
      FirstIfAppend(once, ns0, Picked(t, test, [n]), Picked(t, test, Forest(t, n, 0)));
      ns := FillDescendants(t, test, ns, n, once);
    }
  }

  method FillOne(t: Tree, test: NodeTest, ns0: seq<XNode>, n: Ref, once: bool) returns (ns: seq<XNode>)
    requires Wf(t) && n in t.node
    ensures ns == Scanned(t, test, ns0, once, [n])
  {
    var stop;
    ns, stop := Push(t, test, ns0, n, false, ns0, [], []);
    assert [] + [n] == [n];
    assert |Picked(t, test, [n])| <= 1;
  }

  /** The axes that an attribute has; on the others it selects nothing. */
  predicate AttributeHasAxis(axis: Axis) {
    axis in {Ancestor, AncestorOrSelf, DescendantOrSelf, Following, ParentAxis, Preceding, SelfAxis}
  }

  method FillAttr(t: Tree, axis: Axis, test: NodeTest, ns0: seq<XNode>, a: Ref, p: Ref, once: bool) returns (ns: seq<XNode>)
    requires Wf(t) && Has(t, XAttr(a, p)) && AttributeHasAxis(axis)
    ensures ns == ns0 + FirstIf(once, StepItems(t, axis, test, XAttr(a, p)))
  {
    ns := ns0;
    match axis
    case Ancestor =>
      AncestorIs(t, p);
      ns := FillAncestors(t, test, ns, p, once, [p] + Ancestors(t, p));
    case AncestorOrSelf =>
      ns := FillSelfAndAncestors(t, test, ns, a, p, once);
    case DescendantOrSelf =>
      var self := PushSelfAttr(t, test, a, p);
      ns := ns + self;
    case SelfAxis =>
      var self := PushSelfAttr(t, test, a, p);
      ns := ns + self;
    case Following =>
      DescendantIs(t, p);
      FollowingIs(t, p);
      ns := FillAfterAttr(t, test, ns, p, once);
    case ParentAxis =>
      ns := FillOne(t, test, ns, p, once);
    case Preceding =>
      PrecedingIs(t, p);
      ns := FillPreceding(t, test, ns, p, once);
  }

  /** What follows an attribute of p: the subtree below p, then what follows p. */
  method FillAfterAttr(t: Tree, test: NodeTest, ns0: seq<XNode>, p: Ref, once: bool) returns (ns: seq<XNode>)
    requires Wf(t) && p in t.node
    ensures Under(t, p, t.root)
    ensures ns == ns0 + FirstIf(once, Picked(t, test, Forest(t, p, 0)) + Picked(t, test, Rest(t, p, t.root)))
  {
    UnderRoot(t, p);
    PickedAppend(t, test, Forest(t, p, 0), Rest(t, p, t.root));
    var from := FirstChild(t, p);
    if from == 0 {
      assert Forest(t, p, 0) + Rest(t, p, t.root) == Rest(t, p, t.root);
      from := ClimbToNext(t, p, t.root, 0);
    } else {
      Descend(t, p, t.root);
    }
    ns := Walk(t, test, ns0, from, t.root, 0, once, Forest(t, p, 0) + Rest(t, p, t.root));
  }

  method FillSelfAndAncestors(t: Tree, test: NodeTest, ns0: seq<XNode>, a: Ref, p: Ref, once: bool) returns (ns: seq<XNode>)
    requires Wf(t) && Has(t, XAttr(a, p))
    ensures ns == ns0 + FirstIf(once, SelfAttr(t, test, a, p) + Picked(t, test, AxisNodes(t, AncestorOrSelf, p)))
  {
    AncestorIs(t, p);
    var self := PushSelfAttr(t, test, a, p);
    ns := ns0 + self;
    if self == [] || !once {
      ns := FillAncestors(t, test, ns, p, once, [p] + Ancestors(t, p));
    }
    FirstIfAppend(once, ns0, self, Picked(t, test, [p] + Ancestors(t, p)));
  }

  method PushSelfAttr(t: Tree, test: NodeTest, a: Ref, p: Ref) returns (s: seq<XNode>)
    requires Wf(t) && Has(t, XAttr(a, p))
    ensures s == SelfAttr(t, test, a, p)
  {
    s := SelfAttr(t, test, a, p);
  }

  /** The loops of step_fill, whatever the context node is: exactly the items of the step, or the first of them. */
  method StepFill(t: Tree, axis: Axis, test: NodeTest, ns0: seq<XNode>, x: XNode, once: bool) returns (ns: seq<XNode>)
    requires Wf(t) && axis != Namespace && (x != XNull ==> Has(t, x))
    ensures ns == ns0 + FirstIf(once, StepItems(t, axis, test, x))
  {
    ns := ns0;
    if x.XElem? {
      ns := FillNode(t, axis, test, ns0, x.n, once);
    } else if AttributeHasAxis(axis) && x.XAttr? {
      ns := FillAttr(t, axis, test, ns0, x.a, x.p, once);
    }
  }
}
