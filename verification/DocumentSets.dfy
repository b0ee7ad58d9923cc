/** Sets of nodes listed in document order: the list is unique, and what it says about first elements and sums. */
module DocumentSets {
  import opened Sequences
  import opened XmlTree
  import opened Axes
  import opened Steps
  import opened DocumentOrder
  import opened NodeSets
  import opened XPathSyntax
  import opened XPathSemantics

  ghost predicate SetHas(t: Tree, xs: set<XNode>)
    requires Wf(t)
  {
    forall x | x in xs :: Has(t, x)
  }

  lemma {:induction false} AttrItemsAt(s: seq<Attr>, p: Ref, i: nat)
    ensures |AttrItems(s, p)| == |s|
    ensures i < |s| ==> AttrItems(s, p)[i] == XAttr(s[i].id, p)
  {
    if s != [] {
      AttrItemsAt(s[1..], p, if i > 0 then i - 1 else 0);
    }
  }

  /** One node with its attributes is in document order. */
  lemma BlockForward(t: Tree, n: Ref)
    requires Wf(t) && n in t.node
    ensures var b := [XElem(n)] + AttrItems(t.node[n].attrs, n); AllHas(t, b) && Forward(t, b)
    ensures forall x :: x in [XElem(n)] + AttrItems(t.node[n].attrs, n) <==> Has(t, x) && Owner(x) == n
  {
    var s := t.node[n].attrs;
    var b := [XElem(n)] + AttrItems(s, n);
    forall i | 0 <= i < |b| ensures Has(t, b[i]) && Owner(b[i]) == n && Slot(t, b[i]) == i {
      if i > 0 {
        AttrItemsAt(s, n, i - 1);
        assert AttrWf(t, n, i - 1);
      } else {
        AttrItemsAt(s, n, 0);
      }
    }
    forall x ensures x in b <==> Has(t, x) && Owner(x) == n {
      if Has(t, x) && Owner(x) == n && x.XAttr? {
        var k := FindAttr(s, x.a);
        AttrItemsAt(s, n, k);
        assert b[k + 1] == x;
      }
    }
  }

  lemma ForwardAppend(t: Tree, a: seq<XNode>, b: seq<XNode>)
    requires Wf(t) && AllHas(t, a) && AllHas(t, b) && Forward(t, a) && Forward(t, b)
    requires forall x, y | x in a && y in b :: DocLess(t, x, y)
    ensures AllHas(t, a + b) && Forward(t, a + b)
  {
  }

  lemma ItemsStep(t: Tree, n: Ref, rest: seq<Ref>, items: seq<XNode>)
    requires Wf(t) && n in t.node && forall r | r in rest :: r in t.node && Pos(t, n) < Pos(t, r)
    requires AllHas(t, items) && Forward(t, items) && forall x :: x in items <==> Has(t, x) && Owner(x) in rest
    ensures var s := [XElem(n)] + AttrItems(t.node[n].attrs, n) + items;
      && AllHas(t, s) && Forward(t, s)
      && forall x :: x in s <==> Has(t, x) && Owner(x) in [n] + rest
  {
    var b := [XElem(n)] + AttrItems(t.node[n].attrs, n);
    BlockForward(t, n);
    forall x, y | x in b && y in items ensures DocLess(t, x, y) {
      assert Owner(x) == n && Owner(y) in rest;
    }
    ForwardAppend(t, b, items);
  }

  lemma {:induction false} ItemsForward(t: Tree, s: seq<Ref>)
    requires Wf(t) && Ascends(Positions(t), s)
    ensures AllHas(t, ItemsOf(t, s)) && Forward(t, ItemsOf(t, s))
    ensures forall x :: x in ItemsOf(t, s) <==> Has(t, x) && Owner(x) in s
  {
    if s != [] {
      AscendsTail(Positions(t), s);
      ItemsForward(t, s[1..]);
      ItemsStep(t, s[0], s[1..], ItemsOf(t, s[1..]));
      assert s == [s[0]] + s[1..];
    }
  }

  lemma {:induction false} FilterForward(t: Tree, s: seq<XNode>, keep: XNode -> bool)
    requires Wf(t) && AllHas(t, s) && Forward(t, s)
    ensures AllHas(t, Sequences.Filter(s, keep)) && Forward(t, Sequences.Filter(s, keep))
  {
    if s != [] {
      var rest := s[1..];
      FilterForward(t, rest, keep);
      forall x ensures x in Sequences.Filter(rest, keep) ==> x in rest {
        FilterMembers(rest, keep, x);
      }
      if keep(s[0]) {
        ForwardAppend(t, [s[0]], Sequences.Filter(rest, keep));
      }
    }
  }

  lemma InOrderIs(t: Tree, xs: set<XNode>)
    requires Wf(t) && SetHas(t, xs)
    ensures AllHas(t, InOrder(t, xs)) && Forward(t, InOrder(t, xs))
    ensures forall x :: x in InOrder(t, xs) <==> x in xs
  {
    NodesAscend(t);
    ItemsForward(t, Nodes(t));
    NodesAll(t);
    var keep := x => x in xs;
    FilterForward(t, ItemsOf(t, Nodes(t)), keep);
    forall x ensures x in InOrder(t, xs) <==> x in xs {
      FilterMembers(ItemsOf(t, Nodes(t)), keep, x);
      if x in xs {
        assert Has(t, x) && Owner(x) in t.node;
      }
    }
  }

  lemma ForwardTail(t: Tree, s: seq<XNode>)
    requires Wf(t) && AllHas(t, s) && Forward(t, s) && s != []
    ensures AllHas(t, s[1..]) && Forward(t, s[1..])
    ensures forall x | x in s[1..] :: DocLess(t, s[0], x)
  {
  }

  /** Only one list is in document order and has given members. */
  lemma {:induction false} ForwardUnique(t: Tree, a: seq<XNode>, b: seq<XNode>)
    requires Wf(t) && AllHas(t, a) && AllHas(t, b) && Forward(t, a) && Forward(t, b)
    requires forall x :: x in a <==> x in b
    ensures a == b
  {
    assert a != [] ==> a[0] in b;
    assert b != [] ==> b[0] in a;
    if a != [] {
      ForwardTail(t, a);
      ForwardTail(t, b);
      assert a == [a[0]] + a[1..] && b == [b[0]] + b[1..];
      DocLessTotal(t, a[0], b[0]);
      assert a[0] == b[0];
      forall x ensures x in a[1..] <==> x in b[1..] {
        assert x in a <==> x in b;
        if x == a[0] {
          DocLessTotal(t, x, x);
        }
      }
      ForwardUnique(t, a[1..], b[1..]);
    }
  }

  lemma InOrderUnique(t: Tree, xs: set<XNode>, s: seq<XNode>)
    requires Wf(t) && AllHas(t, s) && Forward(t, s) && forall x :: x in s <==> x in xs
    ensures SetHas(t, xs) && InOrder(t, xs) == s
  {
    forall x | x in xs ensures Has(t, x) {
      assert x in s;
    }
    InOrderIs(t, xs);
    ForwardUnique(t, InOrder(t, xs), s);
  }

  lemma EmptySame(s: seq<XNode>, xs: set<XNode>)
    requires forall x :: x in s <==> x in xs
    ensures s == [] <==> xs == {}
  {
    if s != [] {
      assert s[0] in s;
    }
  }

  /** The first of a set is the one that comes before all others. */
  lemma FirstOfIs(t: Tree, xs: set<XNode>)
    requires Wf(t) && SetHas(t, xs)
    ensures xs == {} ==> FirstOf(t, xs) == XNull
    ensures xs != {} ==> FirstOf(t, xs) in xs && forall y | y in xs :: y == FirstOf(t, xs) || DocLess(t, FirstOf(t, xs), y)
  {
    InOrderIs(t, xs);
    var s := InOrder(t, xs);
    EmptySame(s, xs);
    if xs != {} {
      forall y | y in xs ensures y == s[0] || DocLess(t, s[0], y) {
        var i := IndexOf(s, y);
      }
      assert s[0] in s;
    }
  }

  lemma FirstOfUnique(t: Tree, xs: set<XNode>, f: XNode)
    requires Wf(t) && SetHas(t, xs) && f in xs && forall y | y in xs :: y == f || DocLess(t, f, y)
    ensures FirstOf(t, xs) == f
  {
    FirstOfIs(t, xs);
    DocLessTotal(t, f, FirstOf(t, xs));
  }

  /** A list without repeats is as long as its set is big. */
  lemma {:induction false} DistinctSize(s: seq<XNode>)
    requires Distinct(s)
    ensures |Elements(s)| == |s|
  {
    if s != [] {
      var rest := s[1..];
      DistinctSize(rest);
      assert s[0] !in rest;
      assert Elements(s) == {s[0]} + Elements(rest);
    }
  }

  // Sums do not depend on the order.

  lemma PlusLaws(x: Num, y: Num, z: Num)
    ensures Plus(x, y) == Plus(y, x)
    ensures Plus(Plus(x, y), z) == Plus(x, Plus(y, z))
    ensures Plus(Fin(0.0), x) == x
  {
  }

  lemma {:induction false} SumTakeOut(t: Tree, env: Env, s: seq<XNode>, k: nat)
    requires Wf(t) && k < |s|
    ensures SumOf(t, env, s) == Plus(NumberOf(t, env, s[k]), SumOf(t, env, s[..k] + s[k + 1..]))
  {
    if k == 0 {
      assert s[..0] + s[1..] == s[1..];
    } else {
      var rest := s[1..];
      SumTakeOut(t, env, rest, k - 1);
      var shorter := s[..k] + s[k + 1..];
      assert shorter[1..] == rest[..k - 1] + rest[k..] && shorter[0] == s[0];
      var a, b, c := NumberOf(t, env, s[0]), NumberOf(t, env, s[k]), SumOf(t, env, shorter[1..]);
      PlusLaws(a, b, c);
      PlusLaws(b, a, c);
    }
  }

  lemma {:induction false} SumPermutes(t: Tree, env: Env, s: seq<XNode>, r: seq<XNode>)
    requires Wf(t) && Distinct(s) && Distinct(r) && forall x :: x in s <==> x in r
    ensures SumOf(t, env, s) == SumOf(t, env, r)
  {
    EmptySame(s, Elements(r));
    EmptySame(r, Elements(r));
    if s != [] {
      assert s[0] in r;
      var k := IndexOf(r, s[0]);
      var less := r[..k] + r[k + 1..];
      SumTakeOut(t, env, r, k);
      forall x ensures x in s[1..] <==> x in less {
        RemoveOneMembers(r, k, x);
        assert s == [s[0]] + s[1..] && s[0] !in s[1..];
      }
      SumPermutes(t, env, s[1..], less);
    }
  }

  lemma RemoveOneMembers<T>(r: seq<T>, k: nat, x: T)
    requires Distinct(r) && k < |r|
    ensures Distinct(r[..k] + r[k + 1..])
    ensures x in r[..k] + r[k + 1..] <==> x in r && x != r[k]
  {
    assert r == r[..k] + [r[k]] + r[k + 1..];
  }
}
