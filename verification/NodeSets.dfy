/** Node sets as the evaluator keeps them: a list with a tag that says how it is ordered. */
module NodeSets {
  import opened Sequences
  import opened XmlTree
  import opened Steps
  import opened DocumentOrder
  import Sorting

  datatype SetType = Unsorted | Sorted | SortedReverse

  datatype NodeSet = NodeSet(ty: SetType, items: seq<XNode>)

  ghost predicate AllHas(t: Tree, s: seq<XNode>)
    requires Wf(t)
  {
    forall x | x in s :: Has(t, x)
  }

  /** s goes strictly forward in document order. */
  ghost predicate Forward(t: Tree, s: seq<XNode>)
    requires Wf(t) && AllHas(t, s)
  {
    forall i, j | 0 <= i < j < |s| :: DocLess(t, s[i], s[j])
  }

  ghost predicate Backward(t: Tree, s: seq<XNode>)
    requires Wf(t) && AllHas(t, s)
  {
    forall i, j | 0 <= i < j < |s| :: DocLess(t, s[j], s[i])
  }

  /** No entry twice, and the tag tells the truth. */
  ghost predicate Truthful(t: Tree, ns: NodeSet)
    requires Wf(t)
  {
    && AllHas(t, ns.items) && Distinct(ns.items)
    && (ns.ty == Sorted ==> Forward(t, ns.items))
    && (ns.ty == SortedReverse ==> Backward(t, ns.items))
  }

  function Less(t: Tree): (XNode, XNode) -> bool
    requires Wf(t)
  {
    (x, y) => Has(t, x) && Has(t, y) && DocLess(t, x, y)
  }

  lemma DocumentOrders(t: Tree, m: multiset<XNode>)
    requires Wf(t) && forall x | x in m :: Has(t, x)
    ensures Sorting.Orders(Less(t), m)
  {
    var less := Less(t);
    forall x | x in m ensures !less(x, x) {
      DocLessTotal(t, x, x);
    }
    forall x, y | x in m && y in m && x != y ensures less(x, y) || less(y, x) {
      DocLessTotal(t, x, y);
    }
    forall x, y, z | x in m && y in m && z in m && less(x, y) && less(y, z) ensures less(x, z) {
      DocLessTransitive(t, x, y, z);
    }
  }

  /** One entry is another one, or before it when back is not set, or after it when back is set. */
  ghost predicate NotPast(t: Tree, back: bool, x: XNode, y: XNode)
    requires Wf(t) && Has(t, x) && Has(t, y)
  {
    x == y || if back then DocLess(t, y, x) else DocLess(t, x, y)
  }

  /** s goes in one direction; entries may be repeated. */
  ghost predicate Weakly(t: Tree, back: bool, s: seq<XNode>)
    requires Wf(t) && AllHas(t, s)
  {
    forall i, j | 0 <= i < j < |s| :: NotPast(t, back, s[i], s[j])
  }

  /** What an order tag says of a list in which entries may be repeated. */
  ghost predicate Tagged(t: Tree, ty: SetType, s: seq<XNode>)
    requires Wf(t) && AllHas(t, s)
  {
    (ty == Sorted ==> Weakly(t, false, s)) && (ty == SortedReverse ==> Weakly(t, true, s))
  }

  lemma Neighbours(t: Tree, x: XNode, y: XNode)
    requires Wf(t) && Has(t, x) && Has(t, y)
    ensures NotPast(t, !DocLess(t, x, y), x, y)
  {
    DocLessTotal(t, x, y);
  }

  /** Entries that are not repeated go strictly in the direction found. */
  lemma OrderFound(t: Tree, back: bool, s: seq<XNode>)
    requires Wf(t) && AllHas(t, s) && Weakly(t, back, s)
    ensures var ty := if back then SortedReverse else Sorted; Tagged(t, ty, s) && (Distinct(s) ==> Truthful(t, NodeSet(ty, s)))
  {
  }

  /** How is s ordered? Only neighbours are compared. */
  method GetOrder(t: Tree, s: seq<XNode>) returns (ty: SetType)
    requires Wf(t) && AllHas(t, s)
    ensures Tagged(t, ty, s)
    ensures Distinct(s) ==> Truthful(t, NodeSet(ty, s))
  {
    if |s| < 2 {
      return Sorted;
    }
    var first := DocumentOrderLess(t, s[0], s[1]);
    Neighbours(t, s[0], s[1]);
    for i := 1 to |s| - 1
      invariant Weakly(t, !first, s[..i + 1])
    {
      var less := DocumentOrderLess(t, s[i], s[i + 1]);
      if less != first {
        return Unsorted;
      }
      Neighbours(t, s[i], s[i + 1]);
      ExtendOrder(t, !first, s, i);
    }
    assert s[..|s|] == s;
    OrderFound(t, !first, s);
    return if first then Sorted else SortedReverse;
  }

  lemma ExtendOrder(t: Tree, back: bool, s: seq<XNode>, i: nat)
    requires Wf(t) && AllHas(t, s) && 1 <= i < |s| - 1
    requires Weakly(t, back, s[..i + 1]) && NotPast(t, back, s[i], s[i + 1])
    ensures Weakly(t, back, s[..i + 2])
  {
    forall k | 0 <= k < i ensures NotPast(t, back, s[k], s[i + 1]) {
      assert s[..i + 1][k] == s[k] && s[..i + 1][i] == s[i];
      assert NotPast(t, back, s[k], s[i]);
    }
  }

  /** Sort into document order, or its reverse; a list that is ordered already is reversed or left alone. */
  method Sort(t: Tree, ns: NodeSet, rev: bool) returns (r: NodeSet)
    requires Wf(t) && Truthful(t, ns)
    ensures r.ty == (if rev then SortedReverse else Sorted) && Truthful(t, r) && multiset(r.items) == multiset(ns.items)
  {
    var order := if rev then SortedReverse else Sorted;
    var ty, items := ns.ty, ns.items;
    if ty == Unsorted {
      ty := GetOrder(t, items);
      if ty == Unsorted {
        items := SortItems(t, items);
        ty := Sorted;
      }
    }
    if ty != order {
      items := ReverseItems(t, items);
    }
    r := NodeSet(order, items);
  }

  method SortDo(t: Tree, ns: NodeSet) returns (r: NodeSet)
    requires Wf(t) && Truthful(t, ns)
    ensures r.ty == Sorted && Truthful(t, r) && multiset(r.items) == multiset(ns.items)
  {
    r := Sort(t, ns, false);
  }

  lemma SameElements(t: Tree, s: seq<XNode>, r: seq<XNode>)
    requires Wf(t) && AllHas(t, s) && multiset(r) == multiset(s)
    ensures AllHas(t, r) && forall x :: x in r <==> x in s
  {
    forall x ensures x in r <==> x in s {
      assert x in multiset(r) <==> x in multiset(s);
    }
  }

  lemma OrderedDistinct(t: Tree, s: seq<XNode>)
    requires Wf(t) && AllHas(t, s) && (Forward(t, s) || Backward(t, s))
    ensures Distinct(s)
  {
    forall i, j | 0 <= i < j < |s| ensures s[i] != s[j] {
      DocLessTotal(t, s[i], s[j]);
    }
  }

  method SortItems(t: Tree, s: seq<XNode>) returns (r: seq<XNode>)
    requires Wf(t) && AllHas(t, s) && Distinct(s)
    ensures AllHas(t, r) && Forward(t, r) && Distinct(r) && multiset(r) == multiset(s)
  {
    var a := new XNode[|s|](i requires 0 <= i < |s| => s[i]);
    assert a[..] == s;
    assert forall x | x in multiset(s) :: x in s;
    DocumentOrders(t, multiset(s));
    Sorting.Pow2Exceeds(|s|);
    Sorting.Sort(a, 0, a.Length, Less(t), |s|);
    r := a[..];
    SameElements(t, s, r);
    SortedForward(t, s, r);
    OrderedDistinct(t, r);
  }

  lemma SortedForward(t: Tree, s: seq<XNode>, r: seq<XNode>)
    requires Wf(t) && AllHas(t, r) && Distinct(s) && multiset(r) == multiset(s)
    requires Sorting.SortedRange(r, Less(t), 0, |r|)
    ensures Forward(t, r)
  {
    PermutationDistinct(s, r);
    forall i, j | 0 <= i < j < |r| ensures DocLess(t, r[i], r[j]) {
      DocLessTotal(t, r[i], r[j]);
      assert !Less(t)(r[j], r[i]);
    }
  }

  lemma PermutationDistinct<T>(s: seq<T>, r: seq<T>)
    requires Distinct(s) && multiset(r) == multiset(s)
    ensures Distinct(r)
  {
    forall i, j | 0 <= i < j < |r| ensures r[i] != r[j] {
      if r[i] == r[j] {
        TwiceInMultiset(r, i, j);
        OnceInMultiset(s, r[i]);
      }
    }
  }

  lemma TwiceInMultiset<T>(s: seq<T>, i: nat, j: nat)
    requires i < j < |s| && s[i] == s[j]
    ensures multiset(s)[s[i]] >= 2
  {
    assert s == s[..i] + [s[i]] + s[i + 1..j] + [s[j]] + s[j + 1..];
  }

  lemma {:induction false} OnceInMultiset<T>(s: seq<T>, x: T)
    requires Distinct(s)
    ensures multiset(s)[x] <= 1
  {
    if s != [] {
      assert s == [s[0]] + s[1..];
      OnceInMultiset(s[1..], x);
      if x == s[0] {
        assert x !in s[1..];
      }
    }
  }

  method ReverseItems(t: Tree, s: seq<XNode>) returns (r: seq<XNode>)
    requires Wf(t) && AllHas(t, s) && (Forward(t, s) || Backward(t, s))
    ensures AllHas(t, r) && Distinct(r) && multiset(r) == multiset(s)
    ensures Forward(t, s) ==> Backward(t, r)
    ensures Backward(t, s) ==> Forward(t, r)
  {
    var a := new XNode[|s|](i requires 0 <= i < |s| => s[i]);
    Sorting.ReverseRange(a, 0, a.Length);
    r := a[..];
    assert forall i | 0 <= i < |s| :: r[i] == s[|s| - 1 - i];
    ReversedElements(s, r);
    SameElements(t, s, r);
    OrderedDistinct(t, r);
  }

  lemma {:induction false} ReversedElements<T>(s: seq<T>, r: seq<T>)
    requires |r| == |s| && forall i | 0 <= i < |s| :: r[i] == s[|s| - 1 - i]
    ensures multiset(r) == multiset(s)
  {
    if s != [] {
      var n := |s| - 1;
      ReversedElements(s[1..], r[..n]);
      assert s == [s[0]] + s[1..] && r == r[..n] + [r[n]];
    }
  }

  ghost predicate IsFirst(t: Tree, s: seq<XNode>, x: XNode)
    requires Wf(t) && AllHas(t, s)
  {
    x in s && forall y | y in s :: x == y || DocLess(t, x, y)
  }

  /** The first entry in document order, whatever the tag; null for the empty set. */
  method First(t: Tree, ns: NodeSet) returns (x: XNode)
    requires Wf(t) && Truthful(t, ns)
    ensures ns.items == [] ==> x == XNull
    ensures ns.items != [] ==> IsFirst(t, ns.items, x)
  {
    if ns.items == [] {
      return XNull;
    }
    match ns.ty
    case Sorted => x := ns.items[0];
    case SortedReverse => x := ns.items[|ns.items| - 1];
    case Unsorted => x := MinElement(t, ns.items);
  }

  method MinElement(t: Tree, s: seq<XNode>) returns (x: XNode)
    requires Wf(t) && AllHas(t, s) && s != [] && Distinct(s)
    ensures IsFirst(t, s, x)
  {
    var best := 0;
    for it := 1 to |s|
      invariant 0 <= best < it
      invariant forall k | 0 <= k < it :: k == best || DocLess(t, s[best], s[k])
    {
      var less := DocumentOrderLess(t, s[it], s[best]);
      if less {
        forall k | 0 <= k < it ensures DocLess(t, s[it], s[k]) {
          if k != best {
            DocLessTransitive(t, s[it], s[best], s[k]);
          }
        }
        best := it;
      } else {
        DocLessTotal(t, s[it], s[best]);
      }
    }
    x := s[best];
  }

  // Removing duplicates: order by address, then drop repeats.

  /** Attributes before nodes, each by address. */
  predicate AddressLess(x: XNode, y: XNode) {
    if x.XAttr? then (if y.XAttr? then x.a < y.a else true)
    else if y.XAttr? then false
    else x.XElem? && y.XElem? && x.n < y.n
  }

  lemma OneHolder(t: Tree, a: Ref, p: Ref, q: Ref)
    requires Wf(t) && Has(t, XAttr(a, p)) && Has(t, XAttr(a, q))
    ensures p == q
  {
    assert AttrWf(t, p, FindAttr(t.node[p].attrs, a));
    assert AttrWf(t, q, FindAttr(t.node[q].attrs, a));
  }

  lemma AddressOrders(t: Tree, m: multiset<XNode>)
    requires Wf(t) && forall x | x in m :: Has(t, x)
    ensures Sorting.Orders(AddressLess, m)
  {
    forall x, y | x in m && y in m && x != y ensures AddressLess(x, y) || AddressLess(y, x) {
      if x.XAttr? && y.XAttr? && x.a == y.a {
        OneHolder(t, x.a, x.p, y.p);
      }
    }
  }

  /** Drop repeated entries: an unsorted list is sorted by address first, in an ordered one repeats are neighbours. */
  method RemoveDuplicates(t: Tree, ns: NodeSet) returns (r: seq<XNode>)
    requires Wf(t) && AllHas(t, ns.items) && Tagged(t, ns.ty, ns.items)
    ensures Distinct(r) && forall x :: x in r <==> x in ns.items
    ensures Truthful(t, NodeSet(ns.ty, r))
  {
    var s := ns.items;
    var a := new XNode[|s|](i requires 0 <= i < |s| => s[i]);
    assert a[..] == s;
    assert forall x | x in multiset(s) :: x in s;
    if ns.ty == Unsorted {
      AddressOrders(t, multiset(s));
      Sorting.Pow2Exceeds(|s|);
      Sorting.Sort(a, 0, a.Length, AddressLess, |s|);
    }
    ghost var sorted := a[..];
    assert a[0..a.Length] == sorted;
    var last := Sorting.Unique(a, 0, a.Length);
    r := a[0..last];
    if ns.ty == Unsorted {
      DedupedDistinct(s, sorted, r);
    } else {
      DedupedOrdered(t, ns.ty == SortedReverse, s, r);
    }
  }

  lemma DedupedDistinct(s: seq<XNode>, sorted: seq<XNode>, r: seq<XNode>)
    requires multiset(sorted) == multiset(s) && Sorting.Orders(AddressLess, multiset(s))
    requires Sorting.SortedRange(sorted, AddressLess, 0, |sorted|) && r == Sorting.Dedup(sorted)
    ensures Distinct(r) && forall x :: x in r <==> x in s
  {
    Sorting.DedupStrict(sorted, AddressLess);
    forall i, j | 0 <= i < j < |r| ensures r[i] != r[j] {
      assert AddressLess(r[i], r[j]);
    }
    forall x ensures x in r <==> x in s {
      Sorting.DedupKeeps(sorted, x);
      assert x in multiset(sorted) <==> x in multiset(s);
    }
  }

  function LessWhen(t: Tree, back: bool): (XNode, XNode) -> bool
    requires Wf(t)
  {
    if back then (x, y) => Less(t)(y, x) else Less(t)
  }

  /** In an ordered list it is enough to drop neighbouring repeats. */
  lemma DedupedOrdered(t: Tree, back: bool, s: seq<XNode>, r: seq<XNode>)
    requires Wf(t) && AllHas(t, s) && Weakly(t, back, s) && r == Sorting.Dedup(s)
    ensures AllHas(t, r) && Distinct(r) && if back then Backward(t, r) else Forward(t, r)
    ensures forall x :: x in r <==> x in s
  {
    var less := LessWhen(t, back);
    assert forall x | x in multiset(s) :: x in s;
    DocumentOrders(t, multiset(s));
    assert Sorting.Orders(less, multiset(s));
    forall i, j | 0 <= i < j < |s| ensures !less(s[j], s[i]) {
      DocLessTotal(t, s[i], s[j]);
      assert NotPast(t, back, s[i], s[j]);
    }
    Sorting.DedupStrict(s, less);
    forall x ensures x in r <==> x in s {
      Sorting.DedupKeeps(s, x);
    }
    forall i, j | 0 <= i < j < |r| ensures r[i] != r[j] {
      assert less(r[i], r[j]);
      DocLessTotal(t, r[i], r[j]);
    }
  }
}
