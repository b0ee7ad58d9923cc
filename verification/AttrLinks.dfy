/** Attribute lists as they are stored: next links, previous links in a cycle, and no links to the elements. */
module AttrLinks {
  import opened Sequences
  import opened XmlTree
  import opened DomLinks

  datatype Link = Link(prev: Ref, next: Ref)

  /** No attribute is in the list twice. */
  ghost predicate Single(s: seq<Ref>) {
    forall i {:trigger SoleAt(s, i)} | 0 <= i < |s| :: SoleAt(s, i)
  }

  ghost predicate SoleAt(s: seq<Ref>, i: nat)
    requires i < |s|
  {
    forall j | 0 <= j < |s| && j != i :: s[j] != s[i]
  }

  lemma SingleIs(s: seq<Ref>)
    ensures Single(s) <==> Distinct(s)
  {
    if Single(s) {
      forall i, j | 0 <= i < j < |s| ensures s[i] != s[j] {
        assert SoleAt(s, i);
      }
    }
  }

  /** The links spell out the list s. */
  ghost predicate Chained(links: map<Ref, Link>, first: Ref, s: seq<Ref>) {
    && Single(s) && 0 !in s && first == FirstIn(s)
    && forall i {:trigger s[i]} | 0 <= i < |s| :: ChainedAt(links, s, i)
  }

  ghost predicate ChainedAt(links: map<Ref, Link>, s: seq<Ref>, i: nat)
    requires i < |s|
  {
    s[i] in links && links[s[i]] == Link(PrevIn(s, i), NextIn(s, i))
  }

  /** What changes in the links when x is put in at position i. */
  ghost predicate PutIn(w: map<Ref, Link>, s: seq<Ref>, i: nat, x: Ref)
    requires i <= |s|
  {
    var r := InsertAt(s, i, x);
    && x in w && w[x] == Link(PrevIn(r, i), NextIn(r, i))
    && forall j {:trigger s[j]} | 0 <= j < |s| :: s[j] in w && w[s[j]] == Link(
         if i < |s| && j == i then x else if i == |s| && j == 0 then x else PrevIn(s, j),
         if j + 1 == i then x else NextIn(s, j))
  }

  lemma PutChained(links: map<Ref, Link>, first: Ref, w: map<Ref, Link>, s: seq<Ref>, i: nat, x: Ref)
    requires Chained(links, first, s) && i <= |s| && x != 0 && x !in s && PutIn(w, s, i, x)
    ensures Chained(w, if i == 0 then x else first, InsertAt(s, i, x))
  {
    var r := InsertAt(s, i, x);
    PutSingle(s, i, x);
    forall j | 0 <= j < |r| ensures r[j] != 0 && ChainedAt(w, r, j) {
      PutAt(w, s, i, x, j);
    }
  }

  /** The links of x and of its neighbours are all that has been written. */
  ghost predicate Spliced(links: map<Ref, Link>, w: map<Ref, Link>, s: seq<Ref>, i: nat, x: Ref)
    requires i <= |s|
  {
    && x in w && w[x] == Link(if i > 0 then s[i - 1] else if s == [] then x else s[|s| - 1], if i < |s| then s[i] else 0)
    && forall n {:trigger links[n]} | n in links && n != 0 && n != x :: n in w && w[n] == Link(
         if n == AfterAt(s, i) then x else links[n].prev,
         if n == BeforeAt(s, i) then x else links[n].next)
  }

  lemma SplicedPut(links: map<Ref, Link>, first: Ref, w: map<Ref, Link>, s: seq<Ref>, i: nat, x: Ref)
    requires Chained(links, first, s) && i <= |s| && x != 0 && x !in s && Spliced(links, w, s, i, x)
    ensures Chained(w, if i == 0 then x else first, InsertAt(s, i, x))
  {
    forall j {:trigger s[j]} | 0 <= j < |s|
      ensures s[j] in w && w[s[j]] == Link(
        if i < |s| && j == i then x else if i == |s| && j == 0 then x else PrevIn(s, j),
        if j + 1 == i then x else NextIn(s, j))
    {
      assert ChainedAt(links, s, j) && SoleAt(s, j);
    }
    PutChained(links, first, w, s, i, x);
  }

  lemma PutSingle(s: seq<Ref>, i: nat, x: Ref)
    requires Single(s) && i <= |s| && x !in s
    ensures Single(InsertAt(s, i, x))
  {
    SingleIs(s);
    InsertDistinct(s, i, x);
    SingleIs(InsertAt(s, i, x));
  }

  lemma PutAt(w: map<Ref, Link>, s: seq<Ref>, i: nat, x: Ref, j: nat)
    requires 0 !in s && i <= |s| && j <= |s| && x != 0 && PutIn(w, s, i, x)
    ensures InsertAt(s, i, x)[j] != 0 && ChainedAt(w, InsertAt(s, i, x), j)
  {
    var r := InsertAt(s, i, x);
    if j < i {
      assert r[j] == s[j];
    } else if j > i {
      assert r[j] == s[j - 1];
    }
  }

  /** The previous link of attribute j when the list leads past attribute i, and its next link. */
  function PrevWithout(s: seq<Ref>, i: nat, j: nat): Ref
    requires i < |s| && j < |s|
  {
    if j == i + 1 || (j == 0 && i == |s| - 1) then PrevIn(s, i) else PrevIn(s, j)
  }

  function NextWithout(s: seq<Ref>, i: nat, j: nat): Ref
    requires i < |s| && j < |s|
  {
    if j + 1 == i then NextIn(s, i) else NextIn(s, j)
  }

  /** What changes when the i-th attribute is taken out. */
  ghost predicate TakenOut(w: map<Ref, Link>, s: seq<Ref>, i: nat)
    requires i < |s|
  {
    forall j {:trigger s[j]} | 0 <= j < |s| && j != i :: s[j] in w && w[s[j]] == Link(PrevWithout(s, i, j), NextWithout(s, i, j))
  }

  lemma TakenChained(links: map<Ref, Link>, first: Ref, w: map<Ref, Link>, s: seq<Ref>, i: nat)
    requires Chained(links, first, s) && i < |s| && TakenOut(w, s, i)
    ensures Chained(w, if i == 0 then NextIn(s, 0) else first, RemoveAt(s, i))
  {
    var r := RemoveAt(s, i);
    TakenSingle(s, i);
    forall j | 0 <= j < |r| ensures ChainedAt(w, r, j) {
      TakenAt(w, s, i, j);
    }
  }

  lemma TakenSingle(s: seq<Ref>, i: nat)
    requires Single(s) && 0 !in s && i < |s|
    ensures Single(RemoveAt(s, i)) && 0 !in RemoveAt(s, i)
  {
    var r := RemoveAt(s, i);
    SingleIs(s);
    assert forall j | 0 <= j < |r| :: r[j] == s[if j < i then j else j + 1];
    SingleIs(r);
  }

  lemma TakenAt(w: map<Ref, Link>, s: seq<Ref>, i: nat, j: nat)
    requires i < |s| && j < |s| - 1 && TakenOut(w, s, i)
    ensures ChainedAt(w, RemoveAt(s, i), j)
  {
    var r := RemoveAt(s, i);
    if j < i {
      assert r[j] == s[j];
    } else {
      assert r[j] == s[j + 1];
    }
  }

  // The lists of all nodes.

  /** The links spell out a list for each node, and no attribute is in two lists. */
  ghost predicate Threads(links: map<Ref, Link>, first: map<Ref, Ref>, lists: map<Ref, seq<Ref>>) {
    && (forall n {:trigger lists[n]} | n in lists :: ThreadAt(links, first, lists, n))
    && (forall n, m {:trigger ApartAt(lists, n, m)} | n in lists && m in lists && n != m :: ApartAt(lists, n, m))
  }

  ghost predicate ThreadAt(links: map<Ref, Link>, first: map<Ref, Ref>, lists: map<Ref, seq<Ref>>, n: Ref)
    requires n in lists
  {
    n in first && Chained(links, first[n], lists[n])
  }

  ghost predicate ApartAt(lists: map<Ref, seq<Ref>>, n: Ref, m: Ref)
    requires n in lists && m in lists
  {
    forall a | a in lists[n] :: a !in lists[m]
  }

  /** The attribute is in no list. */
  ghost predicate Free(lists: map<Ref, seq<Ref>>, a: Ref) {
    a != 0 && forall n {:trigger lists[n]} | n in lists :: a !in lists[n]
  }

  /** Only links of s and of the attribute a have changed. */
  ghost predicate OthersSame(links: map<Ref, Link>, w: map<Ref, Link>, s: seq<Ref>, a: Ref) {
    forall x {:trigger links[x]} | x in links && x !in s && x != a && x != 0 :: x in w && w[x] == links[x]
  }

  /** One node gets a new list, made of its attributes and a free one. */
  lemma Rethreaded(links: map<Ref, Link>, first: map<Ref, Ref>, lists: map<Ref, seq<Ref>>, w: map<Ref, Link>, f: Ref, n: Ref, s: seq<Ref>, a: Ref)
    requires Threads(links, first, lists) && n in lists && (Free(lists, a) || a in lists[n])
    requires OthersSame(links, w, lists[n], a) && Chained(w, f, s) && forall x | x in s :: x == a || x in lists[n]
    ensures Threads(w, first[n := f], lists[n := s])
  {
    var r := lists[n := s];
    forall m {:trigger r[m]} | m in r ensures ThreadAt(w, first[n := f], r, m) {
      if m != n {
        assert ThreadAt(links, first, lists, m) && ApartAt(lists, m, n);
        StillChained(links, w, first[m], lists[m], lists[n], a);
      }
    }
    forall x, y {:trigger ApartAt(r, x, y)} | x in r && y in r && x != y ensures ApartAt(r, x, y) {
      assert ApartAt(lists, x, y) && ApartAt(lists, y, x);
      assert lists[x] == lists[x] && lists[y] == lists[y];
    }
  }

  lemma StillChained(links: map<Ref, Link>, w: map<Ref, Link>, f: Ref, s: seq<Ref>, k: seq<Ref>, a: Ref)
    requires Chained(links, f, s) && OthersSame(links, w, k, a) && a !in s && forall x | x in s :: x !in k
    ensures Chained(w, f, s)
  {
    forall i | 0 <= i < |s| ensures ChainedAt(w, s, i) {
      assert ChainedAt(links, s, i) && s[i] in s;
    }
  }

  lemma SplicedOthers(links: map<Ref, Link>, w: map<Ref, Link>, s: seq<Ref>, i: nat, x: Ref)
    requires i <= |s| && Spliced(links, w, s, i, x)
    ensures OthersSame(links, w, s, x)
  {
    assert AfterAt(s, i) == 0 || AfterAt(s, i) in s;
    assert BeforeAt(s, i) == 0 || BeforeAt(s, i) in s;
  }

  /** Writing x between its neighbours: the one after it gets a new previous link, the one before it a new next link. */
  lemma SplicedBy(links: map<Ref, Link>, first: Ref, w: map<Ref, Link>, s: seq<Ref>, i: nat, x: Ref)
    requires Chained(links, first, s) && i <= |s| && x != 0 && x !in s
    requires s != [] ==> AfterAt(s, i) in links && (i > 0 ==> s[i - 1] in links)
    requires var at := Link(if i > 0 then s[i - 1] else if s == [] then x else s[|s| - 1], if i < |s| then s[i] else 0);
      var v := if s == [] then links[x := at] else links[x := at][AfterAt(s, i) := links[AfterAt(s, i)].(prev := x)];
      w == if i == 0 then v else v[s[i - 1] := v[s[i - 1]].(next := x)]
    ensures Spliced(links, w, s, i, x)
  {
    assert s != [] ==> AfterAt(s, i) in s;
    assert i > 0 ==> BeforeAt(s, i) in s;
  }

  /** The list of n has gained a free attribute. */
  lemma Gained(links: map<Ref, Link>, first: map<Ref, Ref>, lists: map<Ref, seq<Ref>>, w: map<Ref, Link>, n: Ref, i: nat, x: Ref)
    requires Threads(links, first, lists) && n in lists && Free(lists, x) && i <= |lists[n]| && n in first && Spliced(links, w, lists[n], i, x)
    ensures Threads(w, if i == 0 then first[n := x] else first, lists[n := InsertAt(lists[n], i, x)])
  {
    var s, f := lists[n], if i == 0 then x else first[n];
    assert Chained(w, f, InsertAt(s, i, x)) by {
      assert ThreadAt(links, first, lists, n);
      SplicedPut(links, first[n], w, s, i, x);
    }
    SplicedOthers(links, w, s, i, x);
    PutMembers(s, i, x);
    Rethreaded(links, first, lists, w, f, n, InsertAt(s, i, x), x);
    assert first[n := first[n]] == first;
  }

  lemma PutMembers(s: seq<Ref>, i: nat, x: Ref)
    requires i <= |s|
    ensures forall y | y in InsertAt(s, i, x) :: y == x || y in s
  {
    assert s == s[..i] + s[i..];
  }

  lemma TakenMembers(s: seq<Ref>, i: nat)
    requires i < |s|
    ensures forall y | y in RemoveAt(s, i) :: y in s
  {
    assert s == s[..i] + [s[i]] + s[i + 1..];
  }

  /** The list of n has lost its i-th attribute. */
  lemma Lost(links: map<Ref, Link>, first: map<Ref, Ref>, lists: map<Ref, seq<Ref>>, w: map<Ref, Link>, n: Ref, i: nat)
    requires Threads(links, first, lists) && n in lists && n in first && i < |lists[n]| && TakenOut(w, lists[n], i)
    requires OthersSame(links, w, lists[n], lists[n][i])
    ensures Threads(w, if i == 0 then first[n := NextIn(lists[n], 0)] else first, lists[n := RemoveAt(lists[n], i)])
  {
    var s, f := lists[n], if i == 0 then NextIn(lists[n], 0) else first[n];
    assert Chained(w, f, RemoveAt(s, i)) by {
      assert ThreadAt(links, first, lists, n);
      TakenChained(links, first[n], w, s, i);
    }
    TakenMembers(s, i);
    Rethreaded(links, first, lists, w, f, n, RemoveAt(s, i), s[i]);
    assert first[n := first[n]] == first;
  }

  /** The links after a has been put in behind the i-th attribute of s. */
  method LinkAfter(links: map<Ref, Link>, first: Ref, a: Ref, place: Ref, ghost s: seq<Ref>, ghost i: nat) returns (w: map<Ref, Link>)
    requires Chained(links, first, s) && i < |s| && place == s[i] && a != 0 && a !in s
    ensures Spliced(links, w, s, i + 1, a)
  {
    w := links;
    Around(links, first, s, i);
    w := w[a := Link(0, 0)];
    if w[place].next != 0 {
      var next := w[place].next;
      w := w[next := w[next].(prev := a)];
    } else {
      w := w[first := w[first].(prev := a)];
    }
    w := w[a := w[a].(next := w[place].next)];
    w := w[a := w[a].(prev := place)];
    w := w[place := w[place].(next := a)];
  }

  /** The links and the first attribute after a has been put in before the i-th attribute of s. */
  method LinkBefore(links: map<Ref, Link>, first: Ref, a: Ref, place: Ref, ghost s: seq<Ref>, ghost i: nat) returns (w: map<Ref, Link>, head: Ref)
    requires Chained(links, first, s) && i < |s| && place == s[i] && a != 0 && a !in s
    ensures Spliced(links, w, s, i, a) && head == if i == 0 then a else first
  {
    w, head := links, first;
    Around(links, first, s, i);
    w := w[a := Link(0, 0)];
    var before := w[place].prev;
    if w[before].next != 0 {
      w := w[before := w[before].(next := a)];
    } else {
      head := a;
    }
    w := w[a := w[a].(prev := w[place].prev)];
    w := w[a := w[a].(next := place)];
    w := w[place := w[place].(prev := a)];
  }

  /** The links and the first attribute after the i-th attribute has been taken out of s. */
  method Unlink(links: map<Ref, Link>, first: Ref, a: Ref, ghost s: seq<Ref>, ghost i: nat) returns (w: map<Ref, Link>, head: Ref)
    requires Chained(links, first, s) && i < |s| && a == s[i]
    ensures TakenOut(w, s, i) && OthersSame(links, w, s, a) && head == if i == 0 then NextIn(s, 0) else first
  {
    w, head := links, first;
    Around(links, first, s, i);
    if w[a].next != 0 {
      var next := w[a].next;
      w := w[next := w[next].(prev := w[a].prev)];
    } else {
      w := w[first := w[first].(prev := w[a].prev)];
    }
    assert w == links[PastAt(s, i) := links[PastAt(s, i)].(prev := PrevIn(s, i))];
    Bypassed(links, first, w, s, i);
    ghost var mid := w;
    var before := w[a].prev;
    if w[before].next != 0 {
      w := w[before := w[before].(next := w[a].next)];
    } else {
      head := w[a].next;
    }
    Unhooked(mid, w, s, i, Link(0, 0));
    w := w[a := Link(0, 0)];
  }

  /** The attributes of all nodes as they are stored: the first one of each node, and the links of each attribute. */
  class AttrStore {
    var first: map<Ref, Ref>
    var links: map<Ref, Link>
    ghost var lists: map<Ref, seq<Ref>>

    ghost predicate Valid()
      reads this
    {
      Threads(links, first, lists)
    }

    constructor ()
      ensures Valid() && lists == map[]
    {
      first, links, lists := map[], map[], map[];
    }

    /** A node without attributes. */
    method NewNode(n: Ref)
      requires Valid() && n !in lists
      modifies this
      ensures Valid() && lists == old(lists)[n := []]
    {
      ghost var was := lists;
      first := first[n := 0];
      lists := lists[n := []];
      forall m {:trigger lists[m]} | m in lists ensures ThreadAt(links, first, lists, m) {
        assert m != n ==> ThreadAt(links, old(first), was, m);
      }
      forall x, y {:trigger ApartAt(lists, x, y)} | x in lists && y in lists && x != y ensures ApartAt(lists, x, y) {
        assert x != n && y != n ==> ApartAt(was, x, y);
      }
    }

    /** Is a one of the attributes of n? */
    method IsAttributeOf(a: Ref, n: Ref) returns (b: bool)
      requires Valid() && n in lists
      ensures b == (a in lists[n])
    {
      ghost var s, i := lists[n], 0;
      assert n in first && Chained(links, first[n], s) by {
        assert ThreadAt(links, first, lists, n);
      }
      var cur := first[n];
      while cur != 0
        invariant i <= |s| && cur == (if i < |s| then s[i] else 0) && forall j | 0 <= j < i :: s[j] != a
        decreases |s| - i
      {
        if cur == a {
          return true;
        }
        assert ChainedAt(links, s, i);
        cur := links[cur].next;
        i := i + 1;
      }
      b := false;
    }

    method Append(a: Ref, n: Ref)
      requires Valid() && n in lists && Free(lists, a)
      modifies this
      ensures Valid() && lists == old(lists)[n := InsertAt(old(lists)[n], |old(lists)[n]|, a)]
    {
      ghost var s, was := lists[n], links;
      assert ThreadAt(was, first, lists, n);
      var w := links[a := Link(0, 0)];
      var head := first[n];
      if head != 0 {
        assert ChainedAt(was, s, 0) && ChainedAt(was, s, |s| - 1);
        var tail := w[head].prev;
        w := w[tail := w[tail].(next := a)];
        w := w[a := w[a].(prev := tail)];
        w := w[head := w[head].(prev := a)];
      } else {
        first := first[n := a];
        w := w[a := w[a].(prev := a)];
      }
      SplicedBy(was, FirstIn(s), w, s, |s|, a);
      Gained(was, old(first), lists, w, n, |s|, a);
      links := w;
      lists := lists[n := InsertAt(s, |s|, a)];
    }

    method Prepend(a: Ref, n: Ref)
      requires Valid() && n in lists && Free(lists, a)
      modifies this
      ensures Valid() && lists == old(lists)[n := InsertAt(old(lists)[n], 0, a)]
    {
      ghost var s, was := lists[n], links;
      assert ThreadAt(was, first, lists, n);
      var w := links[a := Link(0, 0)];
      var head := first[n];
      if head != 0 {
        assert ChainedAt(was, s, 0);
        w := w[a := w[a].(prev := w[head].prev)];
        w := w[head := w[head].(prev := a)];
      } else {
        w := w[a := w[a].(prev := a)];
      }
      w := w[a := w[a].(next := head)];
      SplicedBy(was, FirstIn(s), w, s, 0, a);
      Gained(was, first, lists, w, n, 0, a);
      first, links := first[n := a], w;
      lists := lists[n := InsertAt(s, 0, a)];
    }

    method InsertAfter(a: Ref, place: Ref, n: Ref, ghost i: nat)
      requires Valid() && n in lists && Free(lists, a) && i < |lists[n]| && lists[n][i] == place
      modifies this
      ensures Valid() && lists == old(lists)[n := InsertAt(old(lists)[n], i + 1, a)]
    {
      ghost var s := lists[n];
      assert ThreadAt(links, first, lists, n);
      var w := LinkAfter(links, first[n], a, place, s, i);
      Gained(links, first, lists, w, n, i + 1, a);
      links := w;
      lists := lists[n := InsertAt(s, i + 1, a)];
    }

    method InsertBefore(a: Ref, place: Ref, n: Ref, ghost i: nat)
      requires Valid() && n in lists && Free(lists, a) && i < |lists[n]| && lists[n][i] == place
      modifies this
      ensures Valid() && lists == old(lists)[n := InsertAt(old(lists)[n], i, a)]
    {
      ghost var s := lists[n];
      assert ThreadAt(links, first, lists, n);
      var w, head := LinkBefore(links, first[n], a, place, s, i);
      Gained(links, first, lists, w, n, i, a);
      assert first[n := first[n]] == first;
      first, links := first[n := head], w;
      lists := lists[n := InsertAt(s, i, a)];
    }

    method Remove(a: Ref, n: Ref, ghost i: nat)
      requires Valid() && n in lists && i < |lists[n]| && lists[n][i] == a
      modifies this
      ensures Valid() && lists == old(lists)[n := RemoveAt(old(lists)[n], i)]
    {
      ghost var s := lists[n];
      assert ThreadAt(links, first, lists, n);
      var w, head := Unlink(links, first[n], a, s, i);
      Lost(links, first, lists, w, n, i);
      assert first[n := first[n]] == first;
      first, links := first[n := head], w;
      lists := lists[n := RemoveAt(s, i)];
    }

    /** Free the attributes of a node, and forget the node. */
    method Forget(n: Ref)
      requires Valid() && n in lists
      modifies this
      ensures Valid() && lists == old(lists) - {n} && forall a | a in old(lists)[n] :: a !in links
    {
      ghost var s, was, i := lists[n], links, 0;
      assert ThreadAt(was, first, lists, n);
      var cur := first[n];
      while cur != 0
        invariant i <= |s| && cur == (if i < |s| then s[i] else 0)
        invariant first == old(first) && lists == old(lists) && links.Keys == was.Keys - set a | a in s[..i]
        invariant forall x | x in links :: links[x] == was[x]
        decreases |s| - i
      {
        assert ChainedAt(was, s, i) && SoleAt(s, i) && s[..i + 1] == s[..i] + [s[i]];
        var next := links[cur].next;
        links := links - {cur};
        cur := next;
        i := i + 1;
      }
      assert s[..|s|] == s;
      Forgotten(was, first, lists, links, n);
      first, lists := first - {n}, lists - {n};
    }
  }

  lemma Forgotten(links: map<Ref, Link>, first: map<Ref, Ref>, lists: map<Ref, seq<Ref>>, w: map<Ref, Link>, n: Ref)
    requires Threads(links, first, lists) && n in lists
    requires w.Keys == links.Keys - (set a | a in lists[n]) && forall x | x in w :: w[x] == links[x]
    ensures Threads(w, first - {n}, lists - {n})
  {
    var r := lists - {n};
    forall m {:trigger r[m]} | m in r ensures ThreadAt(w, first - {n}, r, m) {
      assert ThreadAt(links, first, lists, m) && ApartAt(lists, m, n);
      StillChained(links, w, first[m], lists[m], lists[n], 0);
    }
    forall x, y {:trigger ApartAt(r, x, y)} | x in r && y in r && x != y ensures ApartAt(r, x, y) {
      assert ApartAt(lists, x, y);
    }
    assert Threads(w, first - {n}, r);
  }

  /** The list when the link back to the i-th attribute leads past it. */
  ghost predicate PrevPast(w: map<Ref, Link>, s: seq<Ref>, i: nat)
    requires i < |s|
  {
    forall j {:trigger s[j]} | 0 <= j < |s| :: s[j] in w && w[s[j]] == Link(PrevWithout(s, i, j), NextIn(s, j))
  }

  /** The attribute whose link back leads to the i-th. */
  function PastAt(s: seq<Ref>, i: nat): Ref
    requires i < |s|
  {
    if i + 1 < |s| then s[i + 1] else s[0]
  }

  lemma Bypassed(links: map<Ref, Link>, first: Ref, w: map<Ref, Link>, s: seq<Ref>, i: nat)
    requires Chained(links, first, s) && i < |s|
    requires PastAt(s, i) in links
    requires w == links[PastAt(s, i) := links[PastAt(s, i)].(prev := PrevIn(s, i))]
    ensures PrevPast(w, s, i) && w[s[i]] == Link(PrevIn(s, i), NextIn(s, i))
    ensures w[PrevIn(s, i)].next == if i == 0 then 0 else s[i]
  {
    forall j | 0 <= j < |s|
      ensures s[j] in w && w[s[j]] == Link(PrevWithout(s, i, j), NextIn(s, j))
    {
      assert ChainedAt(links, s, j) && SoleAt(s, j);
    }
  }

  lemma Unhooked(mid: map<Ref, Link>, w: map<Ref, Link>, s: seq<Ref>, i: nat, x: Link)
    requires Single(s) && i < |s| && PrevPast(mid, s, i)
    requires i == 0 ==> w == mid
    requires i > 0 ==> s[i - 1] in mid && w == mid[s[i - 1] := mid[s[i - 1]].(next := NextIn(s, i))]
    ensures TakenOut(w[s[i] := x], s, i)
  {
    forall j | 0 <= j < |s| && j != i
      ensures s[j] in w && s[j] != s[i] && w[s[j]] == Link(PrevWithout(s, i, j), NextWithout(s, i, j))
    {
      assert SoleAt(s, j);
    }
  }

  /** What the operations read beside the i-th attribute. */
  ghost predicate Beside(links: map<Ref, Link>, first: Ref, s: seq<Ref>, i: nat)
    requires i < |s|
  {
    && s[i] in links && links[s[i]] == Link(PrevIn(s, i), NextIn(s, i)) && first == s[0]
    && PrevIn(s, i) in links && links[PrevIn(s, i)].next == (if i == 0 then 0 else s[i])
    && s[i] != 0 && PastAt(s, i) in links && PastAt(s, i) != 0 && s[0] in links
  }

  /** The links of an attribute's neighbours. */
  lemma Around(links: map<Ref, Link>, first: Ref, s: seq<Ref>, i: nat)
    requires Chained(links, first, s) && i < |s|
    ensures ChainedAt(links, s, i) && ChainedAt(links, s, 0) && ChainedAt(links, s, |s| - 1)
    ensures i > 0 ==> ChainedAt(links, s, i - 1)
    ensures i + 1 < |s| ==> ChainedAt(links, s, i + 1)
    ensures forall j | 0 <= j < |s| :: s[j] != 0
    ensures SoleAt(s, i) && Beside(links, first, s, i)
  {
    assert i > 0 ==> ChainedAt(links, s, i - 1);
    assert ChainedAt(links, s, |s| - 1) && ChainedAt(links, s, 0) && ChainedAt(links, s, i);
    assert i + 1 < |s| ==> ChainedAt(links, s, i + 1);
  }
}
