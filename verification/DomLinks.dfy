/**
 * Sibling lists as the document stores them: each node links to its parent, first child and next sibling,
 * and to its previous sibling in a cycle, so that the first child knows the last.
 */
module DomLinks {
  import opened Sequences
  import opened XmlTree

  /** A node as it is stored: its contents and its link fields. */
  datatype Links = Links(info: Info, attrs: seq<Attr>, parent: Ref, first: Ref, prev: Ref, next: Ref)

  // Child lists. Besides the root there may be other nodes without a parent: new ones and detached ones.

  ghost predicate KidOk(m: map<Ref, Node>, n: Ref, i: nat)
    requires n in m && i < |m[n].kids|
  {
    var c := m[n].kids[i];
    c in m && m[c].parent == n && m[c].index == i
  }

  ghost predicate PlaceOk(m: map<Ref, Node>, n: Ref)
    requires n in m
  {
    var p, i := m[n].parent, m[n].index;
    p != 0 ==> p in m && i < |m[p].kids| && m[p].kids[i] == n
  }

  /** Child lists and parents agree, and nobody is in two places. */
  ghost predicate Lists(m: map<Ref, Node>) {
    && 0 !in m
    && (forall n, i {:trigger m[n].kids[i]} | n in m && 0 <= i < |m[n].kids| :: KidOk(m, n, i))
    && (forall n {:trigger PlaceOk(m, n)} | n in m :: PlaceOk(m, n))
  }

  function FirstIn(s: seq<Ref>): Ref {
    if s == [] then 0 else s[0]
  }

  function NextIn(s: seq<Ref>, i: nat): Ref {
    if i + 1 < |s| then s[i + 1] else 0
  }

  /** The predecessor in the cycle. */
  function PrevIn(s: seq<Ref>, i: nat): Ref
    requires i < |s|
  {
    if i == 0 then s[|s| - 1] else s[i - 1]
  }

  /** The links of a node say where it stands. */
  ghost predicate LinkedAt(links: map<Ref, Links>, m: map<Ref, Node>, n: Ref)
    requires Lists(m) && n in m
  {
    assert PlaceOk(m, n);
    var p, i := m[n].parent, m[n].index;
    && n in links && links[n].info == m[n].info && links[n].attrs == m[n].attrs && links[n].parent == p && links[n].first == FirstIn(m[n].kids)
    && (p == 0 ==> links[n].next == 0)
    && (p != 0 ==> links[n].next == NextIn(m[p].kids, i) && links[n].prev == PrevIn(m[p].kids, i))
  }

  ghost predicate Linked(links: map<Ref, Links>, m: map<Ref, Node>) {
    && Lists(m)
    && forall n {:trigger LinkedAt(links, m, n)} | n in m :: LinkedAt(links, m, n)
  }

  // Giving a node a new list of children.

  /** A node after p has been given the children s. Former children that are not in s are detached. */
  function Moved(m: map<Ref, Node>, p: Ref, s: seq<Ref>, n: Ref): Node
    requires n in m
  {
    var kids := if n == p then s else m[n].kids;
    if n in s then m[n].(kids := kids, parent := p, index := IndexOf(s, n))
    else if m[n].parent == p then m[n].(kids := kids, parent := 0, index := 0)
    else m[n].(kids := kids)
  }

  function Relink(m: map<Ref, Node>, p: Ref, s: seq<Ref>): map<Ref, Node> {
    map n | n in m :: Moved(m, p, s, n)
  }

  /** s may become the child list of p: children of p and nodes without parent. */
  ghost predicate CanHave(m: map<Ref, Node>, p: Ref, s: seq<Ref>) {
    && p in m && p !in s && m[p].parent != p && Distinct(s)
    && forall x | x in s :: x in m && (m[x].parent == p || m[x].parent == 0)
  }

  lemma RelinkLists(m: map<Ref, Node>, p: Ref, s: seq<Ref>)
    requires Lists(m) && CanHave(m, p, s)
    ensures Lists(Relink(m, p, s))
  {
    var r := Relink(m, p, s);
    forall n, i {:trigger KidOk(r, n, i)} | n in r && 0 <= i < |r[n].kids| ensures KidOk(r, n, i) {
      if n == p {
        IndexOfDistinct(s, i);
        assert r[s[i]] == Moved(m, p, s, s[i]);
      } else {
        assert KidOk(m, n, i);
      }
    }
    forall n {:trigger PlaceOk(r, n)} | n in r ensures PlaceOk(r, n) {
      assert PlaceOk(m, n);
    }
  }

  /** What the writes of one list operation have to achieve at node n. */
  ghost predicate WrittenAt(links: map<Ref, Links>, w: map<Ref, Links>, m: map<Ref, Node>, p: Ref, s: seq<Ref>, n: Ref)
    requires n in links
  {
    && n in w && n in m
    && w[n] ==
       if n == p then links[n].(first := FirstIn(s))
       else if n in s then links[n].(parent := p, prev := PrevIn(s, IndexOf(s, n)), next := NextIn(s, IndexOf(s, n)))
       else if m[n].parent == p then links[n].(parent := 0, prev := 0, next := 0)
       else links[n]
  }

  lemma RelinkLinked(links: map<Ref, Links>, w: map<Ref, Links>, m: map<Ref, Node>, p: Ref, s: seq<Ref>)
    requires Linked(links, m) && CanHave(m, p, s)
    requires forall n {:trigger WrittenAt(links, w, m, p, s, n)} | n in m && n in links :: WrittenAt(links, w, m, p, s, n)
    ensures Linked(w, Relink(m, p, s))
  {
    RelinkLists(m, p, s);
    var r := Relink(m, p, s);
    forall n {:trigger LinkedAt(w, r, n)} | n in r ensures LinkedAt(w, r, n) {
      assert LinkedAt(links, m, n) && PlaceOk(m, n) && WrittenAt(links, w, m, p, s, n);
      if n in s {
        assert s[IndexOf(s, n)] == n;
      }
    }
  }

  /** The links of the children of p. */
  lemma ChildLinks(links: map<Ref, Links>, m: map<Ref, Node>, p: Ref, i: nat)
    requires Linked(links, m) && p in m && i < |m[p].kids|
    ensures m[p].kids[i] in m && m[m[p].kids[i]].parent == p && m[m[p].kids[i]].index == i && m[p].kids[i] != 0
    ensures m[p].kids[i] in links && links[m[p].kids[i]].parent == p
    ensures links[m[p].kids[i]].next == NextIn(m[p].kids, i) && links[m[p].kids[i]].prev == PrevIn(m[p].kids, i)
  {
    assert KidOk(m, p, i);
    assert LinkedAt(links, m, m[p].kids[i]);
  }

  lemma KidsDistinct(m: map<Ref, Node>, p: Ref)
    requires Lists(m) && p in m
    ensures Distinct(m[p].kids)
    ensures forall x | x in m[p].kids :: x in m && m[x].parent == p
  {
    forall i | 0 <= i < |m[p].kids| ensures KidOk(m, p, i) {
    }
  }

  lemma CanInsert(m: map<Ref, Node>, p: Ref, i: nat, c: Ref)
    requires Lists(m) && p in m && c in m && c != p && m[c].parent == 0 && m[p].parent != p && i <= |m[p].kids|
    ensures CanHave(m, p, InsertAt(m[p].kids, i, c))
    ensures c !in m[p].kids && forall x :: x in InsertAt(m[p].kids, i, c) <==> x == c || x in m[p].kids
  {
    var k := m[p].kids;
    KidsDistinct(m, p);
    assert k == k[..i] + k[i..];
    InsertDistinct(k, i, c);
  }

  lemma InsertDistinct(k: seq<Ref>, i: nat, c: Ref)
    requires Distinct(k) && i <= |k| && c !in k
    ensures Distinct(InsertAt(k, i, c))
  {
    var r := InsertAt(k, i, c);
    forall a, b | 0 <= a < b < |r| ensures r[a] != r[b] {
      assert r[a] == if a < i then k[a] else if a == i then c else k[a - 1];
      assert r[b] == if b < i then k[b] else if b == i then c else k[b - 1];
    }
  }

  lemma CanRemove(m: map<Ref, Node>, p: Ref, i: nat)
    requires Lists(m) && p in m && m[p].parent != p && i < |m[p].kids|
    ensures CanHave(m, p, RemoveAt(m[p].kids, i))
    ensures forall x :: x in RemoveAt(m[p].kids, i) <==> x in m[p].kids && x != m[p].kids[i]
  {
    var k := m[p].kids;
    KidsDistinct(m, p);
    assert k == k[..i] + [k[i]] + k[i + 1..];
  }

  function BeforeAt(k: seq<Ref>, i: nat): Ref
    requires i <= |k|
  {
    if i == 0 then 0 else k[i - 1]
  }

  /** The node whose cyclic predecessor becomes the one put in at position i. */
  function AfterAt(k: seq<Ref>, i: nat): Ref
    requires i <= |k|
  {
    if k == [] then 0 else if i < |k| then k[i] else k[0]
  }

  /** The links of node n after c has been put in at position i among the children k of p. */
  predicate InsertedAt(links: map<Ref, Links>, w: map<Ref, Links>, p: Ref, k: seq<Ref>, i: nat, c: Ref, n: Ref)
    requires n in links && i <= |k|
  {
    && n in w
    && (n == c ==> w[n] == links[n].(parent := p, prev := if i > 0 then k[i - 1] else if k == [] then c else k[|k| - 1],
                                     next := if i < |k| then k[i] else 0))
    && (n == p && n != c ==> w[n] == links[n].(first := if i == 0 then c else k[0]))
    && (n != p && n != c ==>
          w[n] == links[n].(next := if n == BeforeAt(k, i) then c else links[n].next, prev := if n == AfterAt(k, i) then c else links[n].prev))
  }

  lemma InsertedLinked(links: map<Ref, Links>, w: map<Ref, Links>, m: map<Ref, Node>, p: Ref, i: nat, c: Ref)
    requires Linked(links, m) && p in m && c in m && c != p && m[c].parent == 0 && m[p].parent != p && i <= |m[p].kids|
    requires forall n {:trigger InsertedAt(links, w, p, m[p].kids, i, c, n)} | n in m && n in links :: InsertedAt(links, w, p, m[p].kids, i, c, n)
    ensures Linked(w, Relink(m, p, InsertAt(m[p].kids, i, c)))
  {
    var k := m[p].kids;
    var s := InsertAt(k, i, c);
    CanInsert(m, p, i, c);
    forall n {:trigger WrittenAt(links, w, m, p, s, n)} | n in m && n in links ensures WrittenAt(links, w, m, p, s, n) {
      assert InsertedAt(links, w, p, k, i, c, n);
      assert LinkedAt(links, m, n) && PlaceOk(m, n);
      if n in k {
        OldKid(links, m, p, i, c, m[n].index);
      } else {
        NotThere(m, p, i, n);
      }
      if n == c {
        assert s[i] == c;
        IndexOfDistinct(s, i);
      }
    }
    RelinkLinked(links, w, m, p, s);
  }

  lemma NotThere(m: map<Ref, Node>, p: Ref, i: nat, n: Ref)
    requires Lists(m) && p in m && n in m && n !in m[p].kids && i <= |m[p].kids|
    ensures m[n].parent == p ==> p == 0
    ensures n != 0 && BeforeAt(m[p].kids, i) != n && AfterAt(m[p].kids, i) != n
  {
    assert PlaceOk(m, n);
  }

  /** What happens to the j-th child when c is put in at position i. */
  lemma OldKid(links: map<Ref, Links>, m: map<Ref, Node>, p: Ref, i: nat, c: Ref, j: nat)
    requires Linked(links, m) && p in m && i <= |m[p].kids| && j < |m[p].kids| && c !in m[p].kids && CanHave(m, p, InsertAt(m[p].kids, i, c))
    ensures var k, s, n := m[p].kids, InsertAt(m[p].kids, i, c), m[p].kids[j];
      && n in s && n in links
      && PrevIn(s, IndexOf(s, n)) == (if n == AfterAt(k, i) then c else links[n].prev)
      && NextIn(s, IndexOf(s, n)) == (if n == BeforeAt(k, i) then c else links[n].next)
  {
    var k, s, n := m[p].kids, InsertAt(m[p].kids, i, c), m[p].kids[j];
    KidsDistinct(m, p);
    ChildLinks(links, m, p, j);
    var at := if j < i then j else j + 1;
    assert s[at] == n;
    IndexOfDistinct(s, at);
  }

  /** node is in the child list of a node that is not its own parent. */
  ghost predicate InChildList(m: map<Ref, Node>, node: Ref) {
    && node in m && m[node].parent != 0 && m[node].parent != node
    && PlaceOk(m, node) && m[m[node].parent].parent != m[node].parent
  }

  /** The links of the j-th child of p, of its neighbours and of the ends of the list. */
  lemma NeighbourLinks(links: map<Ref, Links>, m: map<Ref, Node>, p: Ref, j: nat)
    requires Linked(links, m) && p in m && j < |m[p].kids|
    ensures KidLinks(links, m, p, 0) && KidLinks(links, m, p, j) && KidLinks(links, m, p, |m[p].kids| - 1)
    ensures j > 0 ==> KidLinks(links, m, p, j - 1)
    ensures j + 1 < |m[p].kids| ==> KidLinks(links, m, p, j + 1)
  {
    forall i | 0 <= i < |m[p].kids| ensures KidLinks(links, m, p, i) {
      ChildLinks(links, m, p, i);
    }
  }

  ghost predicate KidLinks(links: map<Ref, Links>, m: map<Ref, Node>, p: Ref, i: nat)
    requires p in m && i < |m[p].kids|
  {
    var k := m[p].kids;
    && k[i] in m && m[k[i]].parent == p && m[k[i]].index == i && k[i] != 0
    && k[i] in links && links[k[i]].parent == p && links[k[i]].next == NextIn(k, i) && links[k[i]].prev == PrevIn(k, i)
  }

  // Taking a child out.

  /** The links of node n after the j-th of the children k of p has been taken out. */
  predicate RemovedAt(links: map<Ref, Links>, w: map<Ref, Links>, p: Ref, k: seq<Ref>, j: nat, n: Ref)
    requires n in links && j < |k|
  {
    && n in w
    && (n == k[j] ==> w[n] == links[n].(parent := 0, prev := 0, next := 0))
    && (n == p && n != k[j] ==> w[n] == links[n].(first := if j > 0 then k[0] else NextIn(k, 0)))
    && (n != p && n != k[j] ==>
          w[n] == links[n].(next := if n == BeforeAt(k, j) then NextIn(k, j) else links[n].next,
                            prev := if n == AfterAt(k, j + 1) then PrevIn(k, j) else links[n].prev))
  }

  lemma RemovedLinked(links: map<Ref, Links>, w: map<Ref, Links>, m: map<Ref, Node>, p: Ref, j: nat)
    requires Linked(links, m) && p in m && m[p].parent != p && j < |m[p].kids| && m[p].kids[j] != p
    requires forall n {:trigger RemovedAt(links, w, p, m[p].kids, j, n)} | n in m && n in links :: RemovedAt(links, w, p, m[p].kids, j, n)
    ensures Linked(w, Relink(m, p, RemoveAt(m[p].kids, j)))
  {
    var k := m[p].kids;
    var s := RemoveAt(k, j);
    CanRemove(m, p, j);
    forall n {:trigger WrittenAt(links, w, m, p, s, n)} | n in m && n in links ensures WrittenAt(links, w, m, p, s, n) {
      assert RemovedAt(links, w, p, k, j, n);
      assert LinkedAt(links, m, n) && PlaceOk(m, n);
      assert KidOk(m, p, j);
      if n in k && n != k[j] {
        KeptKid(links, m, p, j, m[n].index);
      } else if n != k[j] {
        NotThere(m, p, j, n);
        NotThere(m, p, j + 1, n);
      }
    }
    RelinkLinked(links, w, m, p, s);
  }

  lemma KeptKid(links: map<Ref, Links>, m: map<Ref, Node>, p: Ref, j: nat, i: nat)
    requires Linked(links, m) && p in m && j < |m[p].kids| && i < |m[p].kids| && i != j && CanHave(m, p, RemoveAt(m[p].kids, j))
    ensures var k, s, n := m[p].kids, RemoveAt(m[p].kids, j), m[p].kids[i];
      && n in s && n in links
      && PrevIn(s, IndexOf(s, n)) == (if n == AfterAt(k, j + 1) then PrevIn(k, j) else links[n].prev)
      && NextIn(s, IndexOf(s, n)) == (if n == BeforeAt(k, j) then NextIn(k, j) else links[n].next)
  {
    var k, s, n := m[p].kids, RemoveAt(m[p].kids, j), m[p].kids[i];
    KidsDistinct(m, p);
    ChildLinks(links, m, p, i);
    var at := if i < j then i else i - 1;
    assert s[at] == n;
    IndexOfDistinct(s, at);
  }

  // The operations.

  class Dom {
    var links: map<Ref, Links>
    ghost var nodes: map<Ref, Node>

    ghost predicate Valid()
      reads this
    {
      Linked(links, nodes)
    }

    constructor ()
      ensures Valid() && nodes == map[] && links == map[]
    {
      links := map[];
      nodes := map[];
    }

    /** Fresh memory for a node without any links. */
    method NewNode(n: Ref, info: Info)
      requires Valid() && n != 0 && n !in nodes
      modifies this
      ensures Valid() && nodes == old(nodes)[n := Node([], 0, 0, 0, [], info)]
    {
      ghost var was, m := links, nodes;
      links := links[n := Links(info, [], 0, 0, 0, 0)];
      nodes := nodes[n := Node([], 0, 0, 0, [], info)];
      ghost var r := nodes;
      forall x, i {:trigger KidOk(r, x, i)} | x in r && 0 <= i < |r[x].kids| ensures KidOk(r, x, i) {
        assert KidOk(m, x, i);
      }
      forall x {:trigger PlaceOk(r, x)} | x in r ensures PlaceOk(r, x) {
        assert x != n ==> PlaceOk(m, x);
      }
      forall x {:trigger LinkedAt(links, r, x)} | x in r ensures LinkedAt(links, r, x) {
        assert x != n ==> LinkedAt(was, m, x) && PlaceOk(m, x);
      }
    }

    method AppendNode(child: Ref, node: Ref)
      requires Valid() && child in nodes && node in nodes && child != node
      requires nodes[child].parent == 0 && nodes[node].parent != node
      modifies this
      ensures Valid() && nodes == Relink(old(nodes), node, InsertAt(old(nodes)[node].kids, |old(nodes)[node].kids|, child))
    {
      ghost var was, m, k := links, nodes, nodes[node].kids;
      var w := links;
      assert LinkedAt(was, m, child) && LinkedAt(was, m, node);
      if k != [] {
        ChildLinks(was, m, node, 0);
        ChildLinks(was, m, node, |k| - 1);
      }
      w := w[child := w[child].(parent := node)];
      var head := w[node].first;
      if head != 0 {
        var tail := w[head].prev;
        w := w[tail := w[tail].(next := child)];
        w := w[child := w[child].(prev := tail)];
        w := w[head := w[head].(prev := child)];
      } else {
        w := w[node := w[node].(first := child)];
        w := w[child := w[child].(prev := child)];
      }
      InsertedLinked(was, w, m, node, |k|, child);
      links := w;
      nodes := Relink(nodes, node, InsertAt(k, |k|, child));
    }

    method PrependNode(child: Ref, node: Ref)
      requires Valid() && child in nodes && node in nodes && child != node
      requires nodes[child].parent == 0 && nodes[node].parent != node
      modifies this
      ensures Valid() && nodes == Relink(old(nodes), node, InsertAt(old(nodes)[node].kids, 0, child))
    {
      ghost var was, m, k := links, nodes, nodes[node].kids;
      var w := links;
      assert LinkedAt(was, m, child) && LinkedAt(was, m, node);
      if k != [] {
        ChildLinks(was, m, node, 0);
      }
      w := w[child := w[child].(parent := node)];
      var head := w[node].first;
      if head != 0 {
        w := w[child := w[child].(prev := w[head].prev)];
        w := w[head := w[head].(prev := child)];
      } else {
        w := w[child := w[child].(prev := child)];
      }
      w := w[child := w[child].(next := head)];
      w := w[node := w[node].(first := child)];
      InsertedLinked(was, w, m, node, 0, child);
      links := w;
      nodes := Relink(nodes, node, InsertAt(k, 0, child));
    }

    method InsertNodeAfter(child: Ref, node: Ref)
      requires Valid() && child in nodes && node in nodes && child != node && InChildList(nodes, node)
      requires nodes[child].parent == 0 && nodes[node].parent != child
      modifies this
      ensures Valid()
      ensures var p := old(nodes)[node].parent;
        nodes == Relink(old(nodes), p, InsertAt(old(nodes)[p].kids, old(nodes)[node].index + 1, child))
    {
      ghost var was, m, j := links, nodes, nodes[node].index;
      var w := links;
      assert LinkedAt(was, m, node);
      var parent := w[node].parent;
      ghost var k := m[parent].kids;
      NeighbourLinks(was, m, parent, j);
      assert LinkedAt(was, m, child) && LinkedAt(was, m, parent);
      w := w[child := w[child].(parent := parent)];
      if w[node].next != 0 {
        var next := w[node].next;
        w := w[next := w[next].(prev := child)];
      } else {
        var first := w[parent].first;
        w := w[first := w[first].(prev := child)];
      }
      w := w[child := w[child].(next := w[node].next)];
      w := w[child := w[child].(prev := node)];
      w := w[node := w[node].(next := child)];
      InsertedLinked(was, w, m, parent, j + 1, child);
      links := w;
      nodes := Relink(nodes, parent, InsertAt(k, j + 1, child));
    }

    method InsertNodeBefore(child: Ref, node: Ref)
      requires Valid() && child in nodes && node in nodes && child != node && InChildList(nodes, node)
      requires nodes[child].parent == 0 && nodes[node].parent != child
      modifies this
      ensures Valid()
      ensures var p := old(nodes)[node].parent;
        nodes == Relink(old(nodes), p, InsertAt(old(nodes)[p].kids, old(nodes)[node].index, child))
    {
      ghost var was, m, j := links, nodes, nodes[node].index;
      var w := links;
      assert LinkedAt(was, m, node);
      var parent := w[node].parent;
      ghost var k := m[parent].kids;
      NeighbourLinks(was, m, parent, j);
      assert LinkedAt(was, m, child) && LinkedAt(was, m, parent);
      w := w[child := w[child].(parent := parent)];
      var before := w[node].prev;
      if w[before].next != 0 {
        w := w[before := w[before].(next := child)];
      } else {
        w := w[parent := w[parent].(first := child)];
      }
      w := w[child := w[child].(prev := w[node].prev)];
      w := w[child := w[child].(next := node)];
      w := w[node := w[node].(prev := child)];
      InsertedLinked(was, w, m, parent, j, child);
      links := w;
      nodes := Relink(nodes, parent, InsertAt(k, j, child));
    }

    method RemoveNode(node: Ref)
      requires Valid() && node in nodes && InChildList(nodes, node)
      modifies this
      ensures Valid()
      ensures var p := old(nodes)[node].parent;
        nodes == Relink(old(nodes), p, RemoveAt(old(nodes)[p].kids, old(nodes)[node].index))
    {
      ghost var was, m, j := links, nodes, nodes[node].index;
      var w := links;
      assert LinkedAt(was, m, node);
      var parent := w[node].parent;
      ghost var k := m[parent].kids;
      NeighbourLinks(was, m, parent, j);
      assert LinkedAt(was, m, parent);
      if w[node].next != 0 {
        var next := w[node].next;
        w := w[next := w[next].(prev := w[node].prev)];
      } else {
        var first := w[parent].first;
        w := w[first := w[first].(prev := w[node].prev)];
      }
      var before := w[node].prev;
      if w[before].next != 0 {
        w := w[before := w[before].(next := w[node].next)];
      } else {
        w := w[parent := w[parent].(first := w[node].next)];
      }
      w := w[node := w[node].(parent := 0)];
      w := w[node := w[node].(prev := 0)];
      w := w[node := w[node].(next := 0)];
      RemovedLinked(was, w, m, parent, j);
      links := w;
      nodes := Relink(nodes, parent, RemoveAt(k, j));
    }
  }
}
