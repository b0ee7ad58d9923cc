/** Editing the tree: what inserting, moving and removing nodes do to it, and why it stays a tree. */
module TreeEdits {
  import opened Sequences
  import opened XmlTree
  import opened DomLinks

  /** Ranks fall from parent to child, so no node is below itself. */
  ghost predicate Ranked(m: map<Ref, Node>) {
    forall n, i {:trigger m[n].kids[i]} | n in m && 0 <= i < |m[n].kids| :: KidRanked(m, n, i)
  }

  ghost predicate KidRanked(m: map<Ref, Node>, n: Ref, i: nat)
    requires n in m && i < |m[n].kids|
  {
    m[n].kids[i] in m && m[m[n].kids[i]].rank < m[n].rank
  }

  ghost predicate AttrsWf(t: Tree) {
    forall n, i {:trigger t.node[n].attrs[i]} {:trigger AttrWf(t, n, i)} | n in t.node && 0 <= i < |t.node[n].attrs| :: AttrWf(t, n, i)
  }

  /** The root is the only node without a parent, and no rank exceeds its rank. */
  ghost predicate Rooted(root: Ref, m: map<Ref, Node>) {
    && root in m && m[root].parent == 0
    && (forall n {:trigger m[n].parent} | n in m && n != root :: m[n].parent != 0)
    && (forall n {:trigger m[n].rank} | n in m :: m[n].rank <= m[root].rank)
  }

  /** A document is a ranked set of child lists with one root. */
  lemma TreeIs(t: Tree)
    ensures Wf(t) <==> Lists(t.node) && Ranked(t.node) && Rooted(t.root, t.node) && AttrsWf(t)
  {
    if Wf(t) {
      TreeParts(t);
    }
    if Lists(t.node) && Ranked(t.node) && Rooted(t.root, t.node) && AttrsWf(t) {
      PartsTree(t);
    }
  }

  lemma TreeParts(t: Tree)
    requires Wf(t)
    ensures Lists(t.node) && Ranked(t.node) && Rooted(t.root, t.node) && AttrsWf(t)
  {
    var m := t.node;
    forall n, i {:trigger KidOk(m, n, i)} {:trigger KidRanked(m, n, i)} | n in m && 0 <= i < |m[n].kids|
      ensures KidOk(m, n, i) && KidRanked(m, n, i)
    {
      assert ChildWf(t, n, i);
    }
    forall n {:trigger PlaceOk(m, n)} | n in m ensures PlaceOk(m, n) {
      assert n != t.root ==> Attached(t, n);
    }
    forall n {:trigger m[n].parent} | n in m && n != t.root ensures m[n].parent != 0 {
      assert Attached(t, n);
    }
    forall n, i {:trigger AttrWf(t, n, i)} | n in m && 0 <= i < |m[n].attrs| ensures AttrWf(t, n, i) {
      var a := t.node[n].attrs[i];
    }
  }

  lemma PartsTree(t: Tree)
    requires Lists(t.node) && Ranked(t.node) && Rooted(t.root, t.node) && AttrsWf(t)
    ensures Wf(t)
  {
    var m := t.node;
    forall n, i {:trigger ChildWf(t, n, i)} | n in t.node && 0 <= i < |t.node[n].kids| ensures ChildWf(t, n, i) {
      assert KidOk(m, n, i) && KidRanked(m, n, i);
    }
    forall n {:trigger Attached(t, n)} | n in t.node && n != t.root ensures Attached(t, n) {
      assert PlaceOk(m, n);
    }
  }

  // Where a child goes.

  datatype Place = AtEnd | AtFront | After(node: Ref) | Before(node: Ref)

  function PlaceIn(s: seq<Ref>, place: Place): (i: nat)
    ensures i <= |s|
  {
    match place
    case AtEnd => |s|
    case AtFront => 0
    case After(x) => if x in s then IndexOf(s, x) + 1 else |s|
    case Before(x) => if x in s then IndexOf(s, x) else |s|
  }

  /** s with c put in at the given place. */
  function Insert(s: seq<Ref>, place: Place, c: Ref): seq<Ref> {
    InsertAt(s, PlaceIn(s, place), c)
  }

  function Without(s: seq<Ref>, c: Ref): seq<Ref> {
    if c in s then RemoveAt(s, IndexOf(s, c)) else s
  }

  // Attaching: everything outside the attached subtree is raised above it.

  function Raised(m: map<Ref, Node>, low: set<Ref>, lift: nat): map<Ref, Node> {
    map n | n in m :: if n in low then m[n] else m[n].(rank := m[n].rank + lift)
  }

  /** low is c and nodes below it: children of members are members. */
  ghost predicate ClosedBelow(m: map<Ref, Node>, low: set<Ref>, c: Ref)
    requires Lists(m)
  {
    && c in low && c in m && (forall n | n in low :: n in m && m[n].rank <= m[c].rank)
    && forall n, i {:trigger m[n].kids[i]} | n in low && 0 <= i < |m[n].kids| :: KidIn(m, low, n, i)
  }

  ghost predicate KidIn(m: map<Ref, Node>, low: set<Ref>, n: Ref, i: nat)
    requires n in m && i < |m[n].kids|
  {
    m[n].kids[i] in low
  }

  lemma RaisedLists(m: map<Ref, Node>, low: set<Ref>, lift: nat)
    requires Lists(m)
    ensures Lists(Raised(m, low, lift))
  {
    var r := Raised(m, low, lift);
    forall n, i {:trigger KidOk(r, n, i)} | n in r && 0 <= i < |r[n].kids| ensures KidOk(r, n, i) {
      assert KidOk(m, n, i);
    }
    forall n {:trigger PlaceOk(r, n)} | n in r ensures PlaceOk(r, n) {
      assert PlaceOk(m, n);
    }
  }

  lemma RaisedLinked(links: map<Ref, Links>, m: map<Ref, Node>, low: set<Ref>, lift: nat)
    requires Linked(links, m)
    ensures Linked(links, Raised(m, low, lift))
  {
    RaisedLists(m, low, lift);
    var r := Raised(m, low, lift);
    forall n {:trigger LinkedAt(links, r, n)} | n in r ensures LinkedAt(links, r, n) {
      assert LinkedAt(links, m, n) && PlaceOk(m, n);
    }
  }

  function Attach(m: map<Ref, Node>, q: Ref, i: nat, c: Ref, low: set<Ref>): map<Ref, Node>
    requires q in m && c in m && i <= |m[q].kids|
  {
    Raised(Relink(m, q, InsertAt(m[q].kids, i, c)), low, m[c].rank + 1)
  }

  lemma NewKidRanked(m: map<Ref, Node>, q: Ref, i: nat, c: Ref, low: set<Ref>, j: nat)
    requires Lists(m) && Ranked(m) && ClosedBelow(m, low, c) && q in m && q !in low && m[q].parent != q
    requires m[c].parent == 0 && i <= |m[q].kids| && j <= |m[q].kids|
    ensures KidRanked(Attach(m, q, i, c, low), q, j)
  {
    var s := InsertAt(m[q].kids, i, c);
    CanInsert(m, q, i, c);
    assert s[j] in s;
    if s[j] != c {
      assert KidRanked(m, q, IndexOf(m[q].kids, s[j]));
    }
  }

  lemma AttachLists(m: map<Ref, Node>, q: Ref, i: nat, c: Ref, low: set<Ref>)
    requires Lists(m) && q in m && m[q].parent != q && c in m && c != q && m[c].parent == 0 && i <= |m[q].kids|
    ensures Lists(Attach(m, q, i, c, low))
  {
    CanInsert(m, q, i, c);
    RelinkLists(m, q, InsertAt(m[q].kids, i, c));
    RaisedLists(Relink(m, q, InsertAt(m[q].kids, i, c)), low, m[c].rank + 1);
  }

  /** Attaching a parentless node c with all that is below it to a node that is not below it. */
  lemma AttachRanked(m: map<Ref, Node>, q: Ref, i: nat, c: Ref, low: set<Ref>)
    requires Lists(m) && Ranked(m) && ClosedBelow(m, low, c) && q in m && q !in low && m[q].parent != q
    requires m[c].parent == 0 && i <= |m[q].kids|
    ensures Lists(Attach(m, q, i, c, low)) && Ranked(Attach(m, q, i, c, low))
  {
    AttachLists(m, q, i, c, low);
    var r := Attach(m, q, i, c, low);
    forall n, j {:trigger KidRanked(r, n, j)} | n in r && 0 <= j < |r[n].kids| ensures KidRanked(r, n, j) {
      if n == q {
        NewKidRanked(m, q, i, c, low, j);
      } else {
        assert KidRanked(m, n, j);
        assert n in low ==> KidIn(m, low, n, j);
      }
    }
  }

  /** A tree and apart from it the parentless node c with what is below it. */
  ghost predicate Loose(root: Ref, m: map<Ref, Node>, c: Ref, low: set<Ref>) {
    && Lists(m) && Ranked(m) && ClosedBelow(m, low, c) && m[c].parent == 0
    && root in m && root !in low && m[root].parent == 0
    && (forall n {:trigger m[n].parent} | n in m && n != root && n != c :: m[n].parent != 0)
    && (forall n {:trigger m[n].rank} | n in m :: m[n].rank <= m[root].rank)
  }

  lemma AttachRooted(root: Ref, m: map<Ref, Node>, q: Ref, i: nat, c: Ref, low: set<Ref>)
    requires Loose(root, m, c, low) && q in m && q !in low && m[q].parent != q && i <= |m[q].kids|
    ensures Lists(Attach(m, q, i, c, low)) && Ranked(Attach(m, q, i, c, low)) && Rooted(root, Attach(m, q, i, c, low))
  {
    AttachRanked(m, q, i, c, low);
    var r := Attach(m, q, i, c, low);
    forall n {:trigger r[n].parent} | n in r && n != root ensures r[n].parent != 0 {
      assert PlaceOk(m, n);
    }
  }

  /** Attaching changes one child list and no contents. */
  lemma AttachAt(m: map<Ref, Node>, q: Ref, i: nat, c: Ref, low: set<Ref>, n: Ref)
    requires q in m && c in m && i <= |m[q].kids| && n in m
    ensures var u := Attach(m, q, i, c, low)[n];
      u.info == m[n].info && u.attrs == m[n].attrs && u.kids == if n == q then InsertAt(m[q].kids, i, c) else m[n].kids
  {
  }

  lemma AttachAttrs(t: Tree, q: Ref, i: nat, c: Ref, low: set<Ref>)
    requires q in t.node && c in t.node && i <= |t.node[q].kids| && AttrsWf(t)
    ensures AttrsWf(Tree(t.root, Attach(t.node, q, i, c, low), t.holder))
  {
    var u := Tree(t.root, Attach(t.node, q, i, c, low), t.holder);
    forall n | n in u.node ensures u.node[n].attrs == t.node[n].attrs {
      AttachAt(t.node, q, i, c, low, n);
    }
    SameAttrs(t, u);
  }

  lemma AttachWf(t: Tree, q: Ref, i: nat, c: Ref, low: set<Ref>)
    requires Loose(t.root, t.node, c, low) && q in t.node && q !in low && t.node[q].parent != q && i <= |t.node[q].kids|
    requires AttrsWf(t)
    ensures Wf(Tree(t.root, Attach(t.node, q, i, c, low), t.holder))
  {
    AttachRooted(t.root, t.node, q, i, c, low);
    AttachAttrs(t, q, i, c, low);
    PartsTree(Tree(t.root, Attach(t.node, q, i, c, low), t.holder));
  }

  lemma SameAttrs(t: Tree, u: Tree)
    requires AttrsWf(t) && u.holder == t.holder && forall n | n in u.node :: n in t.node && u.node[n].attrs == t.node[n].attrs
    ensures AttrsWf(u)
  {
    forall n, j {:trigger AttrWf(u, n, j)} | n in u.node && 0 <= j < |u.node[n].attrs| ensures AttrWf(u, n, j) {
      assert AttrWf(t, n, j);
    }
  }

  // Detaching.

  ghost function Detached(m: map<Ref, Node>, c: Ref): map<Ref, Node>
    requires InChildList(m, c)
  {
    Relink(m, m[c].parent, RemoveAt(m[m[c].parent].kids, m[c].index))
  }

  /** c and everything below it. */
  ghost function Subtree(t: Tree, c: Ref): set<Ref>
    requires Wf(t)
  {
    set n | n in t.node && Under(t, n, c)
  }

  lemma ChildListed(t: Tree, c: Ref)
    requires Wf(t) && c in t.node && c != t.root
    ensures InChildList(t.node, c) && Lists(t.node) && Parent(t, c) != 0
  {
    TreeIs(t);
    assert Attached(t, c);
    var p := Parent(t, c);
    assert p != t.root ==> Parent(t, p) != p;
  }

  lemma SubtreeClosed(t: Tree, c: Ref)
    requires Wf(t) && c in t.node
    ensures Lists(t.node) && ClosedBelow(t.node, Subtree(t, c), c)
  {
    TreeIs(t);
    var m, low := t.node, Subtree(t, c);
    forall n | n in low ensures m[n].rank <= m[c].rank {
      UnderRank(t, n, c);
    }
    forall n, i {:trigger KidIn(m, low, n, i)} | n in low && 0 <= i < |m[n].kids| ensures KidIn(m, low, n, i) {
      assert ChildWf(t, n, i);
    }
  }

  lemma RootAbove(t: Tree, c: Ref)
    requires Wf(t) && c in t.node && c != t.root
    ensures t.root !in Subtree(t, c)
  {
    if t.root in Subtree(t, c) {
      UnderRank(t, t.root, c);
    }
  }

  /** Taking c out leaves the parents and the ranks of the others alone. */
  lemma DetachedParent(t: Tree, c: Ref, n: Ref)
    requires Wf(t) && InChildList(t.node, c) && n in t.node && n != c
    ensures Detached(t.node, c)[n].parent == t.node[n].parent && Detached(t.node, c)[n].rank == t.node[n].rank
  {
    var p, k := Parent(t, c), t.node[c].index;
    var r := RemoveAt(t.node[p].kids, k);
    if t.node[n].parent == p {
      assert Attached(t, n);
      var i := t.node[n].index;
      assert r[if i < k then i else i - 1] == n;
    }
    if n in r {
      var i := IndexOf(r, n);
      assert ChildWf(t, p, if i < k then i else i + 1);
    }
  }

  lemma DetachedLists(t: Tree, c: Ref)
    requires Wf(t) && c in t.node && c != t.root
    ensures InChildList(t.node, c) && Lists(Detached(t.node, c)) && Detached(t.node, c)[c].parent == 0
  {
    ChildListed(t, c);
    var m, p, j := t.node, Parent(t, c), t.node[c].index;
    CanRemove(m, p, j);
    RelinkLists(m, p, RemoveAt(m[p].kids, j));
  }

  lemma DetachedFacts(t: Tree, c: Ref)
    requires Wf(t) && c in t.node && c != t.root
    ensures InChildList(t.node, c) && Loose(t.root, Detached(t.node, c), c, Subtree(t, c))
  {
    DetachedLists(t, c);
    SubtreeClosed(t, c);
    DetachedKids(t, c);
    RootAbove(t, c);
    var d := Detached(t.node, c);
    forall n {:trigger d[n].parent} {:trigger d[n].rank} | n in d && n != c
      ensures (n != t.root ==> d[n].parent != 0) && d[n].rank == t.node[n].rank && (n == t.root ==> d[n].parent == 0)
    {
      DetachedParent(t, c, n);
      assert n != t.root ==> Attached(t, n);
    }
  }

  lemma DetachedKids(t: Tree, c: Ref)
    requires Wf(t) && c in t.node && c != t.root && InChildList(t.node, c)
    requires Lists(Detached(t.node, c)) && Lists(t.node) && ClosedBelow(t.node, Subtree(t, c), c)
    ensures Ranked(Detached(t.node, c)) && ClosedBelow(Detached(t.node, c), Subtree(t, c), c)
  {
    DetachedRanked(t, c);
    var d, low := Detached(t.node, c), Subtree(t, c);
    forall n, i {:trigger KidIn(d, low, n, i)} | n in low && 0 <= i < |d[n].kids| ensures KidIn(d, low, n, i) {
      var k := DetachedKid(t, c, n, i);
    }
  }

  lemma DetachedRanked(t: Tree, c: Ref)
    requires Wf(t) && c in t.node && c != t.root && InChildList(t.node, c)
    ensures Ranked(Detached(t.node, c))
  {
    var d := Detached(t.node, c);
    forall n, i {:trigger KidRanked(d, n, i)} | n in d && 0 <= i < |d[n].kids| ensures KidRanked(d, n, i) {
      var k := DetachedKid(t, c, n, i);
    }
  }

  /** Every child of a node was its child before c was taken out. */
  lemma DetachedKid(t: Tree, c: Ref, n: Ref, i: nat) returns (j: nat)
    requires Wf(t) && c in t.node && c != t.root && InChildList(t.node, c) && n in t.node && i < |Detached(t.node, c)[n].kids|
    ensures j < |t.node[n].kids| && Detached(t.node, c)[n].kids[i] == t.node[n].kids[j]
    ensures KidRanked(t.node, n, j) && KidRanked(Detached(t.node, c), n, i)
    ensures n in Subtree(t, c) ==> KidIn(t.node, Subtree(t, c), n, j)
  {
    j := if n == Parent(t, c) && i >= t.node[c].index then i + 1 else i;
    assert ChildWf(t, n, j);
  }

  /** A node and its subtree put somewhere else, not below itself: still a document. */
  ghost function MovedTree(t: Tree, c: Ref, q: Ref, i: nat): Tree
    requires Wf(t) && InChildList(t.node, c) && q in t.node && i <= |Detached(t.node, c)[q].kids|
  {
    Tree(t.root, Attach(Detached(t.node, c), q, i, c, Subtree(t, c)), t.holder)
  }

  lemma MovedWf(t: Tree, c: Ref, q: Ref, i: nat)
    requires Wf(t) && c in t.node && c != t.root && q in t.node && !Under(t, q, c)
    requires InChildList(t.node, c) && i <= |Detached(t.node, c)[q].kids|
    ensures Wf(MovedTree(t, c, q, i))
  {
    DetachedFacts(t, c);
    NotOwnParent(t, c, q);
    var d := Tree(t.root, Detached(t.node, c), t.holder);
    DetachedAttrs(t, c);
    AttachWf(d, q, i, c, Subtree(t, c));
  }

  lemma DetachedAttrs(t: Tree, c: Ref)
    requires Wf(t) && InChildList(t.node, c)
    ensures AttrsWf(Tree(t.root, Detached(t.node, c), t.holder))
  {
    TreeParts(t);
    SameAttrs(t, Tree(t.root, Detached(t.node, c), t.holder));
  }

  lemma NotOwnParent(t: Tree, c: Ref, q: Ref)
    requires Wf(t) && c in t.node && InChildList(t.node, c) && q in t.node
    ensures Detached(t.node, c)[q].parent != q
  {
    if q != t.root {
      assert Attached(t, q) && Parent(t, q) != q;
    }
  }

  // What the edits do to child lists and contents.

  ghost predicate SameContents(t: Tree, u: Tree, n: Ref)
    requires n in t.node && n in u.node
  {
    u.node[n].info == t.node[n].info && u.node[n].attrs == t.node[n].attrs
  }

  lemma WithoutIs(t: Tree, c: Ref, n: Ref)
    requires Wf(t) && c in t.node && c != t.root && InChildList(t.node, c) && n in t.node
    ensures Detached(t.node, c)[n].kids == Without(t.node[n].kids, c)
  {
    TreeIs(t);
    KidsDistinct(t.node, n);
    if n == Parent(t, c) {
      IndexOfDistinct(t.node[n].kids, t.node[c].index);
    }
  }

  /** What becomes of the child list of a node when c moves to q. */
  function MovedList(s: seq<Ref>, here: bool, c: Ref, place: Place): seq<Ref> {
    if here then Insert(Without(s, c), place, c) else Without(s, c)
  }

  /** Moving c to the given place among the children of q. */
  ghost predicate MovesTo(t: Tree, u: Tree, c: Ref, q: Ref, place: Place) {
    && u.root == t.root && u.holder == t.holder && u.node.Keys == t.node.Keys
    && forall n {:trigger u.node[n].kids} | n in t.node ::
         SameContents(t, u, n) && u.node[n].kids == MovedList(t.node[n].kids, n == q, c, place)
  }

  lemma MovedKidsAt(t: Tree, c: Ref, q: Ref, place: Place, n: Ref)
    requires Wf(t) && c in t.node && c != t.root && q in t.node && n in t.node && InChildList(t.node, c)
    ensures var u := MovedTree(t, c, q, PlaceIn(Detached(t.node, c)[q].kids, place));
      SameContents(t, u, n) && u.node[n].kids == MovedList(t.node[n].kids, n == q, c, place)
  {
    WithoutIs(t, c, n);
    WithoutIs(t, c, q);
    var d := Detached(t.node, c);
    AttachAt(d, q, PlaceIn(d[q].kids, place), c, Subtree(t, c), n);
  }

  lemma MovedKids(t: Tree, c: Ref, q: Ref, place: Place)
    requires Wf(t) && c in t.node && c != t.root && q in t.node && !Under(t, q, c) && InChildList(t.node, c)
    ensures MovesTo(t, MovedTree(t, c, q, PlaceIn(Detached(t.node, c)[q].kids, place)), c, q, place)
  {
    var u := MovedTree(t, c, q, PlaceIn(Detached(t.node, c)[q].kids, place));
    forall n {:trigger u.node[n].kids} | n in t.node
      ensures SameContents(t, u, n) && u.node[n].kids == MovedList(t.node[n].kids, n == q, c, place)
    {
      MovedKidsAt(t, c, q, place, n);
    }
  }

  // New leaves.

  function Leaf(info: Info): Node {
    Node([], 0, 0, 0, [], info)
  }

  ghost function GrownTree(t: Tree, n: Ref, info: Info, q: Ref, i: nat): Tree
    requires q in t.node && i <= |t.node[q].kids| && n !in t.node
  {
    Tree(t.root, Attach(t.node[n := Leaf(info)], q, i, n, {n}), t.holder)
  }

  function GrownList(s: seq<Ref>, here: bool, n: Ref, place: Place): seq<Ref> {
    if here then Insert(s, place, n) else s
  }

  ghost predicate Grows(t: Tree, u: Tree, n: Ref, info: Info, q: Ref, place: Place) {
    && u.root == t.root && u.holder == t.holder && n !in t.node && n != 0 && u.node.Keys == t.node.Keys + {n}
    && u.node[n].kids == [] && u.node[n].info == info && u.node[n].attrs == []
    && forall m {:trigger u.node[m].kids} | m in t.node ::
         SameContents(t, u, m) && u.node[m].kids == GrownList(t.node[m].kids, m == q, n, place)
  }

  lemma NewLists(t: Tree, n: Ref, info: Info)
    requires Wf(t) && n !in t.node && n != 0
    ensures Loose(t.root, t.node[n := Leaf(info)], n, {n})
  {
    TreeIs(t);
    var m := t.node[n := Leaf(info)];
    forall x, i {:trigger KidOk(m, x, i)} {:trigger KidRanked(m, x, i)} | x in m && 0 <= i < |m[x].kids|
      ensures KidOk(m, x, i) && KidRanked(m, x, i)
    {
      assert KidOk(t.node, x, i) && KidRanked(t.node, x, i);
    }
    forall x {:trigger PlaceOk(m, x)} | x in m ensures PlaceOk(m, x) {
      assert x != n ==> PlaceOk(t.node, x);
    }
  }

  lemma GrownWf(t: Tree, n: Ref, info: Info, q: Ref, place: Place)
    requires Wf(t) && q in t.node && n !in t.node && n != 0
    ensures var u := GrownTree(t, n, info, q, PlaceIn(t.node[q].kids, place)); Wf(u) && Grows(t, u, n, info, q, place)
  {
    TreeIs(t);
    NewLists(t, n, info);
    var m := t.node[n := Leaf(info)];
    var i := PlaceIn(t.node[q].kids, place);
    assert m[q].parent != q by {
      if q != t.root {
        assert Parent(t, q) != q;
      }
    }
    var v := Tree(t.root, m, t.holder);
    forall x, j {:trigger AttrWf(v, x, j)} | x in m && 0 <= j < |m[x].attrs| ensures AttrWf(v, x, j) {
      assert AttrWf(t, x, j);
    }
    AttachWf(v, q, i, n, {n});
    GrownLists(t, n, info, q, place);
  }

  lemma GrownLists(t: Tree, n: Ref, info: Info, q: Ref, place: Place)
    requires q in t.node && n !in t.node && n != 0 && Lists(t.node)
    ensures Grows(t, GrownTree(t, n, info, q, PlaceIn(t.node[q].kids, place)), n, info, q, place)
  {
    var m := t.node[n := Leaf(info)];
    forall x | x in m
      ensures var u := GrownTree(t, n, info, q, PlaceIn(t.node[q].kids, place)).node[x];
        u.info == m[x].info && u.attrs == m[x].attrs && u.kids == GrownList(m[x].kids, x == q, n, place)
    {
      AttachAt(m, q, PlaceIn(m[q].kids, place), n, {n}, x);
    }
  }

  // Removal.

  ghost function PrunedTree(t: Tree, c: Ref): Tree
    requires Wf(t) && InChildList(t.node, c)
  {
    Tree(t.root, map n | n in t.node && n !in Subtree(t, c) :: Detached(t.node, c)[n], t.holder)
  }

  ghost predicate Prunes(t: Tree, u: Tree, c: Ref)
    requires Wf(t)
  {
    && u.root == t.root && u.holder == t.holder && u.node.Keys == t.node.Keys - Subtree(t, c)
    && forall n {:trigger u.node[n].kids} | n in u.node :: SameContents(t, u, n) && u.node[n].kids == Without(t.node[n].kids, c)
  }

  /** The nodes outside a set that is closed below still form lists, if no list holds a member of the set. */
  lemma RestLists(d: map<Ref, Node>, low: set<Ref>, m: map<Ref, Node>)
    requires Lists(d) && Ranked(d)
    requires m.Keys == d.Keys - low && forall n | n in m :: m[n] == d[n]
    requires forall n, i {:trigger d[n].kids[i]} | n in d && n !in low && 0 <= i < |d[n].kids| :: d[n].kids[i] !in low
    requires forall n {:trigger d[n].parent} | n in d && n !in low && d[n].parent != 0 :: d[n].parent !in low
    ensures Lists(m) && Ranked(m)
  {
    forall n, i {:trigger KidOk(m, n, i)} {:trigger KidRanked(m, n, i)} | n in m && 0 <= i < |m[n].kids|
      ensures KidOk(m, n, i) && KidRanked(m, n, i)
    {
      assert KidOk(d, n, i) && KidRanked(d, n, i);
    }
    forall n {:trigger PlaceOk(m, n)} | n in m ensures PlaceOk(m, n) {
      assert PlaceOk(d, n);
    }
  }

  /** No node outside the subtree of c links into it once c is taken out. */
  lemma SubtreeApart(t: Tree, c: Ref, n: Ref)
    requires Wf(t) && c in t.node && c != t.root && n in t.node && n !in Subtree(t, c)
    requires InChildList(t.node, c) && Loose(t.root, Detached(t.node, c), c, Subtree(t, c))
    ensures forall i {:trigger Detached(t.node, c)[n].kids[i]} | 0 <= i < |Detached(t.node, c)[n].kids| ::
              Detached(t.node, c)[n].kids[i] !in Subtree(t, c)
    ensures Detached(t.node, c)[n].parent !in Subtree(t, c)
  {
    var d, low := Detached(t.node, c), Subtree(t, c);
    forall i {:trigger d[n].kids[i]} | 0 <= i < |d[n].kids| ensures d[n].kids[i] !in low {
      assert KidOk(d, n, i);
      var x := d[n].kids[i];
      assert x in low ==> x != c && d[x].parent == n && Parent(t, x) == n;
    }
    assert PlaceOk(d, n);
    assert n != t.root ==> Attached(t, n);
  }

  lemma PrunedLists(t: Tree, c: Ref)
    requires Wf(t) && c in t.node && c != t.root && InChildList(t.node, c)
    ensures Lists(PrunedTree(t, c).node) && Ranked(PrunedTree(t, c).node)
  {
    DetachedFacts(t, c);
    var d, low := Detached(t.node, c), Subtree(t, c);
    forall n | n in d && n !in low
      ensures forall i {:trigger d[n].kids[i]} | 0 <= i < |d[n].kids| :: d[n].kids[i] !in low
      ensures d[n].parent !in low
    {
      SubtreeApart(t, c, n);
    }
    RestLists(d, low, PrunedTree(t, c).node);
  }

  lemma PrunedPrunes(t: Tree, c: Ref)
    requires Wf(t) && c in t.node && c != t.root && InChildList(t.node, c)
    ensures Prunes(t, PrunedTree(t, c), c)
  {
    var u := PrunedTree(t, c);
    forall n {:trigger u.node[n].kids} | n in u.node ensures SameContents(t, u, n) && u.node[n].kids == Without(t.node[n].kids, c) {
      WithoutIs(t, c, n);
    }
  }

  lemma PrunedRooted(t: Tree, c: Ref)
    requires Wf(t) && c in t.node && c != t.root && InChildList(t.node, c) && Rooted(t.root, t.node)
    ensures Rooted(t.root, PrunedTree(t, c).node)
  {
    RootAbove(t, c);
    assert Under(t, c, c);
    forall n {:trigger Detached(t.node, c)[n]} | n in t.node && n !in Subtree(t, c)
      ensures Detached(t.node, c)[n].parent == t.node[n].parent && Detached(t.node, c)[n].rank == t.node[n].rank
    {
      DetachedParent(t, c, n);
    }
  }

  lemma PrunedWf(t: Tree, c: Ref)
    requires Wf(t) && c in t.node && c != t.root && InChildList(t.node, c)
    ensures Wf(PrunedTree(t, c)) && Prunes(t, PrunedTree(t, c), c)
  {
    var u := PrunedTree(t, c);
    TreeParts(t);
    PrunedLists(t, c);
    PrunedRooted(t, c);
    PrunedPrunes(t, c);
    SameAttrs(t, u);
    PartsTree(u);
  }

  // Contents.

  /** Changing what a node holds changes no list. */
  lemma ContentedLists(m: map<Ref, Node>, r: map<Ref, Node>, n: Ref)
    requires Lists(m) && n in m && r.Keys == m.Keys
    requires forall x {:trigger r[x]} | x in m :: r[x] == m[x].(info := r[x].info, attrs := r[x].attrs)
    ensures Lists(r) && (Ranked(m) ==> Ranked(r))
  {
    forall x, i {:trigger KidOk(r, x, i)} | x in r && 0 <= i < |r[x].kids| ensures KidOk(r, x, i) {
      assert KidOk(m, x, i);
    }
    forall x {:trigger PlaceOk(r, x)} | x in r ensures PlaceOk(r, x) {
      assert PlaceOk(m, x);
    }
    if Ranked(m) {
      forall x, i {:trigger KidRanked(r, x, i)} | x in r && 0 <= i < |r[x].kids| ensures KidRanked(r, x, i) {
        assert KidRanked(m, x, i);
      }
    }
  }

  lemma ContentedLinked(links: map<Ref, Links>, m: map<Ref, Node>, n: Ref, info: Info, attrs: seq<Attr>)
    requires Linked(links, m) && n in m && n in links
    ensures Linked(links[n := links[n].(info := info, attrs := attrs)], m[n := m[n].(info := info, attrs := attrs)])
  {
    var w, r := links[n := links[n].(info := info, attrs := attrs)], m[n := m[n].(info := info, attrs := attrs)];
    ContentedLists(m, r, n);
    forall x {:trigger LinkedAt(w, r, x)} | x in r ensures LinkedAt(w, r, x) {
      assert LinkedAt(links, m, x) && PlaceOk(m, x);
    }
  }

  // Attributes.

  /** Putting a new attribute in shifts the later ones by one. */
  lemma {:induction false} FindInserted(s: seq<Attr>, i: nat, a: Attr, b: Ref)
    requires i <= |s| && b != a.id
    ensures FindAttr(InsertAt(s, i, a), b) == if FindAttr(s, b) < i then FindAttr(s, b) else FindAttr(s, b) + 1
  {
    var r := InsertAt(s, i, a);
    if i == 0 {
      assert r[1..] == s;
    } else {
      assert r[0] == s[0] && r[1..] == InsertAt(s[1..], i - 1, a);
      FindInserted(s[1..], i - 1, a, b);
    }
  }

  /** n gains the attribute a, which is new. */
  ghost predicate GainsAttr(t: Tree, u: Tree, n: Ref, i: nat, a: Attr) {
    && n in t.node && i <= |t.node[n].attrs| && a.id !in t.holder && u.root == t.root && u.node.Keys == t.node.Keys
    && u.node[n] == t.node[n].(attrs := InsertAt(t.node[n].attrs, i, a))
    && forall m {:trigger u.node[m]} | m in t.node && m != n :: u.node[m] == t.node[m]
  }

  lemma {:induction false} FindNew(s: seq<Attr>, i: nat, a: Attr)
    requires i <= |s| && forall j | 0 <= j < i :: s[j].id != a.id
    ensures FindAttr(InsertAt(s, i, a), a.id) == i
  {
    if i > 0 {
      var r := InsertAt(s, i, a);
      assert r[0] == s[0] && r[1..] == InsertAt(s[1..], i - 1, a);
      FindNew(s[1..], i - 1, a);
    }
  }

  ghost function GainedTree(t: Tree, n: Ref, i: nat, a: Attr): Tree
    requires n in t.node && i <= |t.node[n].attrs|
  {
    Tree(t.root, t.node[n := t.node[n].(attrs := InsertAt(t.node[n].attrs, i, a))], t.holder[a.id := n])
  }

  lemma GainedWf(t: Tree, n: Ref, i: nat, a: Attr)
    requires Wf(t) && n in t.node && i <= |t.node[n].attrs| && a.id !in t.holder
    ensures Wf(GainedTree(t, n, i, a)) && GainsAttr(t, GainedTree(t, n, i, a), n, i, a)
  {
    TreeIs(t);
    var u, s := GainedTree(t, n, i, a), t.node[n].attrs;
    forall j | 0 <= j < |s| ensures s[j].id != a.id && FindAttr(s, s[j].id) == j {
      assert AttrWf(t, n, j);
    }
    forall x, j {:trigger AttrWf(u, x, j)} | x in u.node && 0 <= j < |u.node[x].attrs| ensures AttrWf(u, x, j) {
      if x != n {
        assert AttrWf(t, x, j);
      } else if j == i {
        FindNew(s, i, a);
      } else {
        var k := if j < i then j else j - 1;
        assert u.node[n].attrs[j] == s[k] && AttrWf(t, n, k);
        FindInserted(s, i, a, s[k].id);
      }
    }
    ContentedLists(t.node, u.node, n);
    TreeIs(u);
  }

  ghost function LostTree(t: Tree, n: Ref, i: nat): Tree
    requires n in t.node && i < |t.node[n].attrs|
  {
    Tree(t.root, t.node[n := t.node[n].(attrs := RemoveAt(t.node[n].attrs, i))], t.holder - {t.node[n].attrs[i].id})
  }

  lemma LostWf(t: Tree, n: Ref, i: nat)
    requires Wf(t) && n in t.node && i < |t.node[n].attrs|
    ensures Wf(LostTree(t, n, i)) && GainsAttr(LostTree(t, n, i), t, n, i, t.node[n].attrs[i])
  {
    TreeIs(t);
    var u, s := LostTree(t, n, i), t.node[n].attrs;
    var r, a := RemoveAt(s, i), s[i];
    assert AttrWf(t, n, i) && InsertAt(r, i, a) == s;
    forall x, j {:trigger AttrWf(u, x, j)} | x in u.node && 0 <= j < |u.node[x].attrs| ensures AttrWf(u, x, j) {
      if x != n {
        assert AttrWf(t, x, j);
      } else {
        var k := if j < i then j else j + 1;
        assert r[j] == s[k] && AttrWf(t, n, k);
        FindInserted(r, i, a, r[j].id);
      }
    }
    ContentedLists(t.node, u.node, n);
    TreeIs(u);
  }
}
