/**
 * A document as a program holds it: the tree with its links, and the strings that its nodes and attributes point at.
 * In every state that its operations can reach, strings have one owner or are shared for good, and comparing
 * buffer addresses gives document order wherever it is tried.
 */
module LiveDocument {
  import opened Sequences
  import opened Utf
  import opened XmlTree
  import opened Steps
  import opened DocumentOrder
  import opened DomLinks
  import opened TreeEdits
  import opened Document
  import CopyTree
  import opened OrderKept
  import opened BufferOrder
  import opened LiveTree
  import Strings

  type Heads = map<Strings.Id, Strings.Obj>

  // Texts.

  lemma OthersStay(m: Strings.Mem, w: Strings.Mem, s: Strings.Slot)
    requires Strings.OthersRead(m, w, s)
    ensures StaysReadBut(m, w, s)
  {
    forall r {:trigger Strings.Text(w, r)} | Strings.HasSlot(m, r) && Strings.HasSlot(w, r) && r != s ensures Strings.Text(w, r) == Strings.Text(m, r) {
      assert Strings.ReadsSame(m, w, r);
    }
  }

  /** The name and the value of x read now as those of y did. */
  ghost predicate Alike(m: Strings.Mem, w: Strings.Mem, x: Strings.Id, y: Strings.Id) {
    && y in m.obj && x in w.obj
    && Strings.Text(w, Strings.Slot(x, true)) == Strings.Text(m, Strings.Slot(y, true))
    && Strings.Text(w, Strings.Slot(x, false)) == Strings.Text(m, Strings.Slot(y, false))
  }

  // Headers.

  lemma SoundHeads(m: Strings.Mem)
    requires Strings.Inv(m)
    ensures HeadsOk(m.obj)
  {
    forall id {:trigger m.obj[id]} | id in m.obj ensures HeaderOk(m.obj[id]) {
      assert Strings.SlotOk(m, Strings.Slot(id, true)) && Strings.SlotOk(m, Strings.Slot(id, false));
    }
  }

  /** Copying a string into a new object leaves old headers and new ones as they may be. */
  lemma GrewCopied(o: Heads, v: Heads, w: Heads, s: Strings.Slot, id: Strings.Id)
    requires Grew(o, v) && s.id in v && id in v && s.id !in o && Strings.Copied(v, w, s, id) && HeadsOk(w)
    ensures Grew(o, w)
  {
    forall x {:trigger w[x]} | x in w ensures GrewAt(o, w, x) {
      assert GrewAt(o, v, x);
    }
  }

  /** The objects of w are those of o and those of the items of the nodes in own. */
  ghost predicate Added(t: Tree, o: Heads, w: Heads, own: set<Ref>)
    requires Wf(t)
  {
    forall id {:trigger id in w} :: id in w <==> id in o || (Has(t, ItemOf(t, id)) && Owner(ItemOf(t, id)) in own)
  }

  /** The objects of w are those of o without those of the items of the nodes in own. */
  ghost predicate Dropped(t: Tree, o: Heads, w: Heads, own: set<Ref>)
    requires Wf(t)
  {
    && (forall id {:trigger id in w} :: id in w <==> id in o && Owner(ItemOf(t, id)) !in own)
    && forall id {:trigger w[id]} | id in w :: id in o && w[id] == o[id]
  }

  class LiveDocument {
    const d: XmlDocument
    const st: Strings.Store

    ghost function State(): (s: Doc)
      reads d, st
    {
      Doc(d.tree, st.obj, d.moved)
    }

    /** The document with its names and values, as queries and output see it. */
    ghost function Reading(): Tree
      reads d, st, st.buf
    {
      Full(d.tree, st.Memory())
    }

    ghost predicate Valid()
      reads d, d.dom, st, st.buf
    {
      d.Valid() && st.Valid() && Covers(d.tree, st.obj) && InBufferOrder(State())
    }

    /** A document whose strings are sound and in buffer order; a parsed one is. */
    constructor (doc: XmlDocument, store: Strings.Store)
      requires doc.Valid() && store.Valid() && Covers(doc.tree, store.obj) && InBufferOrder(Doc(doc.tree, store.obj, doc.moved))
      ensures Valid() && d == doc && st == store
    {
      d, st := doc, store;
    }

    /** Wherever two addresses are compared, the smaller one is first in document order. */
    lemma AddressesOrder(x: XNode, y: XNode)
      requires Valid() && Has(d.tree, x) && Has(d.tree, y) && Applies(State(), x, y)
      ensures BufferKey(State(), x).Buf? && BufferKey(State(), y).Buf?
      ensures BufferKey(State(), x).off < BufferKey(State(), y).off <==> DocLess(d.tree, x, y)
      ensures Wf(Reading()) && Has(Reading(), x) && Has(Reading(), y) && (DocLess(Reading(), x, y) <==> DocLess(d.tree, x, y))
    {
      ShortcutSound(State(), x, y);
      FullOrder(d.tree, st.Memory(), x, y);
    }

    // Setting.

    /** Names of elements, instructions and declarations can be set, and values of the other nodes; both of attributes. */
    predicate MaySet(ty: NodeType, isName: bool) {
      if isName then ty in {Element, Pi, Declaration} else ty in {Pi, Cdata, Pcdata, Comment, Doctype}
    }

    /** Set a name or a value: it reads as asked afterwards, all other names and values read as before. */
    method SetText(x: XNode, isName: bool, text: seq<Byte>) returns (ok: bool)
      requires Valid() && Has(d.tree, x) && 0 !in text
      modifies st, st.buf
      ensures Valid() && Step(old(State()), State())
      ensures ok == (x.XAttr? || MaySet(d.tree.node[x.n].info.ty, isName))
      ensures ok ==> IdOf(x) in st.obj && Strings.Text(st.Memory(), Strings.Slot(IdOf(x), isName)) == text
      ensures ok ==> StaysReadBut(old(st.Memory()), st.Memory(), Strings.Slot(IdOf(x), isName))
      ensures ok ==> Wf(old(Reading())) && Has(old(Reading()), x) && Reading() == Renamed(old(Reading()), x, isName, Letters(text))
      ensures !ok ==> State() == old(State()) && st.Memory() == old(st.Memory())
    {
      ghost var e := State();
      ok := true;
      if x.XElem? {
        assert LinkedAt(d.dom.links, d.dom.nodes, x.n);
        ok := MaySet(d.dom.links[x.n].info.ty, isName);
      }
      if ok {
        ghost var m := st.Memory();
        IdItem(d.tree, x);
        Assign(IdOf(x), isName, text, e);
        FullSet(d.tree, m, st.Memory(), x, isName, text);
      } else {
        StaysIsStep(e);
      }
    }

    /** Set a string; e is the state before. */
    method Assign(id: Strings.Id, isName: bool, text: seq<Byte>, ghost e: Doc)
      requires Valid() && id in st.obj && 0 !in text && e == State()
      modifies st, st.buf
      ensures Valid() && Step(e, State()) && id in st.obj
      ensures Strings.Text(st.Memory(), Strings.Slot(id, isName)) == text
      ensures StaysReadBut(old(st.Memory()), st.Memory(), Strings.Slot(id, isName))
    {
      ghost var m := st.Memory();
      st.SetString(Strings.Slot(id, isName), text);
      OthersStay(m, st.Memory(), Strings.Slot(id, isName));
      SoundHeads(st.Memory());
      ghost var p: Strings.Ptr := Strings.Null;
      if st.obj != m.obj {
        p :| !p.Buf? && st.obj == Strings.WithPtr(m, Strings.Slot(id, isName), p);
      }
      SetIsStep(e, State(), id, isName, p);
      StepKeeps(e, State());
    }

    // Inserting.

    /** A new node; a declaration is named at once. */
    method InsertChild(p: Ref, ty: NodeType, place: Place) returns (n: Ref)
      requires Valid() && p in d.tree.node && d.PlaceKnown(place)
      modifies d, d.dom, st, st.buf
      ensures Valid() && Step(old(State()), State()) && StaysRead(old(st.Memory()), st.Memory())
      ensures (n != 0) == (AllowInsertChild(old(d.tree).node[p].info.ty, ty) && old(d.PlaceAllowed(p, place)))
      ensures n != 0 ==> Grows(old(d.tree), d.tree, n, NewInfo(ty), p, place) && Grows(old(Reading()), Reading(), n, NewInfo(ty), p, place)
      ensures n == 0 ==> State() == old(State())
    {
      ghost var e, m := State(), st.Memory();
      n := d.InsertChild(p, ty, place);
      if n == 0 {
        StaysIsStep(e);
        return;
      }
      st.NewObject(Strings.NodeId(n));
      ghost var e1, m1 := State(), st.Memory();
      assert StaysRead(m, m1) by {
        ReadsStay(m, m1);
      }
      GrowsKeepsOthers(e.t, d.tree, n, NewInfo(ty), p, place);
      CoversGrown(e, e1, n, NewInfo(ty), p, place);
      SoundHeads(m1);
      InsertIsStep(e, e1, p, place, n);
      StepKeeps(e, e1);
      if ty == Declaration {
        Assign(Strings.NodeId(n), true, [120, 109, 108], e1);
        StepTwice(e, e1, State());
        StaysTwice(m, m1, st.Memory(), Strings.Slot(Strings.NodeId(n), true));
      }
      NewNodeReads(m1, st.Memory(), n, ty);
      FullGrows(e.t, m, d.tree, st.Memory(), n, NewInfo(ty), p, place, NewInfo(ty));
    }

    /** A new attribute with its name. */
    method InsertAttribute(n: Ref, place: Place, name: seq<Byte>) returns (a: Ref)
      requires Valid() && n in d.tree.node && 0 !in name
      modifies d, d.dom, st, st.buf
      ensures Valid() && Step(old(State()), State()) && StaysRead(old(st.Memory()), st.Memory())
      ensures (a != 0) == AttributeAllowed(old(d.tree), n, place)
      ensures a != 0 ==> GainsAttr(old(d.tree), d.tree, n, AttrPlace(old(d.tree).node[n].attrs, place), Attr(a, "", ""))
      ensures a != 0 ==> Strings.AttrId(a) in st.obj && Strings.Text(st.Memory(), Strings.Slot(Strings.AttrId(a), true)) == name
      ensures a != 0 ==> GainsAttr(old(Reading()), Reading(), n, AttrPlace(old(d.tree).node[n].attrs, place), Attr(a, Letters(name), ""))
      ensures a == 0 ==> State() == old(State())
    {
      ghost var e, m := State(), st.Memory();
      a := d.InsertAttribute(n, place);
      if a == 0 {
        StaysIsStep(e);
        return;
      }
      ghost var i := AttrPlace(e.t.node[n].attrs, place);
      NewAttribute(e, d.tree, n, i, Attr(a, "", ""));
      st.NewObject(Strings.AttrId(a));
      ghost var e1, m1 := State(), st.Memory();
      assert StaysRead(m, m1) by {
        ReadsStay(m, m1);
      }
      CoversGained(e, e1, n, i, Attr(a, "", ""));
      SoundHeads(m1);
      GainIsStep(e, e1, n, i, Attr(a, "", ""));
      StepKeeps(e, e1);
      Assign(Strings.AttrId(a), true, name, e1);
      StepTwice(e, e1, State());
      StaysTwice(m, m1, st.Memory(), Strings.Slot(Strings.AttrId(a), true));
      NewAttrReads(m1, st.Memory(), a, name);
      FullGains(e.t, m, d.tree, st.Memory(), n, i, Attr(a, "", ""));
    }

    /** The attribute goes, and with it its own strings. */
    method RemoveAttribute(n: Ref, a: Ref) returns (ok: bool)
      requires Valid() && n in d.tree.node
      modifies d, d.dom, st
      ensures Valid() && Step(old(State()), State()) && StaysRead(old(st.Memory()), st.Memory())
      ensures ok == (FindAttr(old(d.tree).node[n].attrs, a) < |old(d.tree).node[n].attrs|)
      ensures ok ==> var i := FindAttr(old(d.tree).node[n].attrs, a); GainsAttr(d.tree, old(d.tree), n, i, old(d.tree).node[n].attrs[i])
      ensures ok ==> var i := FindAttr(old(d.tree).node[n].attrs, a); GainsAttr(Reading(), old(Reading()), n, i, old(Reading()).node[n].attrs[i])
      ensures !ok ==> State() == old(State())
    {
      ghost var e, m := State(), st.Memory();
      ok := d.RemoveAttribute(n, a);
      if !ok {
        StaysIsStep(e);
        return;
      }
      ghost var i := FindAttr(e.t.node[n].attrs, a);
      ghost var x := e.t.node[n].attrs[i];
      IdItem(e.t, XAttr(a, n));
      st.DestroyObject(Strings.AttrId(a));
      assert StaysRead(m, st.Memory()) by {
        ReadsStayOf(m, st.Memory());
      }
      CoversLost(e, State(), n, i, x);
      SoundHeads(st.Memory());
      LossIsStep(e, State(), n, i, x);
      StepKeeps(e, State());
      FullLoses(e.t, m, d.tree, st.Memory(), n, i, x);
    }

    // Moving.

    method MoveChild(q: Ref, c: Ref, place: Place) returns (ok: bool)
      requires Valid() && q in d.tree.node && c in d.tree.node && d.PlaceKnown(place)
      modifies d, d.dom
      ensures Valid() && Step(old(State()), State())
      ensures ok == (AllowInsertChild(old(d.tree).node[q].info.ty, old(d.tree).node[c].info.ty) && old(!Under(d.tree, q, c) && d.PlaceAllowed(q, place))
                     && place != After(c) && place != Before(c))
      ensures ok ==> d.moved && MovesTo(old(d.tree), d.tree, c, q, place) && MovesTo(old(Reading()), Reading(), c, q, place)
      ensures !ok ==> State() == old(State())
    {
      ghost var e := State();
      ok := d.MoveChild(q, c, place);
      if ok {
        CoversMoved(e.t, d.tree, c, q, place, st.obj);
        SoundHeads(st.Memory());
        MarkIsStep(e, State(), XNull, XNull);
        StepKeeps(e, State());
        FullMoves(e.t, d.tree, st.Memory(), c, q, place);
      } else {
        StaysIsStep(e);
      }
    }

    // Removing.

    /** Destroy the strings of a node and of its attributes. */
    method DestroyItems(n: Ref)
      requires d.Valid() && st.Valid() && n in d.tree.node && Known(d.tree, st.obj) && Present(d.tree, st.obj, {n})
      modifies st`heap, st`obj
      ensures st.Valid() && Dropped(d.tree, old(st.obj), st.obj, {n}) && StaysRead(old(st.Memory()), st.Memory())
    {
      ghost var m := st.Memory();
      assert LinkedAt(d.dom.links, d.dom.nodes, n) && IdOf(XElem(n)) in st.obj;
      st.DestroyObject(Strings.NodeId(n));
      var s := d.dom.links[n].attrs;
      assert StaysRead(m, st.Memory()) by {
        ReadsStayOf(m, st.Memory());
      }
      for i: nat := 0 to |s|
        invariant st.Valid() && st.obj == m.obj - OwnIds(n, s, i) && StaysRead(m, st.Memory())
      {
        ghost var v := st.Memory();
        OwnIdsNext(d.tree, n, i);
        assert IdOf(XAttr(s[i].id, n)) in m.obj;
        st.DestroyObject(Strings.AttrId(s[i].id));
        assert StaysRead(v, st.Memory()) by {
          ReadsStayOf(v, st.Memory());
        }
      }
      DroppedOwn(d.tree, m.obj, n);
    }

    /** Destroy the strings of a subtree. */
    method DestroySubtree(n: Ref)
      requires d.Valid() && st.Valid() && n in d.tree.node && Known(d.tree, st.obj) && Present(d.tree, st.obj, Subtree(d.tree, n))
      modifies st`heap, st`obj
      ensures st.Valid() && Dropped(d.tree, old(st.obj), st.obj, Subtree(d.tree, n)) && StaysRead(old(st.Memory()), st.Memory())
      decreases d.tree.node[n].rank, 1
    {
      ghost var m, t := st.Memory(), d.tree;
      UnderRank(t, n, n);
      DestroyItems(n);
      assert LinkedAt(d.dom.links, d.dom.nodes, n);
      var child := d.dom.links[n].first;
      ghost var i, kids := 0, t.node[n].kids;
      assert {n} + BelowFirst(t, n, 0) == {n};
      while child != 0
        invariant i <= |kids| && child == (if i < |kids| then kids[i] else 0)
        invariant st.Valid() && Dropped(t, m.obj, st.obj, {n} + BelowFirst(t, n, i)) && StaysRead(m, st.Memory())
        decreases |kids| - i
      {
        child := DestroyKid(n, child, i, m);
        i := i + 1;
      }
      BelowAll(t, n);
      assert {n} + BelowFirst(t, n, i) == Subtree(t, n);
    }

    /** Destroy the strings below the i-th child of n and go on to the next child; m is the memory before n was destroyed. */
    method DestroyKid(n: Ref, child: Ref, ghost i: nat, ghost m: Strings.Mem) returns (next: Ref)
      requires d.Valid() && st.Valid() && n in d.tree.node && i < |d.tree.node[n].kids| && child == d.tree.node[n].kids[i]
      requires Known(d.tree, m.obj) && Present(d.tree, m.obj, Subtree(d.tree, n))
      requires Dropped(d.tree, m.obj, st.obj, {n} + BelowFirst(d.tree, n, i)) && StaysRead(m, st.Memory())
      modifies st`heap, st`obj
      ensures st.Valid() && Dropped(d.tree, m.obj, st.obj, {n} + BelowFirst(d.tree, n, i + 1)) && StaysRead(m, st.Memory())
      ensures next == if i + 1 < |d.tree.node[n].kids| then d.tree.node[n].kids[i + 1] else 0
      decreases d.tree.node[n].rank, 0
    {
      ghost var v, t := st.Memory(), d.tree;
      assert ChildWf(t, n, i) && LinkedAt(d.dom.links, d.dom.nodes, child);
      next := d.dom.links[child].next;
      PresentBelow(t, m.obj, st.obj, n, i);
      DestroySubtree(child);
      DroppedKid(t, m.obj, v.obj, st.obj, n, i);
      assert v.obj.Keys <= m.obj.Keys && st.obj.Keys <= v.obj.Keys;
    }

    /** Remove a child of p with everything below it; the strings it owns are freed, all others read as before. */
    method RemoveChild(p: Ref, c: Ref) returns (ok: bool)
      requires Valid() && p in d.tree.node && (c == 0 || c in d.tree.node)
      modifies d, d.dom, st
      ensures Valid() && Step(old(State()), State()) && StaysRead(old(st.Memory()), st.Memory())
      ensures ok == (c != 0 && c != d.root && old(d.tree).node[c].parent == p)
      ensures ok ==> Prunes(old(d.tree), d.tree, c) && Dropped(old(d.tree), old(st.obj), st.obj, Subtree(old(d.tree), c))
      ensures ok ==> Wf(old(Reading())) && Prunes(old(Reading()), Reading(), c)
      ensures !ok ==> State() == old(State())
    {
      ghost var e, m := State(), st.Memory();
      assert c != 0 ==> LinkedAt(d.dom.links, d.dom.nodes, c);
      if c == 0 || d.dom.links[c].parent != p {
        StaysIsStep(e);
        return false;
      }
      PresentAll(e.t, st.obj, Subtree(e.t, c));
      DestroySubtree(c);
      ok := d.RemoveChild(p, c);
      CoversPruned(e.t, d.tree, c, e.head, st.obj);
      SoundHeads(st.Memory());
      RemoveIsStep(e, State(), c);
      StepKeeps(e, State());
      FullPrunes(e.t, m, d.tree, st.Memory(), c);
    }

    // Copying.

    /** A new object whose strings are copies of those of another one; o are the headers before all copying. */
    method CopySlots(x: Strings.Id, y: Strings.Id, ghost o: Heads)
      requires st.Valid() && x !in st.obj && y in st.obj && x !in o && Grew(o, st.obj)
      modifies st`heap, st`obj, st`unused, st.buf
      ensures st.Valid() && st.obj.Keys == old(st.obj.Keys) + {x} && Grew(o, st.obj)
      ensures StaysRead(old(st.Memory()), st.Memory()) && Alike(old(st.Memory()), st.Memory(), x, y)
    {
      ghost var m := st.Memory();
      st.NewObject(x);
      ghost var m1 := st.Memory();
      SoundHeads(m1);
      CopyOne(x, y, true, o);
      ghost var m2 := st.Memory();
      assert Strings.ReadsSame(m1, m2, Strings.Slot(x, false));
      CopyOne(x, y, false, o);
      CopiedAlike(m, m1, m2, st.Memory(), x, y);
    }

    method CopyOne(x: Strings.Id, y: Strings.Id, isName: bool, ghost o: Heads)
      requires st.Valid() && x in st.obj && y in st.obj && x != y && x !in o && Grew(o, st.obj)
      requires Strings.PtrOf(st.Memory(), Strings.Slot(x, isName)) == Strings.Null
      modifies st`heap, st`obj, st`unused, st.buf
      ensures st.Valid() && st.obj.Keys == old(st.obj.Keys) && Grew(o, st.obj)
      ensures Strings.OthersRead(old(st.Memory()), st.Memory(), Strings.Slot(x, isName))
      ensures Strings.Text(st.Memory(), Strings.Slot(x, isName)) == old(Strings.Text(st.Memory(), Strings.Slot(y, isName)))
    {
      ghost var v := st.obj;
      st.NodeCopyString(Strings.Slot(x, isName), Strings.Slot(y, isName), true);
      SoundHeads(st.Memory());
      GrewCopied(o, v, st.obj, Strings.Slot(x, isName), y);
    }

    /** Objects for node c and its attributes, with the strings of node v. */
    method CopyItems(v: Ref, c: Ref, ghost o: Heads)
      requires d.Valid() && st.Valid() && Grew(o, st.obj) && v != c && v in d.tree.node && c in d.tree.node
      requires |d.tree.node[c].attrs| == |d.tree.node[v].attrs|
      requires Present(d.tree, st.obj, {v}) && Absent(d.tree, st.obj, c)
      modifies st`heap, st`obj, st`unused, st.buf
      ensures st.Valid() && Grew(o, st.obj) && Added(d.tree, old(st.obj), st.obj, {c})
      ensures StaysRead(old(st.Memory()), st.Memory()) && CopyReads(d.tree, old(st.Memory()), st.Memory(), v, c, |d.tree.node[c].attrs|)
    {
      ghost var m := st.Memory();
      assert LinkedAt(d.dom.links, d.dom.nodes, v) && LinkedAt(d.dom.links, d.dom.nodes, c);
      assert IdOf(XElem(v)) in st.obj && IdOf(XElem(c)) !in st.obj;
      CopySlots(Strings.NodeId(c), Strings.NodeId(v), o);
      var from, to := d.dom.links[v].attrs, d.dom.links[c].attrs;
      for i: nat := 0 to |to|
        invariant st.Valid() && Grew(o, st.obj) && st.obj.Keys == m.obj.Keys + OwnIds(c, to, i)
        invariant StaysRead(m, st.Memory()) && CopyReads(d.tree, m, st.Memory(), v, c, i)
      {
        CopyAttr(to[i].id, from[i].id, v, c, i, o, m, d.tree);
      }
      AddedOwn(d.tree, m.obj, st.obj, c);
    }

    /** The i-th attribute of c gets the strings of that of v; m is the memory before the attributes were copied, t the tree. */
    method CopyAttr(to: Ref, from: Ref, ghost v: Ref, ghost c: Ref, ghost i: nat, ghost o: Heads, ghost m: Strings.Mem, ghost t: Tree)
      requires st.Valid() && Grew(o, st.obj) && Wf(t) && v in t.node && c in t.node && i < |t.node[c].attrs| == |t.node[v].attrs|
      requires to == t.node[c].attrs[i].id && from == t.node[v].attrs[i].id
      requires Present(t, m.obj, {v}) && Absent(t, m.obj, c) && Grew(o, m.obj) && st.obj.Keys == m.obj.Keys + OwnIds(c, t.node[c].attrs, i)
      requires StaysRead(m, st.Memory()) && CopyReads(t, m, st.Memory(), v, c, i)
      modifies st`heap, st`obj, st`unused, st.buf
      ensures st.Valid() && Grew(o, st.obj) && st.obj.Keys == m.obj.Keys + OwnIds(c, t.node[c].attrs, i + 1)
      ensures StaysRead(m, st.Memory()) && CopyReads(t, m, st.Memory(), v, c, i + 1)
    {
      ghost var w := st.Memory();
      AttrReady(t, m.obj, v, c, i);
      CopySlots(Strings.AttrId(to), Strings.AttrId(from), o);
      CopyReadsNext(t, m, w, st.Memory(), v, c, i);
    }

    /** Objects for all copies, in the order of the walk; e is the state before, t its tree. */
    method CopyStrings(seen: seq<Ref>, cp: map<Ref, Ref>, n: Ref, ghost e: Doc)
      requires d.Valid() && st.Valid() && Wf(e.t) && Covers(e.t, e.head) && e.head == st.obj
      requires CopyTree.CopiesOf(e.t, d.tree, cp) && CopyTree.Visited(cp, seen, n) && Distinct(seen)
      requires forall v {:trigger e.t.node[v]} | v in e.t.node :: v in d.tree.node && SameContents(e.t, d.tree, v)
      modifies st`heap, st`obj, st`unused, st.buf
      ensures st.Valid() && Grew(e.head, st.obj) && Added(d.tree, e.head, st.obj, CopyTree.Made(cp))
      ensures StaysRead(old(st.Memory()), st.Memory()) && AllCopied(d.tree, old(st.Memory()), st.Memory(), cp, cp.Keys)
    {
      ghost var m, u, done := st.Memory(), d.tree, {};
      for k: nat := 0 to |seen|
        invariant done <= cp.Keys && AllCopied(u, m, st.Memory(), cp, done)
        invariant st.Valid() && Grew(e.head, st.obj) && Added(u, e.head, st.obj, CopiesIn(cp, done)) && StaysRead(m, st.Memory())
        invariant forall v {:trigger v in done} :: v in done <==> v in seen[..k] && v != n
      {
        var v := seen[k];
        assert seen[..k + 1] == seen[..k] + [v];
        if v != n {
          assert v !in seen[..k];
          CopyNode(v, cp, done, e, m);
          done := done + {v};
        }
      }
      assert seen[..|seen|] == seen;
      assert done == cp.Keys;
      assert CopiesIn(cp, done) == CopyTree.Made(cp);
    }

    /** Objects for the copy of v; done are the nodes whose copies have theirs, m is the memory before. */
    method CopyNode(v: Ref, cp: map<Ref, Ref>, ghost done: set<Ref>, ghost e: Doc, ghost m: Strings.Mem)
      requires d.Valid() && st.Valid() && Wf(e.t) && Covers(e.t, e.head) && e.head == m.obj && CopyTree.CopiesOf(e.t, d.tree, cp)
      requires forall x {:trigger e.t.node[x]} | x in e.t.node :: x in d.tree.node && SameContents(e.t, d.tree, x)
      requires v in cp && v !in done && done <= cp.Keys && AllCopied(d.tree, m, st.Memory(), cp, done)
      requires Grew(e.head, st.obj) && Added(d.tree, e.head, st.obj, CopiesIn(cp, done)) && StaysRead(m, st.Memory())
      modifies st`heap, st`obj, st`unused, st.buf
      ensures st.Valid() && AllCopied(d.tree, m, st.Memory(), cp, done + {v})
      ensures Grew(e.head, st.obj) && Added(d.tree, e.head, st.obj, CopiesIn(cp, done + {v})) && StaysRead(m, st.Memory())
    {
      ghost var w := st.Memory();
      assert CopyTree.CopyOf(e.t, d.tree, v, cp[v]);
      ReadyToCopy(e, d.tree, st.obj, cp, done, v);
      CopyItems(v, cp[v], e.head);
      AddedMore(d.tree, e.head, w.obj, st.obj, cp, done, v);
      AllCopiedMore(d.tree, m, w, st.Memory(), cp, done, v);
    }

    /** Copy a subtree with its strings, possibly to a place inside it. Buffer strings are shared by the copy. */
    method CopyChild(p: Ref, proto: Ref, place: Place) returns (n: Ref, cp: map<Ref, Ref>)
      requires Valid() && p in d.tree.node && proto in d.tree.node && d.PlaceKnown(place)
      modifies d, d.dom, st, st.buf
      ensures Valid() && Step(old(State()), State()) && StaysRead(old(st.Memory()), st.Memory())
      ensures (n != 0) == (AllowInsertChild(old(d.tree).node[p].info.ty, old(d.tree).node[proto].info.ty) && old(d.PlaceAllowed(p, place)))
      ensures n != 0 ==> n in d.tree.node && CopyTree.ValueOf(d.tree, n) == old(CopyTree.ValueOf(d.tree, proto))
      ensures n != 0 ==> CopyTree.OthersKept(old(d.tree), d.tree, p, place, n)
      ensures n != 0 ==> CopyTree.CopiesOf(old(d.tree), d.tree, cp) && AllCopied(d.tree, old(st.Memory()), st.Memory(), cp, cp.Keys)
      ensures n != 0 ==> Wf(old(Reading())) && Wf(Reading()) && proto in old(Reading()).node && n in Reading().node
      ensures n != 0 ==> CopyTree.ValueOf(Reading(), n) == CopyTree.ValueOf(old(Reading()), proto)
      ensures n != 0 ==> CopyTree.OthersKept(old(Reading()), Reading(), p, place, n)
      ensures n == 0 ==> State() == old(State())
    {
      ghost var e, m := State(), st.Memory();
      var seen;
      n, cp, seen := CopyTree.CopyChild(d, p, proto, place);
      if n == 0 {
        StaysIsStep(e);
        return;
      }
      forall v {:trigger e.t.node[v]} | v in e.t.node ensures v in d.tree.node && SameContents(e.t, d.tree, v) {
        assert CopyTree.OtherKept(e.t, d.tree, p, place, n, v);
      }
      CopyStrings(seen, cp, n, e);
      CoversCopied(e, d.tree, cp, st.obj);
      SoundHeads(st.Memory());
      InsertIsStep(e, State(), p, place, n);
      StepKeeps(e, State());
      CopiesFull(e.t, m, d.tree, st.Memory(), cp);
      FullCopied(e.t, m, d.tree, st.Memory(), proto, cp);
      FullOthersKept(e.t, m, d.tree, st.Memory(), p, place, n);
    }
  }

  // New items.

  lemma NewNodeReads(m: Strings.Mem, w: Strings.Mem, n: Ref, ty: NodeType)
    requires Strings.NodeId(n) in m.obj && m.obj[Strings.NodeId(n)] == Plain()
    requires if ty == Declaration then
               && Strings.NodeId(n) in w.obj && StaysReadBut(m, w, Strings.Slot(Strings.NodeId(n), true))
               && Strings.Text(w, Strings.Slot(Strings.NodeId(n), true)) == [120, 109, 108]
             else w == m
    ensures FullInfo(w, n, ty) == NewInfo(ty)
  {
    if ty == Declaration {
      var value := Strings.Slot(Strings.NodeId(n), false);
      assert Strings.Text(w, value) == Strings.Text(m, value);
      assert Letters([120, 109, 108]) == "xml";
    }
  }

  lemma NewAttrReads(m: Strings.Mem, w: Strings.Mem, a: Ref, name: seq<Byte>)
    requires Strings.AttrId(a) in m.obj && m.obj[Strings.AttrId(a)] == Plain() && Strings.AttrId(a) in w.obj
    requires StaysReadBut(m, w, Strings.Slot(Strings.AttrId(a), true)) && Strings.Text(w, Strings.Slot(Strings.AttrId(a), true)) == name
    ensures FullAttr(w, a) == Attr(a, Letters(name), "")
  {
    var value := Strings.Slot(Strings.AttrId(a), false);
    assert Strings.Text(w, value) == Strings.Text(m, value);
  }

  /** Copies read as their sources did. */
  lemma CopiesFull(t: Tree, m: Strings.Mem, u: Tree, w: Strings.Mem, cp: map<Ref, Ref>)
    requires CopyTree.CopiesOf(t, u, cp) && AllCopied(u, m, w, cp, cp.Keys)
    ensures forall v {:trigger cp[v]} | v in cp && v in t.node && cp[v] in u.node :: CopyFull(t, m, u, w, v, cp[v])
  {
    forall v {:trigger cp[v]} | v in cp && v in t.node && cp[v] in u.node ensures CopyFull(t, m, u, w, v, cp[v]) {
      assert NodeCopied(u, m, w, cp, v) && CopyTree.CopyOf(t, u, v, cp[v]);
      var s, r := t.node[v].attrs, u.node[cp[v]].attrs;
      forall i | 0 <= i < |s| ensures FullAttr(w, r[i].id).name == FullAttr(m, s[i].id).name && FullAttr(w, r[i].id).value == FullAttr(m, s[i].id).value {
        assert Alike(m, w, Strings.AttrId(r[i].id), Strings.AttrId(s[i].id));
      }
    }
  }

  function CopiesIn(cp: map<Ref, Ref>, done: set<Ref>): set<Ref>
    requires done <= cp.Keys
  {
    set v | v in done :: cp[v]
  }

  /** The copies of these nodes read as their sources did. */
  ghost predicate AllCopied(t: Tree, m: Strings.Mem, w: Strings.Mem, cp: map<Ref, Ref>, done: set<Ref>) {
    forall v {:trigger NodeCopied(t, m, w, cp, v)} | v in done :: NodeCopied(t, m, w, cp, v)
  }

  ghost predicate NodeCopied(t: Tree, m: Strings.Mem, w: Strings.Mem, cp: map<Ref, Ref>, v: Ref) {
    v in cp && v in t.node && cp[v] in t.node && |t.node[cp[v]].attrs| == |t.node[v].attrs| && CopyReads(t, m, w, v, cp[v], |t.node[v].attrs|)
  }

  lemma AllCopiedMore(t: Tree, m: Strings.Mem, v: Strings.Mem, w: Strings.Mem, cp: map<Ref, Ref>, done: set<Ref>, x: Ref)
    requires AllCopied(t, m, v, cp, done) && StaysRead(m, v) && StaysRead(v, w) && m.obj.Keys <= v.obj.Keys <= w.obj.Keys
    requires x in cp && x in t.node && cp[x] in t.node && |t.node[cp[x]].attrs| == |t.node[x].attrs|
    requires CopyReads(t, v, w, x, cp[x], |t.node[x].attrs|)
    requires Strings.NodeId(x) in m.obj && forall j | 0 <= j < |t.node[x].attrs| :: Strings.AttrId(t.node[x].attrs[j].id) in m.obj
    ensures StaysRead(m, w) && AllCopied(t, m, w, cp, done + {x})
  {
    StaysThrough(m, v, w);
    forall y {:trigger NodeCopied(t, m, w, cp, y)} | y in done + {x} ensures NodeCopied(t, m, w, cp, y) {
      if y in done {
        assert NodeCopied(t, m, v, cp, y);
        CopyReadsOn(t, m, v, w, y, cp[y]);
      }
    }
  }

  lemma CopyReadsOn(t: Tree, m: Strings.Mem, v: Strings.Mem, w: Strings.Mem, x: Ref, c: Ref)
    requires x in t.node && c in t.node && |t.node[c].attrs| == |t.node[x].attrs|
    requires CopyReads(t, m, v, x, c, |t.node[x].attrs|) && StaysRead(v, w) && v.obj.Keys <= w.obj.Keys
    ensures CopyReads(t, m, w, x, c, |t.node[x].attrs|)
  {
    var to, from := t.node[c].attrs, t.node[x].attrs;
    AlikeOn(m, v, w, Strings.NodeId(c), Strings.NodeId(x));
    forall j | 0 <= j < |from| ensures Alike(m, w, Strings.AttrId(to[j].id), Strings.AttrId(from[j].id)) {
      AlikeOn(m, v, w, Strings.AttrId(to[j].id), Strings.AttrId(from[j].id));
    }
  }

  /** The source has its objects, the copy has none yet. */
  lemma ReadyToCopy(e: Doc, u: Tree, w: Heads, cp: map<Ref, Ref>, done: set<Ref>, v: Ref)
    requires Wf(e.t) && Wf(u) && Covers(e.t, e.head) && CopyTree.CopiesOf(e.t, u, cp) && done <= cp.Keys && v in cp && v !in done
    requires forall x {:trigger e.t.node[x]} | x in e.t.node :: x in u.node && SameContents(e.t, u, x)
    requires Added(u, e.head, w, CopiesIn(cp, done))
    ensures Present(u, w, {v}) && Absent(u, w, cp[v]) && Strings.NodeId(v) in e.head
    ensures v in u.node && forall j | 0 <= j < |u.node[v].attrs| :: Strings.AttrId(u.node[v].attrs[j].id) in e.head
  {
    assert CopyTree.CopyOf(e.t, u, v, cp[v]);
    assert SameContents(e.t, u, v);
    forall x {:trigger IdOf(x)} | Has(u, x) && Owner(x) in {v} ensures IdOf(x) in e.head && IdOf(x) in w {
      assert Has(e.t, x);
      IdItem(e.t, x);
    }
    forall j | 0 <= j < |u.node[v].attrs| ensures Strings.AttrId(u.node[v].attrs[j].id) in e.head {
      OwnIdsNext(u, v, j);
      assert IdOf(XAttr(u.node[v].attrs[j].id, v)) in e.head;
    }
    assert IdOf(XElem(v)) in e.head;
    forall x {:trigger IdOf(x)} | Has(u, x) && Owner(x) == cp[v] ensures IdOf(x) !in w {
      IdItem(u, x);
      if IdOf(x) in e.head {
        var y := ItemOf(e.t, IdOf(x));
        assert Has(e.t, y) && SameContents(e.t, u, Owner(y));
        IdItem(u, y);
      }
      forall z | z in done ensures cp[z] != cp[v] {
      }
    }
  }

  lemma AddedMore(t: Tree, o: Heads, v: Heads, w: Heads, cp: map<Ref, Ref>, done: set<Ref>, x: Ref)
    requires Wf(t) && done <= cp.Keys && x in cp && Added(t, o, v, CopiesIn(cp, done)) && Added(t, v, w, {cp[x]})
    ensures Added(t, o, w, CopiesIn(cp, done + {x}))
  {
    assert CopiesIn(cp, done + {x}) == CopiesIn(cp, done) + {cp[x]};
  }

  lemma CoversCopied(e: Doc, u: Tree, cp: map<Ref, Ref>, w: Heads)
    requires Wf(e.t) && Wf(u) && Covers(e.t, e.head) && CopyTree.CopiesOf(e.t, u, cp)
    requires forall x {:trigger e.t.node[x]} | x in e.t.node :: x in u.node && SameContents(e.t, u, x)
    requires Added(u, e.head, w, CopyTree.Made(cp))
    ensures Covers(u, w)
  {
    forall id {:trigger id in w} ensures id in w <==> Has(u, ItemOf(u, id)) {
      var x, y := ItemOf(u, id), ItemOf(e.t, id);
      assert id in e.head <==> Has(e.t, y);
      if id in e.head {
        assert SameContents(e.t, u, Owner(y));
        ItemId(e.t, id);
        IdItem(u, y);
      }
      if Has(u, x) && Owner(x) in e.t.node {
        assert SameContents(e.t, u, Owner(x));
        ItemId(u, id);
        IdItem(e.t, x);
      }
    }
  }

  /** The strings of c and of its first k attributes read now as those of v did. */
  ghost predicate CopyReads(t: Tree, m: Strings.Mem, w: Strings.Mem, v: Ref, c: Ref, k: nat)
    requires v in t.node && c in t.node && k <= |t.node[c].attrs| == |t.node[v].attrs|
  {
    && Alike(m, w, Strings.NodeId(c), Strings.NodeId(v))
    && forall j | 0 <= j < k :: Alike(m, w, Strings.AttrId(t.node[c].attrs[j].id), Strings.AttrId(t.node[v].attrs[j].id))
  }

  lemma CopyReadsNext(t: Tree, m: Strings.Mem, v: Strings.Mem, w: Strings.Mem, x: Ref, c: Ref, i: nat)
    requires x in t.node && c in t.node && i < |t.node[c].attrs| == |t.node[x].attrs|
    requires CopyReads(t, m, v, x, c, i) && StaysRead(m, v) && StaysRead(v, w) && m.obj.Keys <= v.obj.Keys <= w.obj.Keys
    requires Alike(v, w, Strings.AttrId(t.node[c].attrs[i].id), Strings.AttrId(t.node[x].attrs[i].id)) && Strings.AttrId(t.node[x].attrs[i].id) in m.obj
    ensures StaysRead(m, w) && CopyReads(t, m, w, x, c, i + 1)
  {
    var to, from := t.node[c].attrs, t.node[x].attrs;
    StaysThrough(m, v, w);
    AlikeOn(m, v, w, Strings.NodeId(c), Strings.NodeId(x));
    forall j | 0 <= j < i ensures Alike(m, w, Strings.AttrId(to[j].id), Strings.AttrId(from[j].id)) {
      AlikeOn(m, v, w, Strings.AttrId(to[j].id), Strings.AttrId(from[j].id));
    }
    AlikeBack(m, v, w, Strings.AttrId(to[i].id), Strings.AttrId(from[i].id));
  }

  ghost predicate Absent(t: Tree, o: Heads, c: Ref)
    requires Wf(t)
  {
    forall x {:trigger IdOf(x)} | Has(t, x) && Owner(x) == c :: IdOf(x) !in o
  }

  lemma AttrReady(t: Tree, o: Heads, v: Ref, c: Ref, i: nat)
    requires Wf(t) && v in t.node && c in t.node && i < |t.node[c].attrs| == |t.node[v].attrs|
    requires Present(t, o, {v}) && Absent(t, o, c)
    ensures var s, to, from := t.node[c].attrs, Strings.AttrId(t.node[c].attrs[i].id), Strings.AttrId(t.node[v].attrs[i].id);
      to !in o && from in o && to !in OwnIds(c, s, i) && OwnIds(c, s, i + 1) == OwnIds(c, s, i) + {to}
  {
    OwnIdsNext(t, c, i);
    OwnIdsNext(t, v, i);
    assert IdOf(XAttr(t.node[c].attrs[i].id, c)) !in o && IdOf(XAttr(t.node[v].attrs[i].id, v)) in o;
  }

  lemma CopiedAlike(m: Strings.Mem, m1: Strings.Mem, m2: Strings.Mem, w: Strings.Mem, x: Strings.Id, y: Strings.Id)
    requires x !in m.obj && y in m.obj && m1.obj.Keys == m.obj.Keys + {x} && m2.obj.Keys == m1.obj.Keys && w.obj.Keys == m1.obj.Keys
    requires forall r {:trigger Strings.ReadsSame(m, m1, r)} | Strings.HasSlot(m, r) :: Strings.ReadsSame(m, m1, r)
    requires Strings.OthersRead(m1, m2, Strings.Slot(x, true)) && Strings.OthersRead(m2, w, Strings.Slot(x, false))
    requires Strings.Text(m2, Strings.Slot(x, true)) == Strings.Text(m1, Strings.Slot(y, true))
    requires Strings.Text(w, Strings.Slot(x, false)) == Strings.Text(m2, Strings.Slot(y, false))
    ensures StaysRead(m, w) && Alike(m, w, x, y)
  {
    forall r {:trigger Strings.Text(w, r)} | Strings.HasSlot(m, r) && Strings.HasSlot(w, r) ensures Strings.Text(w, r) == Strings.Text(m, r) {
      assert Strings.ReadsSame(m, m1, r) && Strings.ReadsSame(m1, m2, r) && Strings.ReadsSame(m2, w, r);
    }
    assert Strings.ReadsSame(m, m1, Strings.Slot(y, true)) && Strings.ReadsSame(m2, w, Strings.Slot(x, true));
    assert Strings.ReadsSame(m, m1, Strings.Slot(y, false)) && Strings.ReadsSame(m1, m2, Strings.Slot(y, false));
  }

  lemma StaysThrough(m: Strings.Mem, v: Strings.Mem, w: Strings.Mem)
    requires StaysRead(m, v) && StaysRead(v, w) && m.obj.Keys <= v.obj.Keys
    ensures StaysRead(m, w)
  {
    forall r {:trigger Strings.Text(w, r)} | Strings.HasSlot(m, r) && Strings.HasSlot(w, r) ensures Strings.Text(w, r) == Strings.Text(m, r) {
      assert Strings.Text(w, r) == Strings.Text(v, r);
    }
  }

  lemma AlikeOn(m: Strings.Mem, v: Strings.Mem, w: Strings.Mem, x: Strings.Id, y: Strings.Id)
    requires Alike(m, v, x, y) && StaysRead(v, w) && x in w.obj
    ensures Alike(m, w, x, y)
  {
  }

  lemma AlikeBack(m: Strings.Mem, v: Strings.Mem, w: Strings.Mem, x: Strings.Id, y: Strings.Id)
    requires Alike(v, w, x, y) && StaysRead(m, v) && y in m.obj
    ensures Alike(m, w, x, y)
  {
  }

  lemma AddedOwn(t: Tree, o: Heads, w: Heads, c: Ref)
    requires Wf(t) && c in t.node && w.Keys == o.Keys + OwnIds(c, t.node[c].attrs, |t.node[c].attrs|)
    ensures Added(t, o, w, {c})
  {
    var s := t.node[c].attrs;
    forall id {:trigger id in w} ensures id in w <==> id in o || (Has(t, ItemOf(t, id)) && Owner(ItemOf(t, id)) in {c}) {
      if id in OwnIds(c, s, |s|) && id.AttrId? {
        var j :| 0 <= j < |s| && id == Strings.AttrId(s[j].id);
        assert AttrWf(t, c, j);
      }
      var x := ItemOf(t, id);
      if Has(t, x) && x.XAttr? && x.p == c {
        assert s[FindAttr(s, x.a)].id == x.a;
      }
    }
  }

  // Objects of nodes.

  /** Every object belongs to an item. */
  ghost predicate Known(t: Tree, o: Heads)
    requires Wf(t)
  {
    forall id {:trigger ItemOf(t, id)} | id in o :: Has(t, ItemOf(t, id))
  }

  /** The items of these nodes have their objects. */
  ghost predicate Present(t: Tree, o: Heads, own: set<Ref>)
    requires Wf(t)
  {
    forall x {:trigger IdOf(x)} | Has(t, x) && Owner(x) in own :: IdOf(x) in o
  }

  lemma PresentAll(t: Tree, o: Heads, own: set<Ref>)
    requires Wf(t) && Covers(t, o)
    ensures Known(t, o) && Present(t, o, own)
  {
    forall x | Has(t, x) ensures IdOf(x) in o {
      IdItem(t, x);
    }
  }

  /** The ids of a node and of its first k attributes. */
  function OwnIds(n: Ref, s: seq<Attr>, k: nat): set<Strings.Id>
    requires k <= |s|
  {
    {Strings.NodeId(n)} + set j | 0 <= j < k :: Strings.AttrId(s[j].id)
  }

  lemma OwnIdsNext(t: Tree, n: Ref, i: nat)
    requires Wf(t) && n in t.node && i < |t.node[n].attrs|
    ensures var s := t.node[n].attrs;
      Strings.AttrId(s[i].id) !in OwnIds(n, s, i) && OwnIds(n, s, i + 1) == OwnIds(n, s, i) + {Strings.AttrId(s[i].id)} && Has(t, XAttr(s[i].id, n))
  {
    var s := t.node[n].attrs;
    assert AttrWf(t, n, i);
    forall j | 0 <= j < i ensures s[j].id != s[i].id {
      assert AttrWf(t, n, j);
    }
  }

  lemma DroppedOwn(t: Tree, o: Heads, n: Ref)
    requires Wf(t) && n in t.node && Known(t, o)
    ensures Dropped(t, o, o - OwnIds(n, t.node[n].attrs, |t.node[n].attrs|), {n})
  {
    var s := t.node[n].attrs;
    forall id | id in o ensures id in OwnIds(n, s, |s|) <==> Owner(ItemOf(t, id)) == n {
      var x := ItemOf(t, id);
      assert Has(t, x);
      if x.XAttr? && x.p == n {
        assert s[FindAttr(s, x.a)].id == x.a;
      }
      if id in OwnIds(n, s, |s|) && id.AttrId? {
        var j :| 0 <= j < |s| && id == Strings.AttrId(s[j].id);
        assert AttrWf(t, n, j);
      }
    }
  }

  lemma DroppedMore(t: Tree, o: Heads, v: Heads, w: Heads, a: set<Ref>, b: set<Ref>)
    requires Wf(t) && Dropped(t, o, v, a) && Dropped(t, v, w, b)
    ensures Dropped(t, o, w, a + b)
  {
  }

  lemma DroppedKid(t: Tree, o: Heads, v: Heads, w: Heads, n: Ref, i: nat)
    requires Wf(t) && n in t.node && i < |t.node[n].kids| && t.node[n].kids[i] in t.node
    requires Dropped(t, o, v, {n} + BelowFirst(t, n, i)) && Dropped(t, v, w, Subtree(t, t.node[n].kids[i]))
    ensures Dropped(t, o, w, {n} + BelowFirst(t, n, i + 1))
  {
    var c := t.node[n].kids[i];
    BelowNext(t, n, i);
    DroppedMore(t, o, v, w, {n} + BelowFirst(t, n, i), Subtree(t, c));
    assert {n} + BelowFirst(t, n, i) + Subtree(t, c) == {n} + BelowFirst(t, n, i + 1);
  }

  lemma PresentBelow(t: Tree, o: Heads, w: Heads, n: Ref, i: nat)
    requires Wf(t) && n in t.node && i < |t.node[n].kids| && Known(t, o) && Present(t, o, Subtree(t, n))
    requires Dropped(t, o, w, {n} + BelowFirst(t, n, i))
    ensures t.node[n].kids[i] in t.node && Known(t, w) && Present(t, w, Subtree(t, t.node[n].kids[i]))
  {
    var c := t.node[n].kids[i];
    assert ChildWf(t, n, i) && Under(t, c, c);
    forall x {:trigger IdOf(x)} | Has(t, x) && Owner(x) in Subtree(t, c) ensures IdOf(x) in w {
      BelowApart(t, n, i, Owner(x));
      UnderParent(t, Owner(x), c);
      IdItem(t, x);
    }
  }

  lemma CoversPruned(t: Tree, u: Tree, c: Ref, o: Heads, w: Heads)
    requires Wf(t) && Wf(u) && Prunes(t, u, c) && Covers(t, o) && Dropped(t, o, w, Subtree(t, c))
    ensures Covers(u, w) && forall id {:trigger w[id]} | id in w :: id in o && w[id] == o[id]
  {
    forall id {:trigger id in w} ensures id in w <==> Has(u, ItemOf(u, id)) {
      var x := ItemOf(t, id);
      assert id in o <==> Has(t, x);
      if Owner(x) in u.node {
        assert u.node[Owner(x)].kids == Without(t.node[Owner(x)].kids, c);
      }
    }
  }

  // One step after another.

  lemma StepTwice(d: Doc, e: Doc, f: Doc)
    requires Wf(d.t) && Step(d, e) && Step(e, f) && e.t == f.t && e.moved == f.moved
    ensures Step(d, f)
  {
    if !f.moved {
      forall x {:trigger HeaderStep(d, f, x)} ensures HeaderStep(d, f, x) {
        assert HeaderStep(d, e, x) && HeaderStep(e, f, x);
      }
    }
  }

  lemma StaysTwice(m: Strings.Mem, v: Strings.Mem, w: Strings.Mem, s: Strings.Slot)
    requires StaysRead(m, v) && StaysReadBut(v, w, s) && !Strings.HasSlot(m, s) && m.obj.Keys <= v.obj.Keys
    ensures StaysRead(m, w)
  {
  }

  lemma ReadsStay(m: Strings.Mem, w: Strings.Mem)
    requires forall r {:trigger Strings.ReadsSame(m, w, r)} | Strings.HasSlot(m, r) :: Strings.ReadsSame(m, w, r)
    ensures StaysRead(m, w)
  {
    forall r {:trigger Strings.Text(w, r)} | Strings.HasSlot(m, r) && Strings.HasSlot(w, r) ensures Strings.Text(w, r) == Strings.Text(m, r) {
      assert Strings.ReadsSame(m, w, r);
    }
  }

  lemma ReadsStayOf(m: Strings.Mem, w: Strings.Mem)
    requires forall r {:trigger Strings.ReadsSame(m, w, r)} | Strings.HasSlot(w, r) :: Strings.ReadsSame(m, w, r)
    ensures StaysRead(m, w)
  {
    forall r {:trigger Strings.Text(w, r)} | Strings.HasSlot(m, r) && Strings.HasSlot(w, r) ensures Strings.Text(w, r) == Strings.Text(m, r) {
      assert Strings.ReadsSame(m, w, r);
    }
  }

  // Which items there are.

  /** An id is in use in both trees if the items with this id are the same. */
  lemma ItemsSame(t: Tree, u: Tree, id: Strings.Id)
    requires Wf(t) && Wf(u) && forall x | IdOf(x) == id :: Has(t, x) == Has(u, x)
    ensures Has(t, ItemOf(t, id)) == Has(u, ItemOf(u, id))
  {
    if Has(t, ItemOf(t, id)) {
      ItemId(t, id);
      IdItem(u, ItemOf(t, id));
    }
    if Has(u, ItemOf(u, id)) {
      ItemId(u, id);
      IdItem(t, ItemOf(u, id));
    }
  }

  lemma CoversGrown(e: Doc, f: Doc, n: Ref, info: Info, p: Ref, place: Place)
    requires Wf(e.t) && Wf(f.t) && Covers(e.t, e.head) && Grows(e.t, f.t, n, info, p, place) && f.head == e.head[Strings.NodeId(n) := Plain()]
    ensures Covers(f.t, f.head) && Grew(e.head, f.head)
  {
    forall id {:trigger id in f.head} ensures id in f.head <==> Has(f.t, ItemOf(f.t, id)) {
      assert id in e.head <==> Has(e.t, ItemOf(e.t, id));
      if id != Strings.NodeId(n) {
        forall x | IdOf(x) == id ensures Has(e.t, x) == Has(f.t, x) {
          if Owner(x) in e.t.node {
            assert f.t.node[Owner(x)].kids == GrownList(e.t.node[Owner(x)].kids, Owner(x) == p, n, place);
          }
        }
        ItemsSame(e.t, f.t, id);
      }
    }
  }

  lemma NewAttribute(e: Doc, u: Tree, n: Ref, i: nat, a: Attr)
    requires Wf(e.t) && Covers(e.t, e.head) && GainsAttr(e.t, u, n, i, a)
    ensures Strings.AttrId(a.id) !in e.head
  {
    assert Strings.AttrId(a.id) in e.head <==> Has(e.t, ItemOf(e.t, Strings.AttrId(a.id)));
  }

  lemma GainedItems(t: Tree, u: Tree, n: Ref, i: nat, a: Attr, id: Strings.Id)
    requires Wf(t) && Wf(u) && GainsAttr(t, u, n, i, a)
    ensures id != Strings.AttrId(a.id) ==> Has(t, ItemOf(t, id)) == Has(u, ItemOf(u, id))
    ensures id == Strings.AttrId(a.id) ==> !Has(t, ItemOf(t, id)) && Has(u, ItemOf(u, id))
  {
    if id == Strings.AttrId(a.id) {
      assert u.node[n].attrs[i] == a && AttrWf(u, n, i);
    } else {
      forall x | IdOf(x) == id ensures Has(t, x) == Has(u, x) {
        GainedItem(t, u, n, i, a, x);
      }
      ItemsSame(t, u, id);
    }
  }

  lemma CoversGained(e: Doc, f: Doc, n: Ref, i: nat, a: Attr)
    requires Wf(e.t) && Wf(f.t) && Covers(e.t, e.head) && GainsAttr(e.t, f.t, n, i, a) && f.head == e.head[Strings.AttrId(a.id) := Plain()]
    ensures Covers(f.t, f.head)
  {
    forall id {:trigger id in f.head} ensures id in f.head <==> Has(f.t, ItemOf(f.t, id)) {
      assert id in e.head <==> Has(e.t, ItemOf(e.t, id));
      GainedItems(e.t, f.t, n, i, a, id);
    }
  }

  lemma CoversLost(e: Doc, f: Doc, n: Ref, i: nat, a: Attr)
    requires Wf(e.t) && Wf(f.t) && Covers(e.t, e.head) && GainsAttr(f.t, e.t, n, i, a) && f.head == e.head - {Strings.AttrId(a.id)}
    ensures Covers(f.t, f.head)
  {
    forall id {:trigger id in f.head} ensures id in f.head <==> Has(f.t, ItemOf(f.t, id)) {
      assert id in e.head <==> Has(e.t, ItemOf(e.t, id));
      GainedItems(f.t, e.t, n, i, a, id);
    }
  }

  lemma CoversMoved(t: Tree, u: Tree, c: Ref, q: Ref, place: Place, head: Heads)
    requires Wf(t) && Wf(u) && Covers(t, head) && MovesTo(t, u, c, q, place)
    ensures Covers(u, head)
  {
    forall id {:trigger id in head} ensures id in head <==> Has(u, ItemOf(u, id)) {
      assert id in head <==> Has(t, ItemOf(t, id));
      forall x | IdOf(x) == id ensures Has(t, x) == Has(u, x) {
        if Owner(x) in t.node {
          assert u.node[Owner(x)].kids == MovedList(t.node[Owner(x)].kids, Owner(x) == q, c, place);
        }
      }
      ItemsSame(t, u, id);
    }
  }

  lemma StaysIsStep(d: Doc)
    requires InBufferOrder(d)
    ensures Step(d, d)
  {
    SameShapeAgrees(d.t, d.t);
    forall x {:trigger HeaderStep(d, d, x)} ensures HeaderStep(d, d, x) {
      assert HeaderOk(Header(d, x));
    }
  }
}
