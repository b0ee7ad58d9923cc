/**
 * Names and values: pointers into the parsed buffer or to heap blocks, with ownership bits.
 * Copies inside a document share buffer strings; whoever shares never writes to them again.
 */
module Strings {
  import opened Sequences
  import opened Utf

  /** A node or an attribute. */
  datatype Id = NodeId(n: nat) | AttrId(a: nat)

  datatype Ptr = Null | Buf(off: nat) | Heap(block: nat)

  /** The string fields and header bits of a node or an attribute. */
  datatype Obj = Obj(name: Ptr, nameOwned: bool, value: Ptr, valueOwned: bool, shared: bool)

  datatype Slot = Slot(id: Id, isName: bool)

  datatype Mem = Mem(buf: seq<Byte>, heap: map<nat, seq<Byte>>, obj: map<Id, Obj>)

  predicate HasSlot(m: Mem, s: Slot) {
    s.id in m.obj
  }

  function PtrOf(m: Mem, s: Slot): Ptr
    requires HasSlot(m, s)
  {
    if s.isName then m.obj[s.id].name else m.obj[s.id].value
  }

  predicate OwnedBy(m: Mem, s: Slot)
    requires HasSlot(m, s)
  {
    if s.isName then m.obj[s.id].nameOwned else m.obj[s.id].valueOwned
  }

  predicate Shared(m: Mem, s: Slot)
    requires HasSlot(m, s)
  {
    m.obj[s.id].shared
  }

  /** Length of the zero-terminated string at o. */
  function StrLen(b: seq<Byte>, o: nat): nat
    decreases |b| - o
  {
    if o >= |b| || b[o] == 0 then 0 else 1 + StrLen(b, o + 1)
  }

  lemma {:induction false} StrLenBound(b: seq<Byte>, o: nat)
    requires o <= |b|
    ensures o + StrLen(b, o) <= |b|
    ensures forall k | o <= k < o + StrLen(b, o) :: b[k] != 0
    ensures o + StrLen(b, o) < |b| ==> b[o + StrLen(b, o)] == 0
    decreases |b| - o
  {
    if o < |b| && b[o] != 0 {
      StrLenBound(b, o + 1);
    }
  }

  lemma {:induction false} StrLenIs(b: seq<Byte>, o: nat, n: nat)
    requires o + n < |b| && b[o + n] == 0 && forall k | o <= k < o + n :: b[k] != 0
    ensures StrLen(b, o) == n
    decreases n
  {
    if n > 0 {
      StrLenIs(b, o + 1, n - 1);
    }
  }

  function TextAt(b: seq<Byte>, o: nat): seq<Byte>
  {
    if o + StrLen(b, o) <= |b| then b[o..o + StrLen(b, o)] else []
  }

  function Text(m: Mem, s: Slot): seq<Byte>
    requires HasSlot(m, s)
  {
    match PtrOf(m, s)
    case Null => []
    case Buf(o) => TextAt(m.buf, o)
    case Heap(h) => if h in m.heap then m.heap[h] else []
  }

  // The invariant.

  /** Heap strings are owned by their slot; buffer strings end inside the buffer. */
  ghost predicate SlotOk(m: Mem, s: Slot)
    requires HasSlot(m, s)
  {
    match PtrOf(m, s)
    case Null => !OwnedBy(m, s)
    case Heap(h) => OwnedBy(m, s) && h in m.heap && 0 !in m.heap[h]
    case Buf(o) => !OwnedBy(m, s) && o < |m.buf| && o + StrLen(m.buf, o) < |m.buf|
  }

  /** Two slots: never the same heap block, and the same or overlapping buffer text only if both are marked as shared. */
  ghost predicate PairOk(m: Mem, s: Slot, r: Slot)
    requires HasSlot(m, s) && HasSlot(m, r)
  {
    match (PtrOf(m, s), PtrOf(m, r))
    case (Heap(h), Heap(k)) => h != k
    case (Buf(o), Buf(p)) =>
      || (o == p && Shared(m, s) && Shared(m, r))
      || o + StrLen(m.buf, o) < p || p + StrLen(m.buf, p) < o
    case _ => true
  }

  ghost predicate Owns(m: Mem, s: Slot, h: nat) {
    HasSlot(m, s) && PtrOf(m, s) == Heap(h)
  }

  ghost predicate Inv(m: Mem) {
    && (forall s {:trigger SlotOk(m, s)} | HasSlot(m, s) :: SlotOk(m, s))
    && (forall s, r {:trigger PairOk(m, s, r)} | HasSlot(m, s) && HasSlot(m, r) && s != r :: PairOk(m, s, r))
    && (forall h {:trigger h in m.heap} | h in m.heap :: exists s :: Owns(m, s, h))
  }

  /** Every heap string has exactly one owner. */
  lemma OneOwner(m: Mem, h: nat) returns (s: Slot)
    requires Inv(m) && h in m.heap
    ensures Owns(m, s, h) && OwnedBy(m, s)
    ensures forall r {:trigger Owns(m, r, h)} | Owns(m, r, h) :: r == s
  {
    s :| Owns(m, s, h);
    assert SlotOk(m, s);
    forall r {:trigger Owns(m, r, h)} | Owns(m, r, h) ensures r == s {
      assert r != s ==> PairOk(m, r, s);
    }
  }

  // Changes of one slot.

  function SetPtr(x: Obj, isName: bool, p: Ptr): Obj {
    if isName then x.(name := p, nameOwned := p.Heap?) else x.(value := p, valueOwned := p.Heap?)
  }

  function WithPtr(m: Mem, s: Slot, p: Ptr): map<Id, Obj>
    requires HasSlot(m, s)
  {
    m.obj[s.id := SetPtr(m.obj[s.id], s.isName, p)]
  }

  /** Everything but slot s reads as before. */
  ghost predicate OthersRead(m: Mem, w: Mem, s: Slot) {
    && w.obj.Keys == m.obj.Keys
    && forall r {:trigger ReadsSame(m, w, r)} | HasSlot(m, r) && r != s :: ReadsSame(m, w, r)
  }

  ghost predicate ReadsSame(m: Mem, w: Mem, r: Slot) {
    HasSlot(m, r) && HasSlot(w, r) && Text(w, r) == Text(m, r) && PtrOf(w, r) == PtrOf(m, r)
  }

  /** The slot becomes null or gets a block of its own; an old block of its own is freed. */
  ghost predicate Replaced(m: Mem, w: Mem, s: Slot, p: Ptr, text: seq<Byte>)
    requires HasSlot(m, s)
  {
    && w.buf == m.buf && w.obj == WithPtr(m, s, p) && !p.Buf? && 0 !in text
    && (p.Heap? ==> p.block !in m.heap)
    && (p.Null? ==> text == [])
    && (forall h {:trigger h in w.heap} :: h in w.heap <==> p == Heap(h) || (h in m.heap && PtrOf(m, s) != Heap(h)))
    && (forall h {:trigger w.heap[h]} | h in w.heap :: w.heap[h] == if p == Heap(h) then text else if h in m.heap then m.heap[h] else [])
  }

  lemma ReplacedSlot(m: Mem, w: Mem, s: Slot, p: Ptr, text: seq<Byte>, r: Slot)
    requires HasSlot(m, s) && Inv(m) && Replaced(m, w, s, p, text) && HasSlot(m, r)
    ensures HasSlot(w, r) && SlotOk(w, r) && (r != s ==> ReadsSame(m, w, r)) && (r == s ==> Text(w, s) == text && PtrOf(w, s) == p)
  {
    assert SlotOk(m, r);
    assert r != s ==> PairOk(m, r, s);
  }

  lemma ReplacedPair(m: Mem, w: Mem, s: Slot, p: Ptr, text: seq<Byte>, a: Slot, b: Slot)
    requires HasSlot(m, s) && Inv(m) && Replaced(m, w, s, p, text) && HasSlot(m, a) && HasSlot(m, b) && a != b
    ensures HasSlot(w, a) && HasSlot(w, b) && PairOk(w, a, b)
  {
    assert PairOk(m, a, b) && SlotOk(m, a) && SlotOk(m, b);
  }

  lemma ReplacedKeeps(m: Mem, w: Mem, s: Slot, p: Ptr, text: seq<Byte>)
    requires HasSlot(m, s) && Inv(m) && Replaced(m, w, s, p, text)
    ensures Inv(w) && OthersRead(m, w, s) && Text(w, s) == text
  {
    ReplacedSlot(m, w, s, p, text, s);
    forall r {:trigger SlotOk(w, r)} {:trigger ReadsSame(m, w, r)} | HasSlot(w, r) ensures SlotOk(w, r) && (r != s ==> ReadsSame(m, w, r)) {
      ReplacedSlot(m, w, s, p, text, r);
    }
    forall a, b {:trigger PairOk(w, a, b)} | HasSlot(w, a) && HasSlot(w, b) && a != b ensures PairOk(w, a, b) {
      ReplacedPair(m, w, s, p, text, a, b);
    }
    forall h {:trigger h in w.heap} | h in w.heap ensures exists r :: Owns(w, r, h) {
      if p == Heap(h) {
        assert Owns(w, s, h);
      } else {
        var r :| Owns(m, r, h);
        assert r != s;
        assert Owns(w, r, h);
      }
    }
  }

  /** The slot's own heap block is overwritten. */
  lemma HeapReused(m: Mem, w: Mem, s: Slot, h: nat, text: seq<Byte>)
    requires HasSlot(m, s) && Inv(m) && PtrOf(m, s) == Heap(h) && w == m.(heap := m.heap[h := text]) && 0 !in text
    ensures Inv(w) && OthersRead(m, w, s) && Text(w, s) == text
  {
    assert SlotOk(m, s);
    forall r {:trigger SlotOk(w, r)} {:trigger ReadsSame(m, w, r)} | HasSlot(w, r) ensures SlotOk(w, r) && (r != s ==> ReadsSame(m, w, r)) {
      assert SlotOk(m, r);
      assert r != s ==> PairOk(m, r, s);
    }
    forall a, b {:trigger PairOk(w, a, b)} | HasSlot(w, a) && HasSlot(w, b) && a != b ensures PairOk(w, a, b) {
      assert PairOk(m, a, b);
    }
    forall k {:trigger k in w.heap} | k in w.heap ensures exists r :: Owns(w, r, k) {
      var r :| Owns(m, r, k);
      assert Owns(w, r, k);
    }
  }

  // Overwriting text in the buffer.

  /** b after text and its terminator have been written at o. */
  function Written(b: seq<Byte>, o: nat, text: seq<Byte>): seq<Byte>
    requires o + |text| < |b|
  {
    b[..o] + text + [0] + b[o + |text| + 1..]
  }

  lemma WrittenThere(b: seq<Byte>, o: nat, text: seq<Byte>)
    requires o + |text| < |b| && 0 !in text
    ensures StrLen(Written(b, o, text), o) == |text| && TextAt(Written(b, o, text), o) == text
  {
    var w := Written(b, o, text);
    forall k | o <= k < o + |text| ensures w[k] != 0 {
      assert w[k] == text[k - o] && text[k - o] in text;
    }
    StrLenIs(w, o, |text|);
    assert w[o..o + |text|] == text;
  }

  /** Text that does not overlap what was overwritten stays. */
  lemma WrittenElsewhere(b: seq<Byte>, o: nat, text: seq<Byte>, p: nat)
    requires o + |text| < |b| && p < |b| && p + StrLen(b, p) < |b|
    requires o + |text| < p || p + StrLen(b, p) < o
    ensures StrLen(Written(b, o, text), p) == StrLen(b, p) && TextAt(Written(b, o, text), p) == TextAt(b, p)
  {
    var w, n := Written(b, o, text), StrLen(b, p);
    StrLenBound(b, p);
    forall k | p <= k <= p + n ensures w[k] == b[k] {
    }
    StrLenIs(w, p, n);
    assert w[p..p + n] == b[p..p + n];
  }

  lemma BufferKept(m: Mem, w: Mem, s: Slot, o: nat, text: seq<Byte>, r: Slot)
    requires HasSlot(m, s) && HasSlot(m, r) && r != s && Inv(m) && PtrOf(m, s) == Buf(o) && !Shared(m, s)
    requires o + |text| < |m.buf| && |text| <= StrLen(m.buf, o) && w == m.(buf := Written(m.buf, o, text))
    ensures SlotOk(w, r) && ReadsSame(m, w, r)
    ensures PtrOf(m, r).Buf? ==> StrLen(w.buf, PtrOf(m, r).off) == StrLen(m.buf, PtrOf(m, r).off)
  {
    assert SlotOk(m, r);
    if PtrOf(m, r).Buf? {
      assert PairOk(m, r, s);
      WrittenElsewhere(m.buf, o, text, PtrOf(m, r).off);
    }
  }

  /** An unshared buffer string is overwritten by one that is no longer. */
  lemma BufferReused(m: Mem, w: Mem, s: Slot, o: nat, text: seq<Byte>)
    requires HasSlot(m, s) && Inv(m) && PtrOf(m, s) == Buf(o) && !Shared(m, s) && 0 !in text
    requires o + |text| < |m.buf| && |text| <= StrLen(m.buf, o) && w == m.(buf := Written(m.buf, o, text))
    ensures Inv(w) && OthersRead(m, w, s) && Text(w, s) == text
  {
    WrittenThere(m.buf, o, text);
    assert SlotOk(m, s);
    forall r {:trigger SlotOk(w, r)} {:trigger ReadsSame(m, w, r)} | HasSlot(w, r)
      ensures SlotOk(w, r) && (r != s ==> ReadsSame(m, w, r))
      ensures r != s && PtrOf(m, r).Buf? ==> StrLen(w.buf, PtrOf(m, r).off) == StrLen(m.buf, PtrOf(m, r).off)
    {
      if r != s {
        BufferKept(m, w, s, o, text, r);
      }
    }
    forall a, b {:trigger PairOk(w, a, b)} | HasSlot(w, a) && HasSlot(w, b) && a != b ensures PairOk(w, a, b) {
      assert PairOk(m, a, b) && SlotOk(w, a) && SlotOk(w, b);
    }
    forall k {:trigger k in w.heap} | k in w.heap ensures exists r :: Owns(w, r, k) {
      var r :| Owns(m, r, k);
      assert Owns(w, r, k);
    }
  }

  // Sharing.

  /** What copying to slot d from a slot of object id does to the headers: the source is marked at most, d gets a string of its own or a shared one. */
  ghost predicate Copied(o: map<Id, Obj>, w: map<Id, Obj>, d: Slot, id: Id)
    requires d.id in o && id in o
  {
    && w.Keys == o.Keys && w[id] in {o[id], o[id].(shared := true)}
    && (var p := if d.isName then w[d.id].name else w[d.id].value;
        w[d.id] == SetPtr(o[d.id], d.isName, p).(shared := w[d.id].shared) && (p.Buf? ==> w[d.id].shared))
    && (o[d.id].shared ==> w[d.id].shared)
    && forall x | x in o && x != d.id && x != id :: w[x] == o[x]
  }

  lemma SetCopied(m: Mem, w: map<Id, Obj>, d: Slot, id: Id)
    requires HasSlot(m, d) && id in m.obj && id != d.id && PtrOf(m, d) == Null && !OwnedBy(m, d)
    requires w == m.obj || exists p: Ptr :: !p.Buf? && w == WithPtr(m, d, p)
    ensures Copied(m.obj, w, d, id)
  {
  }

  /** The fresh slot d takes the buffer string of s; both headers are marked. */
  function ShareObj(m: Mem, d: Slot, s: Slot): map<Id, Obj>
    requires HasSlot(m, d) && HasSlot(m, s)
  {
    m.obj[d.id := SetPtr(m.obj[d.id], d.isName, PtrOf(m, s)).(shared := true)][s.id := m.obj[s.id].(shared := true)]
  }

  /** Where the string of a slot comes from after d has taken the string of s. */
  lemma ShareAt(m: Mem, w: Mem, d: Slot, s: Slot, r: Slot)
    requires HasSlot(m, d) && HasSlot(m, s) && d.id != s.id && w == m.(obj := ShareObj(m, d, s)) && HasSlot(m, r)
    ensures HasSlot(w, r) && PtrOf(w, r) == PtrOf(m, if r == d then s else r)
    ensures r != d ==> OwnedBy(w, r) == OwnedBy(m, r)
    ensures OwnedBy(w, d) == PtrOf(m, s).Heap?
    ensures Shared(m, r) || r.id == d.id || r.id == s.id ==> Shared(w, r)
  {
  }

  /** Slots a and b now hold what a1 and b1 held, with no fewer marks. */
  lemma PairFrom(m: Mem, w: Mem, a: Slot, b: Slot, a1: Slot, b1: Slot)
    requires HasSlot(m, a1) && HasSlot(m, b1) && HasSlot(w, a) && HasSlot(w, b) && w.buf == m.buf
    requires PtrOf(w, a) == PtrOf(m, a1) && PtrOf(w, b) == PtrOf(m, b1) && PairOk(m, a1, b1)
    requires (Shared(m, a1) ==> Shared(w, a)) && (Shared(m, b1) ==> Shared(w, b))
    ensures PairOk(w, a, b)
  {
  }

  lemma SharePair(m: Mem, w: Mem, d: Slot, s: Slot, a: Slot, b: Slot)
    requires Inv(m) && HasSlot(m, d) && HasSlot(m, s) && d.id != s.id && PtrOf(m, d) == Null && PtrOf(m, s).Buf?
    requires w == m.(obj := ShareObj(m, d, s)) && HasSlot(m, a) && HasSlot(m, b) && a != b
    ensures HasSlot(w, a) && HasSlot(w, b) && PairOk(w, a, b)
  {
    var a1, b1 := if a == d then s else a, if b == d then s else b;
    ShareAt(m, w, d, s, a);
    ShareAt(m, w, d, s, b);
    if a1 != b1 {
      assert PairOk(m, a1, b1);
      PairFrom(m, w, a, b, a1, b1);
    }
  }

  lemma ShareKeeps(m: Mem, w: Mem, d: Slot, s: Slot)
    requires Inv(m) && HasSlot(m, d) && HasSlot(m, s) && d.id != s.id && PtrOf(m, d) == Null && PtrOf(m, s).Buf?
    requires w == m.(obj := ShareObj(m, d, s))
    ensures Inv(w) && OthersRead(m, w, d) && Text(w, d) == Text(m, s)
  {
    ShareAt(m, w, d, s, d);
    assert SlotOk(m, s);
    forall r {:trigger SlotOk(w, r)} {:trigger ReadsSame(m, w, r)} | HasSlot(w, r) ensures SlotOk(w, r) && (r != d ==> ReadsSame(m, w, r)) {
      ShareAt(m, w, d, s, r);
      assert SlotOk(m, r);
    }
    forall a, b {:trigger PairOk(w, a, b)} | HasSlot(w, a) && HasSlot(w, b) && a != b ensures PairOk(w, a, b) {
      SharePair(m, w, d, s, a, b);
    }
    forall k {:trigger k in w.heap} | k in w.heap ensures exists r :: Owns(w, r, k) {
      var r :| Owns(m, r, k);
      ShareAt(m, w, d, s, r);
      assert Owns(w, r, k);
    }
  }

  // Objects come and go.

  lemma NewKeeps(m: Mem, w: Mem, id: Id)
    requires Inv(m) && id !in m.obj && w == m.(obj := m.obj[id := Obj(Null, false, Null, false, false)])
    ensures Inv(w) && forall r {:trigger ReadsSame(m, w, r)} | HasSlot(m, r) :: ReadsSame(m, w, r)
  {
    forall r {:trigger SlotOk(w, r)} | HasSlot(w, r) ensures SlotOk(w, r) {
      assert r.id != id ==> SlotOk(m, r);
    }
    forall a, b {:trigger PairOk(w, a, b)} | HasSlot(w, a) && HasSlot(w, b) && a != b ensures PairOk(w, a, b) {
      assert a.id != id && b.id != id ==> PairOk(m, a, b);
    }
    forall k {:trigger k in w.heap} | k in w.heap ensures exists r :: Owns(w, r, k) {
      var r :| Owns(m, r, k);
      assert Owns(w, r, k);
    }
  }

  /** The blocks of an object. */
  function BlocksOf(x: Obj): set<nat> {
    (if x.nameOwned && x.name.Heap? then {x.name.block} else {}) + (if x.valueOwned && x.value.Heap? then {x.value.block} else {})
  }

  lemma GoneKeeps(m: Mem, w: Mem, id: Id)
    requires Inv(m) && id in m.obj && w == Mem(m.buf, m.heap - BlocksOf(m.obj[id]), m.obj - {id})
    ensures Inv(w) && forall r {:trigger ReadsSame(m, w, r)} | HasSlot(w, r) :: ReadsSame(m, w, r)
  {
    var n, v := Slot(id, true), Slot(id, false);
    assert SlotOk(m, n) && SlotOk(m, v);
    forall r {:trigger SlotOk(w, r)} {:trigger ReadsSame(m, w, r)} | HasSlot(w, r) ensures SlotOk(w, r) && ReadsSame(m, w, r) {
      assert SlotOk(m, r) && PairOk(m, r, n) && PairOk(m, r, v);
    }
    forall a, b {:trigger PairOk(w, a, b)} | HasSlot(w, a) && HasSlot(w, b) && a != b ensures PairOk(w, a, b) {
      assert PairOk(m, a, b);
    }
    forall k {:trigger k in w.heap} | k in w.heap ensures exists r :: Owns(w, r, k) {
      var r :| Owns(m, r, k);
      assert r.id != id by {
        assert SlotOk(m, r);
        assert r == n || r == v || r.id != id;
      }
      assert Owns(w, r, k);
    }
  }

  // The operations.

  /** May the old memory take the new text? */
  predicate StrcpyAllow(length: nat, shared: bool, owned: bool, target: nat) {
    if shared then false
    else if !owned then target >= length
    else target >= length && (target < 32 || target - length < target / 2)
  }

  class Store {
    const buf: array<Byte>
    var heap: map<nat, seq<Byte>>
    var obj: map<Id, Obj>
    var unused: nat

    ghost function Memory(): (m: Mem)
      reads this, buf
    {
      Mem(buf[..], heap, obj)
    }

    ghost predicate Valid()
      reads this, buf
    {
      Inv(Memory()) && forall h | h in heap :: h < unused
    }

    /** A parsed buffer with its names and values, none shared or owned, no two overlapping. */
    constructor (b: array<Byte>, o: map<Id, Obj>)
      requires Inv(Mem(b[..], map[], o))
      ensures Valid() && buf == b && Memory() == Mem(b[..], map[], o)
    {
      buf := b;
      heap := map[];
      obj := o;
      unused := 0;
    }

    method Length(p: Ptr) returns (n: nat)
      requires p.Buf? && p.off + StrLen(buf[..], p.off) < buf.Length
      ensures n == StrLen(buf[..], p.off)
    {
      n := 0;
      StrLenBound(buf[..], p.off);
      while buf[p.off + n] != 0
        invariant n <= StrLen(buf[..], p.off)
        decreases StrLen(buf[..], p.off) - n
      {
        n := n + 1;
      }
    }

    /** A block is freed; it must be live. */
    method Deallocate(h: nat)
      requires h in heap
      modifies this`heap
      ensures heap == old(heap) - {h}
    {
      heap := heap - {h};
    }

    method WriteBuffer(o: nat, source: seq<Byte>)
      requires o + |source| < buf.Length
      modifies buf
      ensures buf[..] == Written(old(buf[..]), o, source)
    {
      ghost var b := buf[..];
      for i := 0 to |source|
        invariant forall k | 0 <= k < i :: buf[o + k] == source[k]
        invariant forall k | 0 <= k < o || o + i <= k < buf.Length :: buf[k] == b[k]
      {
        buf[o + i] := source[i];
      }
      buf[o + |source|] := 0;
    }

    /** Write to the place the slot has, if it has one that will do. */
    method Reuse(s: Slot, source: seq<Byte>, p: Ptr, shared: bool, owned: bool) returns (ok: bool)
      requires Valid() && HasSlot(Memory(), s) && 0 !in source && p == PtrOf(Memory(), s) && owned == OwnedBy(Memory(), s) && shared == Shared(Memory(), s)
      modifies this`heap, buf
      ensures ok ==> Valid() && OthersRead(old(Memory()), Memory(), s) && Text(Memory(), s) == source
      ensures !ok ==> heap == old(heap) && buf[..] == old(buf[..])
    {
      ghost var m := Memory();
      assert SlotOk(m, s);
      if p == Null {
        return false;
      }
      var target := 0;
      if p.Heap? {
        target := |heap[p.block]|;
      } else {
        target := Length(p);
      }
      ok := StrcpyAllow(|source|, shared, owned, target);
      if ok && p.Heap? {
        heap := heap[p.block := source];
        HeapReused(m, Memory(), s, p.block, source);
      } else if ok {
        WriteBuffer(p.off, source);
        BufferReused(m, Memory(), s, p.off, source);
      }
    }

    /** Set a name or value: it reads as the source afterwards, every other slot reads as before. */
    method SetString(s: Slot, source: seq<Byte>)
      requires Valid() && HasSlot(Memory(), s) && 0 !in source
      modifies this`heap, this`obj, this`unused, buf
      ensures Valid() && OthersRead(old(Memory()), Memory(), s) && Text(Memory(), s) == source
      ensures obj == old(obj) || (exists p: Ptr :: !p.Buf? && obj == WithPtr(old(Memory()), s, p))
    {
      ghost var m := Memory();
      assert SlotOk(m, s);
      var x := obj[s.id];
      var p, owned := if s.isName then x.name else x.value, if s.isName then x.nameOwned else x.valueOwned;
      if |source| == 0 {
        if owned {
          Deallocate(p.block);
        }
        obj := obj[s.id := SetPtr(x, s.isName, Null)];
        ReplacedKeeps(m, Memory(), s, Null, source);
        return;
      }
      var reused := Reuse(s, source, p, x.shared, owned);
      if reused {
        return;
      }
      var h := unused;
      unused := unused + 1;
      heap := heap[h := source];
      if owned {
        Deallocate(p.block);
      }
      obj := obj[s.id := SetPtr(x, s.isName, Heap(h))];
      ReplacedKeeps(m, Memory(), s, Heap(h), source);
    }

    /** The characters of a slot up to the terminator. */
    method Characters(s: Slot) returns (text: seq<Byte>)
      requires Valid() && HasSlot(Memory(), s)
      ensures text == Text(Memory(), s) && 0 !in text
    {
      ghost var m := Memory();
      assert SlotOk(m, s);
      var p := if s.isName then obj[s.id].name else obj[s.id].value;
      match p
      case Null =>
        text := [];
      case Heap(h) =>
        text := heap[h];
      case Buf(o) =>
        var n := Length(p);
        text := buf[o..o + n];
        StrLenBound(buf[..], o);
        assert text == buf[..][o..o + n];
    }

    /** Fill the null slot d of a new object from s: within a document buffer strings are shared, otherwise the text is copied. */
    method NodeCopyString(d: Slot, s: Slot, sameDocument: bool)
      requires Valid() && HasSlot(Memory(), d) && HasSlot(Memory(), s) && d.id != s.id && PtrOf(Memory(), d) == Null
      modifies this`heap, this`obj, this`unused, buf
      ensures Valid() && OthersRead(old(Memory()), Memory(), d) && Text(Memory(), d) == old(Text(Memory(), s))
      ensures PtrOf(Memory(), d).Buf? ==> Shared(Memory(), d) && Shared(Memory(), s) && PtrOf(Memory(), d) == old(PtrOf(Memory(), s))
      ensures Copied(old(obj), obj, d, s.id)
    {
      ghost var m := Memory();
      assert SlotOk(m, s) && SlotOk(m, d);
      var x := obj[s.id];
      var p, owned := if s.isName then x.name else x.value, if s.isName then x.nameOwned else x.valueOwned;
      if p == Null {
        return;
      }
      if sameDocument && !owned {
        obj := obj[d.id := SetPtr(obj[d.id], d.isName, p).(shared := true)];
        obj := obj[s.id := obj[s.id].(shared := true)];
        ShareKeeps(m, Memory(), d, s);
      } else {
        var text := Characters(s);
        SetString(d, text);
        SetCopied(m, obj, d, s.id);
      }
    }

    method NewObject(id: Id)
      requires Valid() && id !in obj
      modifies this`obj
      ensures Valid() && obj == old(obj)[id := Obj(Null, false, Null, false, false)]
      ensures forall r {:trigger ReadsSame(old(Memory()), Memory(), r)} | HasSlot(old(Memory()), r) :: ReadsSame(old(Memory()), Memory(), r)
    {
      ghost var m := Memory();
      obj := obj[id := Obj(Null, false, Null, false, false)];
      NewKeeps(m, Memory(), id);
    }

    /** Destroy a node or an attribute: its own blocks are freed, nobody else's. */
    method DestroyObject(id: Id)
      requires Valid() && id in obj
      modifies this`heap, this`obj
      ensures Valid() && obj == old(obj) - {id} && heap == old(heap) - BlocksOf(old(obj)[id])
      ensures forall r {:trigger ReadsSame(old(Memory()), Memory(), r)} | HasSlot(Memory(), r) :: ReadsSame(old(Memory()), Memory(), r)
    {
      ghost var m := Memory();
      var x := obj[id];
      assert SlotOk(m, Slot(id, true)) && SlotOk(m, Slot(id, false)) && PairOk(m, Slot(id, true), Slot(id, false));
      if x.nameOwned {
        Deallocate(x.name.block);
      }
      if x.valueOwned {
        Deallocate(x.value.block);
      }
      obj := obj - {id};
      GoneKeeps(m, Memory(), id);
    }
  }
}
