/** The tree while it is being built: nodes that point at zero-terminated strings in the buffer. */
module ParseMarks {
  import opened Utf
  import opened XmlParse

  // What the parser builds: nodes that point at strings in the buffer.

  datatype Slot = Slot(name: nat, value: nat)

  datatype Mark = Node(name: nat, attrs: seq<Slot>, kids: seq<Mark>) | Text(at: nat)

  /** An open element; the outermost one is the document, which has no name. */
  datatype Open = Open(name: nat, attrs: seq<Slot>, kids: seq<Mark>)

  /** The zero-terminated string s stands in p. */
  predicate CString(p: seq<Byte>, at: nat, s: seq<Byte>) {
    at + |s| < |p| && p[at..at + |s|] == s && p[at + |s|] == 0
  }

  predicate SlotMarked(p: seq<Byte>, m: Slot, a: Attribute) {
    CString(p, m.name, a.name) && CString(p, m.value, a.value)
  }

  predicate SlotsMarked(p: seq<Byte>, ms: seq<Slot>, xs: seq<Attribute>) {
    |ms| == |xs| && forall k | 0 <= k < |ms| :: SlotMarked(p, ms[k], xs[k])
  }

  predicate Marked(p: seq<Byte>, m: Mark, x: Xml)
    decreases m, 0
  {
    match m
    case Text(at) => x.Chars? && CString(p, at, x.text)
    case Node(name, attrs, kids) => x.Elem? && CString(p, name, x.name) && SlotsMarked(p, attrs, x.attrs) && AllMarked(p, kids, x.kids)
  }

  predicate AllMarked(p: seq<Byte>, ms: seq<Mark>, xs: seq<Xml>)
    decreases ms, 1
  {
    |ms| == |xs| && forall k | 0 <= k < |ms| :: Marked(p, ms[k], xs[k])
  }

  predicate OpenMarked(p: seq<Byte>, o: Open, f: Frame, root: bool) {
    && (root || (CString(p, o.name, f.name) && 0 !in f.name))
    && SlotsMarked(p, o.attrs, f.attrs) && AllMarked(p, o.kids, f.kids)
  }

  predicate StackMarked(p: seq<Byte>, os: seq<Open>, fs: seq<Frame>) {
    |os| == |fs| && fs != [] && forall k {:trigger fs[k]} | 0 <= k < |fs| :: OpenMarked(p, os[k], fs[k], k == 0)
  }

  // A longer part of the buffer holds the same strings.

  lemma CStringMore(p: seq<Byte>, q: seq<Byte>, at: nat, s: seq<Byte>)
    requires p <= q && CString(p, at, s)
    ensures CString(q, at, s)
  {
    assert q[at..at + |s|] == p[at..at + |s|];
  }

  lemma SlotsMore(p: seq<Byte>, q: seq<Byte>, ms: seq<Slot>, xs: seq<Attribute>)
    requires p <= q && SlotsMarked(p, ms, xs)
    ensures SlotsMarked(q, ms, xs)
  {
    forall k | 0 <= k < |ms| ensures SlotMarked(q, ms[k], xs[k]) {
      assert SlotMarked(p, ms[k], xs[k]);
      CStringMore(p, q, ms[k].name, xs[k].name);
      CStringMore(p, q, ms[k].value, xs[k].value);
    }
  }

  lemma {:induction false} MarkedMore(p: seq<Byte>, q: seq<Byte>, m: Mark, x: Xml)
    requires p <= q && Marked(p, m, x)
    ensures Marked(q, m, x)
    decreases m, 0
  {
    match m
    case Text(at) =>
      CStringMore(p, q, at, x.text);
    case Node(name, attrs, kids) =>
      CStringMore(p, q, name, x.name);
      SlotsMore(p, q, attrs, x.attrs);
      AllMarkedMore(p, q, kids, x.kids);
  }

  lemma {:induction false} AllMarkedMore(p: seq<Byte>, q: seq<Byte>, ms: seq<Mark>, xs: seq<Xml>)
    requires p <= q && AllMarked(p, ms, xs)
    ensures AllMarked(q, ms, xs)
    decreases ms, 1
  {
    forall k | 0 <= k < |ms| ensures Marked(q, ms[k], xs[k]) {
      MarkedMore(p, q, ms[k], xs[k]);
    }
  }

  lemma OpenMore(p: seq<Byte>, q: seq<Byte>, o: Open, f: Frame, root: bool)
    requires p <= q && OpenMarked(p, o, f, root)
    ensures OpenMarked(q, o, f, root)
  {
    if !root {
      CStringMore(p, q, o.name, f.name);
    }
    SlotsMore(p, q, o.attrs, f.attrs);
    AllMarkedMore(p, q, o.kids, f.kids);
  }

  lemma StackMore(p: seq<Byte>, q: seq<Byte>, os: seq<Open>, fs: seq<Frame>)
    requires p <= q && StackMarked(p, os, fs)
    ensures StackMarked(q, os, fs)
  {
    forall k {:trigger fs[k]} | 0 <= k < |fs| ensures OpenMarked(q, os[k], fs[k], k == 0) {
      OpenMore(p, q, os[k], fs[k], k == 0);
    }
  }

  // The stack.

  function Pushed(os: seq<Open>, name: nat): seq<Open> {
    os + [Open(name, [], [])]
  }

  function WithKid(os: seq<Open>, m: Mark): seq<Open>
    requires os != []
  {
    var n := |os| - 1;
    os[..n] + [os[n].(kids := os[n].kids + [m])]
  }

  function WithSlot(os: seq<Open>, s: Slot): seq<Open>
    requires os != []
  {
    var n := |os| - 1;
    os[..n] + [os[n].(attrs := os[n].attrs + [s])]
  }

  function Popped(os: seq<Open>): seq<Open>
    requires |os| > 1
  {
    var n := |os| - 1;
    WithKid(os[..n], Node(os[n].name, os[n].attrs, os[n].kids))
  }

  lemma PushMarked(p: seq<Byte>, os: seq<Open>, fs: seq<Frame>, at: nat, name: seq<Byte>)
    requires StackMarked(p, os, fs) && CString(p, at, name) && 0 !in name
    ensures StackMarked(p, Pushed(os, at), fs + [Frame(name, [], [])])
  {
  }

  lemma KidMarked(p: seq<Byte>, os: seq<Open>, fs: seq<Frame>, m: Mark, x: Xml)
    requires StackMarked(p, os, fs) && Marked(p, m, x)
    ensures StackMarked(p, WithKid(os, m), AddKid(fs, x))
  {
    var n := |fs| - 1;
    assert OpenMarked(p, os[n], fs[n], n == 0);
    assert OpenMarked(p, os[n].(kids := os[n].kids + [m]), fs[n].(kids := fs[n].kids + [x]), n == 0);
    forall k {:trigger AddKid(fs, x)[k]} | 0 <= k < n ensures OpenMarked(p, WithKid(os, m)[k], AddKid(fs, x)[k], k == 0) {
      assert AddKid(fs, x)[k] == fs[k];
    }
  }

  lemma SlotAdded(p: seq<Byte>, os: seq<Open>, fs: seq<Frame>, s: Slot, a: Attribute)
    requires StackMarked(p, os, fs) && SlotMarked(p, s, a)
    ensures StackMarked(p, WithSlot(os, s), AddAttr(fs, a))
  {
    var n := |fs| - 1;
    assert OpenMarked(p, os[n], fs[n], n == 0);
    assert OpenMarked(p, os[n].(attrs := os[n].attrs + [s]), fs[n].(attrs := fs[n].attrs + [a]), n == 0);
    forall k {:trigger AddAttr(fs, a)[k]} | 0 <= k < n ensures OpenMarked(p, WithSlot(os, s)[k], AddAttr(fs, a)[k], k == 0) {
      assert AddAttr(fs, a)[k] == fs[k];
    }
  }

  lemma PopMarked(p: seq<Byte>, os: seq<Open>, fs: seq<Frame>)
    requires StackMarked(p, os, fs) && |fs| > 1
    ensures StackMarked(p, Popped(os), Pop(fs))
  {
    var n := |fs| - 1;
    assert OpenMarked(p, os[n], fs[n], n == 0);
    forall k {:trigger fs[..n][k]} | 0 <= k < n ensures OpenMarked(p, os[..n][k], fs[..n][k], k == 0) {
      assert fs[..n][k] == fs[k];
    }
    KidMarked(p, os[..n], fs[..n], Node(os[n].name, os[n].attrs, os[n].kids), Elem(fs[n].name, fs[n].attrs, fs[n].kids));
  }

  // Reading the tree.

  /** The string at a place, up to its terminator. */
  function ReadString(p: seq<Byte>, at: nat): seq<Byte>
    decreases |p| - at
  {
    if at >= |p| || p[at] == 0 then [] else [p[at]] + ReadString(p, at + 1)
  }

  function ReadSlots(p: seq<Byte>, ms: seq<Slot>): seq<Attribute> {
    if ms == [] then [] else [Attribute(ReadString(p, ms[0].name), ReadString(p, ms[0].value))] + ReadSlots(p, ms[1..])
  }

  function Read(p: seq<Byte>, m: Mark): Xml
    decreases m, 0
  {
    match m
    case Text(at) => Chars(ReadString(p, at))
    case Node(name, attrs, kids) => Elem(ReadString(p, name), ReadSlots(p, attrs), ReadAll(p, kids))
  }

  function ReadAll(p: seq<Byte>, ms: seq<Mark>): seq<Xml>
    decreases ms, 1
  {
    if ms == [] then [] else [Read(p, ms[0])] + ReadAll(p, ms[1..])
  }

  /** No string of the tree has a zero in it. */
  predicate Zeroless(x: Xml)
    decreases x, 0
  {
    match x
    case Chars(text) => 0 !in text
    case Elem(name, attrs, kids) =>
      0 !in name && (forall k | 0 <= k < |attrs| :: 0 !in attrs[k].name && 0 !in attrs[k].value) && AllZeroless(kids)
  }

  predicate AllZeroless(xs: seq<Xml>)
    decreases xs, 1
  {
    forall k | 0 <= k < |xs| :: Zeroless(xs[k])
  }

  lemma {:induction false} StringRead(p: seq<Byte>, at: nat, s: seq<Byte>)
    requires CString(p, at, s) && 0 !in s
    ensures ReadString(p, at) == s
    decreases |s|
  {
    if s != [] {
      assert p[at] == p[at..at + |s|][0];
      assert p[at + 1..at + |s|] == p[at..at + |s|][1..] == s[1..];
      StringRead(p, at + 1, s[1..]);
    }
  }

  lemma {:induction false} SlotsRead(p: seq<Byte>, ms: seq<Slot>, xs: seq<Attribute>)
    requires SlotsMarked(p, ms, xs) && forall k | 0 <= k < |xs| :: 0 !in xs[k].name && 0 !in xs[k].value
    ensures ReadSlots(p, ms) == xs
    decreases |ms|
  {
    if ms != [] {
      assert SlotMarked(p, ms[0], xs[0]);
      StringRead(p, ms[0].name, xs[0].name);
      StringRead(p, ms[0].value, xs[0].value);
      assert SlotsMarked(p, ms[1..], xs[1..]);
      SlotsRead(p, ms[1..], xs[1..]);
    }
  }

  /** What is marked is what can be read. */
  lemma {:induction false} MarkedRead(p: seq<Byte>, m: Mark, x: Xml)
    requires Marked(p, m, x) && Zeroless(x)
    ensures Read(p, m) == x
    decreases m, 0
  {
    match m
    case Text(at) => StringRead(p, at, x.text);
    case Node(name, attrs, kids) =>
      StringRead(p, name, x.name);
      SlotsRead(p, attrs, x.attrs);
      AllMarkedRead(p, kids, x.kids);
  }

  lemma {:induction false} AllMarkedRead(p: seq<Byte>, ms: seq<Mark>, xs: seq<Xml>)
    requires AllMarked(p, ms, xs) && AllZeroless(xs)
    ensures ReadAll(p, ms) == xs
    decreases ms, 1
  {
    if ms != [] {
      MarkedRead(p, ms[0], xs[0]);
      assert AllMarked(p, ms[1..], xs[1..]) by {
        assert forall k | 0 <= k < |ms[1..]| :: ms[1..][k] == ms[k + 1] && xs[1..][k] == xs[k + 1];
      }
      AllMarkedRead(p, ms[1..], xs[1..]);
    }
  }

  lemma {:induction false} ReadStringZeroless(p: seq<Byte>, at: nat)
    ensures 0 !in ReadString(p, at)
    decreases |p| - at
  {
    if at < |p| && p[at] != 0 {
      ReadStringZeroless(p, at + 1);
    }
  }

  lemma {:induction false} ReadSlotsZeroless(p: seq<Byte>, ms: seq<Slot>)
    ensures forall k | 0 <= k < |ReadSlots(p, ms)| :: 0 !in ReadSlots(p, ms)[k].name && 0 !in ReadSlots(p, ms)[k].value
    decreases |ms|
  {
    if ms != [] {
      ReadStringZeroless(p, ms[0].name);
      ReadStringZeroless(p, ms[0].value);
      ReadSlotsZeroless(p, ms[1..]);
    }
  }

  lemma {:induction false} ReadZeroless(p: seq<Byte>, m: Mark)
    ensures Zeroless(Read(p, m))
    decreases m, 0
  {
    match m
    case Text(at) => ReadStringZeroless(p, at);
    case Node(name, attrs, kids) =>
      ReadStringZeroless(p, name);
      ReadSlotsZeroless(p, attrs);
      ReadAllZeroless(p, kids);
  }

  lemma {:induction false} ReadAllZeroless(p: seq<Byte>, ms: seq<Mark>)
    ensures AllZeroless(ReadAll(p, ms))
    decreases ms, 1
  {
    if ms != [] {
      ReadZeroless(p, ms[0]);
      ReadAllZeroless(p, ms[1..]);
    }
  }

  /** What can be read is what was parsed exactly if no string has a zero in it; a reference to character zero puts one there. */
  lemma ReadExact(p: seq<Byte>, ms: seq<Mark>, xs: seq<Xml>)
    requires AllMarked(p, ms, xs)
    ensures ReadAll(p, ms) == xs <==> AllZeroless(xs)
  {
    ReadAllZeroless(p, ms);
    if AllZeroless(xs) {
      AllMarkedRead(p, ms, xs);
    }
  }
}
