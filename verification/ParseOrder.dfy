/** The parser meets the strings of a document in document order. */
module ParseOrder {
  import opened Sequences
  import opened Utf
  import opened ParseMarks

  function SlotOffsets(ms: seq<Slot>): seq<nat> {
    if ms == [] then [] else [ms[0].name, ms[0].value] + SlotOffsets(ms[1..])
  }

  /** Where the strings of a node and of everything below it stand, in document order. */
  function Offsets(m: Mark): seq<nat>
    decreases m, 0
  {
    match m
    case Text(at) => [at]
    case Node(name, attrs, kids) => [name] + (SlotOffsets(attrs) + AllOffsets(kids))
  }

  function AllOffsets(ms: seq<Mark>): seq<nat>
    decreases ms, 1
  {
    if ms == [] then [] else Offsets(ms[0]) + AllOffsets(ms[1..])
  }

  function OpenOffsets(o: Open, root: bool): seq<nat> {
    (if root then [] else [o.name]) + (SlotOffsets(o.attrs) + AllOffsets(o.kids))
  }

  function Flat(os: seq<Open>): seq<nat> {
    if os == [] then [] else Flat(os[..|os| - 1]) + OpenOffsets(os[|os| - 1], |os| == 1)
  }

  /** Strings that stand in p one after another, each terminated before the next one begins. */
  predicate Spaced(p: seq<Byte>, s: seq<nat>)
    decreases |s|
  {
    s == [] || (var k := s[|s| - 1]; k < |p| && 0 in p[k..] && Spaced(p[..k], s[..|s| - 1]))
  }

  lemma {:induction false} SpacedMore(p: seq<Byte>, q: seq<Byte>, s: seq<nat>)
    requires p <= q && Spaced(p, s)
    ensures Spaced(q, s)
  {
    if s != [] {
      var k := s[|s| - 1];
      var i := IndexOf(p[k..], 0);
      assert q[k..][i] == p[k..][i] && q[..k] == p[..k];
    }
  }

  lemma {:induction false} SpacedNext(p: seq<Byte>, q: seq<Byte>, s: seq<nat>)
    requires p <= q && |p| < |q| && Spaced(p, s) && 0 in q[|p|..]
    ensures Spaced(q, s + [|p|])
  {
    assert (s + [|p|])[..|s|] == s && q[..|p|] == p;
  }

  lemma {:induction false} SpacedTail(p: seq<Byte>, a: seq<nat>, b: seq<nat>)
    requires Spaced(p, a + b)
    ensures Spaced(p, b)
    decreases |b|
  {
    if b != [] {
      var n := |b| - 1;
      assert (a + b)[..|a + b| - 1] == a + b[..n];
      SpacedTail(p[..b[n]], a, b[..n]);
    }
  }

  /** There is a terminator between p and q. */
  predicate Ended(b: seq<Byte>, p: nat, q: nat) {
    p < q <= |b| && 0 in b[p..q]
  }

  /** Every string is terminated. */
  lemma {:induction false} SpacedEnd(b: seq<Byte>, s: seq<nat>, i: nat)
    requires Spaced(b, s) && i < |s|
    ensures Ended(b, s[i], |b|)
    decreases |s|
  {
    var last := s[|s| - 1];
    assert b[last..|b|] == b[last..];
    if i < |s| - 1 {
      SpacedEnd(b[..last], s[..|s| - 1], i);
      EndedMore(b[..last], b, s[i], last, |b|);
    }
  }

  lemma EndedMore(a: seq<Byte>, b: seq<Byte>, p: nat, q: nat, r: nat)
    requires a <= b && Ended(a, p, q) && q <= r <= |b|
    ensures Ended(b, p, r)
  {
    var k := IndexOf(a[p..q], 0);
    assert b[p..r][k] == a[p..q][k];
  }

  /** And it is terminated before the next one. */
  lemma {:induction false} SpacedAt(b: seq<Byte>, s: seq<nat>, i: nat, j: nat)
    requires Spaced(b, s) && i < j < |s|
    ensures Ended(b, s[i], s[j])
    decreases |s|
  {
    var n := |s| - 1;
    var a := b[..s[n]];
    if j == n {
      SpacedEnd(a, s[..n], i);
      EndedMore(a, b, s[i], s[n], s[n]);
    } else {
      SpacedAt(a, s[..n], i, j);
      EndedMore(a, b, s[i], s[j], s[j]);
    }
  }

  lemma {:induction false} SpacedHead(p: seq<Byte>, a: seq<nat>, b: seq<nat>) returns (q: seq<Byte>)
    requires Spaced(p, a + b)
    ensures q <= p && Spaced(q, a)
    decreases |b|
  {
    if b == [] {
      assert a + b == a;
      q := p;
    } else {
      var n := |b| - 1;
      assert (a + b)[..|a + b| - 1] == a + b[..n];
      q := SpacedHead(p[..b[n]], a, b[..n]);
    }
  }

  lemma {:induction false} SlotsAppend(ms: seq<Slot>, s: Slot)
    ensures SlotOffsets(ms + [s]) == SlotOffsets(ms) + [s.name, s.value]
  {
    if ms == [] {
      assert [s][1..] == [];
    } else {
      assert (ms + [s])[1..] == ms[1..] + [s];
      SlotsAppend(ms[1..], s);
    }
  }

  lemma {:induction false} MarksAppend(ms: seq<Mark>, m: Mark)
    ensures AllOffsets(ms + [m]) == AllOffsets(ms) + Offsets(m)
    decreases |ms|
  {
    if ms == [] {
      assert [m][1..] == [];
      assert Offsets(m) + [] == Offsets(m) == [] + Offsets(m);
    } else {
      assert (ms + [m])[1..] == ms[1..] + [m];
      MarksAppend(ms[1..], m);
      AppendAssociative(Offsets(ms[0]), AllOffsets(ms[1..]), Offsets(m));
    }
  }

  lemma {:induction false} FlatLast(os: seq<Open>, o: Open)
    ensures Flat(os + [o]) == Flat(os) + OpenOffsets(o, os == [])
  {
    assert (os + [o])[..|os|] == os;
  }

  lemma {:induction false} PushedOffsets(os: seq<Open>, name: nat)
    requires os != []
    ensures Flat(Pushed(os, name)) == Flat(os) + [name]
  {
    FlatLast(os, Open(name, [], []));
  }

  lemma {:induction false} KidOffsets(os: seq<Open>, m: Mark)
    requires os != []
    ensures Flat(WithKid(os, m)) == Flat(os) + Offsets(m)
  {
    var n := |os| - 1;
    var o, root := os[n], n == 0;
    var head := if root then [] else [o.name];
    FlatLast(os[..n], o.(kids := o.kids + [m]));
    MarksAppend(o.kids, m);
    Regroup(Flat(os[..n]), head, SlotOffsets(o.attrs), AllOffsets(o.kids), Offsets(m));
  }

  lemma Regroup(a: seq<nat>, b: seq<nat>, c: seq<nat>, d: seq<nat>, e: seq<nat>)
    ensures a + (b + (c + (d + e))) == a + (b + (c + d)) + e
  {
  }

  lemma {:induction false} SlotOffsetsAdded(os: seq<Open>, s: Slot)
    requires os != [] && os[|os| - 1].kids == []
    ensures Flat(WithSlot(os, s)) == Flat(os) + [s.name] + [s.value]
  {
    var n := |os| - 1;
    var o, root := os[n], n == 0;
    var head := if root then [] else [o.name];
    FlatLast(os[..n], o.(attrs := o.attrs + [s]));
    SlotsAppend(o.attrs, s);
    assert Flat(WithSlot(os, s)) == Flat(os[..n]) + (head + (SlotOffsets(o.attrs) + [s.name, s.value] + []));
    assert Flat(os) == Flat(os[..n]) + (head + (SlotOffsets(o.attrs) + []));
    EndsWithBoth(Flat(os[..n]), head, SlotOffsets(o.attrs), s.name, s.value);
  }

  lemma EndsWithBoth<T>(a: seq<T>, b: seq<T>, c: seq<T>, x: T, y: T)
    ensures a + (b + (c + [x, y] + [])) == a + (b + (c + [])) + [x] + [y]
  {
  }

  /** Closing an element changes no order. */
  lemma {:induction false} PoppedOffsets(os: seq<Open>)
    requires |os| > 1
    ensures Flat(Popped(os)) == Flat(os)
  {
    var n := |os| - 1;
    KidOffsets(os[..n], Node(os[n].name, os[n].attrs, os[n].kids));
  }

  /** What is left when all elements are closed. */
  lemma {:induction false} ClosedOffsets(os: seq<Open>, p: seq<Byte>)
    requires |os| == 1 && Spaced(p, Flat(os))
    ensures Spaced(p, AllOffsets(os[0].kids))
  {
    assert os[..0] == [];
    assert Flat(os) == SlotOffsets(os[0].attrs) + AllOffsets(os[0].kids);
    SpacedTail(p, SlotOffsets(os[0].attrs), AllOffsets(os[0].kids));
  }
}
