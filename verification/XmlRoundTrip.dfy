/** Parsing what was printed in raw format gives the tree back. */
module XmlRoundTrip {
  import opened Sequences
  import opened Utf
  import opened TextSpec
  import opened XmlText
  import opened XmlParse

  // Printing.

  function PrintAttr(a: Attribute): seq<Byte> {
    [SPACE] + (a.name + ([EQ, QUOT] + (Escaped(a.value, true) + [QUOT])))
  }

  function PrintAttrs(s: seq<Attribute>): seq<Byte> {
    if s == [] then [] else PrintAttr(s[0]) + PrintAttrs(s[1..])
  }

  function PrintAll(xs: seq<Xml>): seq<Byte>
    decreases xs, 0
  {
    if xs == [] then [] else Print(xs[0]) + PrintAll(xs[1..])
  }

  /** What follows the attributes. */
  function PrintBody(name: seq<Byte>, kids: seq<Xml>): seq<Byte>
    decreases kids, 1
  {
    if kids == [] then [SPACE, SLASH, GT] else [GT] + (PrintAll(kids) + ([LT, SLASH] + (name + [GT])))
  }

  function Print(x: Xml): seq<Byte>
    decreases x, 2
  {
    match x
    case Chars(text) => Escaped(text, false)
    case Elem(name, attrs, kids) => [LT] + (name + (PrintAttrs(attrs) + PrintBody(name, kids)))
  }

  // Which trees can be printed: proper names, no zeros, no empty or adjacent text.

  predicate NameOk(s: seq<Byte>) {
    s != [] && IsStart(s[0]) && forall i | 0 <= i < |s| :: IsSymbol(s[i])
  }

  predicate AttrOk(a: Attribute) {
    NameOk(a.name) && 0 !in a.value
  }

  predicate XmlOk(x: Xml)
    decreases x, 0
  {
    match x
    case Chars(text) => text != [] && 0 !in text
    case Elem(name, attrs, kids) => NameOk(name) && (forall i | 0 <= i < |attrs| :: AttrOk(attrs[i])) && AllOk(kids)
  }

  predicate AllOk(xs: seq<Xml>)
    decreases xs, 1
  {
    xs != [] ==> XmlOk(xs[0]) && AllOk(xs[1..]) && (xs[0].Chars? && |xs| > 1 ==> !xs[1].Chars?)
  }

  // Scanning.

  lemma {:induction false} SymbolsRun(b: seq<Byte>, i: nat, s: seq<Byte>)
    requires StandsAt(b, i, s) && (forall k | 0 <= k < |s| :: IsSymbol(s[k])) && !IsSymbol(At(b, i + |s|))
    ensures SymbolRun(b, i) == |s|
    decreases |s|
  {
    if s != [] {
      StandsSplit(b, i, [s[0]], s[1..]);
      assert s == [s[0]] + s[1..];
      StandsChar(b, i, [s[0]], 0);
      SymbolsRun(b, i + 1, s[1..]);
    }
  }

  /** A name that stands at i and ends there. */
  lemma NameStands(b: seq<Byte>, i: nat, s: seq<Byte>)
    requires StandsAt(b, i, s) && NameOk(s) && !IsSymbol(At(b, i + |s|))
    ensures SymbolRun(b, i) == |s| && b[i..i + |s|] == s && IsStart(At(b, i)) && At(b, i) != 0 && !IsSpace(At(b, i))
  {
    SymbolsRun(b, i, s);
    StandsChar(b, i, s, 0);
    forall k | 0 <= k < |s| ensures b[i..i + |s|][k] == s[k] {
      StandsChar(b, i, s, k);
    }
  }

  /** The first character of what stands at i. */
  lemma Stands1(b: seq<Byte>, i: nat, c: Byte, r: seq<Byte>)
    requires StandsAt(b, i, [c] + r)
    ensures At(b, i) == c && StandsAt(b, i + 1, r)
  {
    StandsSplit(b, i, [c], r);
    StandsChar(b, i, [c], 0);
  }

  lemma Stands2(b: seq<Byte>, i: nat, c: Byte, d: Byte, r: seq<Byte>)
    requires StandsAt(b, i, [c, d] + r)
    ensures At(b, i) == c && At(b, i + 1) == d && StandsAt(b, i + 2, r)
  {
    StandsSplit(b, i, [c, d], r);
    StandsChar(b, i, [c, d], 0);
    StandsChar(b, i, [c, d], 1);
  }

  // Attributes.

  lemma AddAttrTop(base: seq<Frame>, f: Frame, a: Attribute)
    ensures AddAttr(base + [f], a) == base + [f.(attrs := f.attrs + [a])]
  {
    assert (base + [f])[..|base|] == base;
  }

  lemma AddKidTop(base: seq<Frame>, f: Frame, x: Xml)
    ensures AddKid(base + [f], x) == base + [f.(kids := f.kids + [x])]
  {
    assert (base + [f])[..|base|] == base;
  }

  /** One attribute is one step. */
  lemma AttrBack(b: seq<Byte>, i: nat, a: Attribute, base: seq<Frame>, f: Frame, fragment: bool)
    requires AttrOk(a) && StandsAt(b, i, PrintAttr(a)) && !IsStart(At(b, i + |PrintAttr(a)|))
    ensures Step(b, Attrs(i, base + [f]), fragment) == Attrs(i + |PrintAttr(a)|, base + [f.(attrs := f.attrs + [a])])
  {
    var e, j := AttrReads(b, i, a);
    ValueBack(b, e + 2, a.value, true);
    AttrStep(b, i, e, j, a, base, f, fragment);
  }

  /** Where the name of an attribute ends, and its value. */
  lemma AttrReads(b: seq<Byte>, i: nat, a: Attribute) returns (e: nat, j: nat)
    requires AttrOk(a) && StandsAt(b, i, PrintAttr(a))
    ensures At(b, i) == SPACE && IsStart(At(b, i + 1)) && !IsSpace(At(b, i + 1))
    ensures i + 1 + SymbolRun(b, i + 1) == e && e <= |b| && b[i + 1..e] == a.name
    ensures At(b, e) == EQ && At(b, e + 1) == QUOT && e + 2 <= |b| && j + 1 == i + |PrintAttr(a)|
    ensures StandsAt(b, e + 2, Escaped(a.value, true)) && j == e + 2 + |Escaped(a.value, true)| && At(b, j) == QUOT
  {
    e := i + 1 + |a.name|;
    j := e + 2 + |Escaped(a.value, true)|;
    AttrLength(a);
    AttrStands(b, i, a);
  }

  /** Names a position; what is read there is only looked at where such a name is given. */
  predicate Here(k: nat) {
    true
  }

  /** From i on v is read, up to the delimiter, which is at j. */
  ghost predicate ReadsAs(b: seq<Byte>, i: nat, attr: bool, v: seq<Byte>, j: nat) {
    i <= |b| && forall k {:trigger Here(k)} | Here(k) && k == i :: Convert(b, k, Plainly, StopFor(attr)) == v && StopAt(b, k, StopFor(attr)) == j
  }

  lemma ValueBack(b: seq<Byte>, i: nat, v: seq<Byte>, attr: bool)
    requires 0 !in v && StandsAt(b, i, Escaped(v, attr)) && At(b, i + |Escaped(v, attr)|) in {0, if attr then QUOT else LT}
    ensures ReadsAs(b, i, attr, v, i + |Escaped(v, attr)|)
  {
    EscapeBack(b, i, v, attr);
  }

  lemma AttrLength(a: Attribute)
    ensures |PrintAttr(a)| == 4 + |a.name| + |Escaped(a.value, true)|
  {
  }

  lemma OneSpace(b: seq<Byte>, i: nat)
    requires At(b, i) == SPACE && !IsSpace(At(b, i + 1))
    ensures SkipSpace(b, i) == i + 1
  {
    assert SkipSpace(b, i + 1) == i + 1;
  }

  /** The parts of an attribute as it stands in the text. */
  lemma AttrStands(b: seq<Byte>, i: nat, a: Attribute)
    requires AttrOk(a) && StandsAt(b, i, PrintAttr(a))
    ensures var e := i + 1 + |a.name|;
      && At(b, i) == SPACE && SymbolRun(b, i + 1) == |a.name| && e <= |b| && b[i + 1..e] == a.name && IsStart(At(b, i + 1)) && !IsSpace(At(b, i + 1))
      && At(b, e) == EQ && At(b, e + 1) == QUOT && StandsAt(b, e + 2, Escaped(a.value, true)) && At(b, e + 2 + |Escaped(a.value, true)|) == QUOT
  {
    AttrParts(b, i, a.name, Escaped(a.value, true));
    NameStands(b, i + 1, a.name);
  }

  lemma AttrParts(b: seq<Byte>, i: nat, name: seq<Byte>, v: seq<Byte>)
    requires StandsAt(b, i, [SPACE] + (name + ([EQ, QUOT] + (v + [QUOT]))))
    ensures var e := i + 1 + |name|;
      && At(b, i) == SPACE && StandsAt(b, i + 1, name) && At(b, e) == EQ && At(b, e + 1) == QUOT && e + 2 <= |b|
      && StandsAt(b, e + 2, v) && At(b, e + 2 + |v|) == QUOT
  {
    Stands1(b, i, SPACE, name + ([EQ, QUOT] + (v + [QUOT])));
    StandsSplit(b, i + 1, name, [EQ, QUOT] + (v + [QUOT]));
    var e := i + 1 + |name|;
    Stands2(b, e, EQ, QUOT, v + [QUOT]);
    StandsSplit(b, e + 2, v, [QUOT]);
    StandsChar(b, e + 2 + |v|, [QUOT], 0);
  }

  lemma AttrStep(b: seq<Byte>, i: nat, e: nat, j: nat, a: Attribute, base: seq<Frame>, f: Frame, fragment: bool)
    requires At(b, i) == SPACE && IsStart(At(b, i + 1)) && !IsSpace(At(b, i + 1))
    requires i + 1 + SymbolRun(b, i + 1) == e && e <= |b| && b[i + 1..e] == a.name
    requires At(b, e) == EQ && At(b, e + 1) == QUOT
    requires ReadsAs(b, e + 2, true, a.value, j) && At(b, j) == QUOT && !IsStart(At(b, j + 1))
    ensures Step(b, Attrs(i, base + [f]), fragment) == Attrs(j + 1, base + [f.(attrs := f.attrs + [a])])
  {
    OneSpace(b, i);
    AddAttrTop(base, f, a);
    ValueStep(b, i + 1, e, j, a, base + [f]);
  }

  lemma ValueStep(b: seq<Byte>, s: nat, e: nat, j: nat, a: Attribute, stack: seq<Frame>)
    requires stack != [] && s + SymbolRun(b, s) == e && e <= |b| && b[s..e] == a.name
    requires At(b, e) == EQ && At(b, e + 1) == QUOT
    requires ReadsAs(b, e + 2, true, a.value, j) && At(b, j) == QUOT && !IsStart(At(b, j + 1))
    ensures StepAttr(b, s, stack) == Attrs(j + 1, AddAttr(stack, a))
  {
    assert Here(e + 2);
    assert SkipSpace(b, e) == e && SkipSpace(b, e + 1) == e + 1;
  }

  lemma AttrsHead(s: seq<Attribute>)
    ensures s != [] ==> PrintAttrs(s) != [] && PrintAttrs(s)[0] == SPACE
    ensures s == [] ==> PrintAttrs(s) == []
  {
  }

  lemma AttrsStart(b: seq<Byte>, i: nat, s: seq<Attribute>)
    requires StandsAt(b, i, PrintAttrs(s))
    ensures s != [] ==> At(b, i) == SPACE
  {
    AttrsHead(s);
    if s != [] {
      StandsChar(b, i, PrintAttrs(s), 0);
    }
  }

  // Many steps. The proofs only use what any relation that follows the machine has.

  /** Names three states; the facts about a relation are only looked at where such a name is given. */
  predicate Hop(x: State, y: State, z: State) {
    true
  }

  ghost predicate Follows(R: (State, State) -> bool, b: seq<Byte>, fragment: bool) {
    && (forall st {:trigger Hop(st, st, st)} | Hop(st, st, st) :: R(st, st) && (Sane(st) && Live(st) ==> R(st, Step(b, st, fragment))))
    && (forall x, y, z {:trigger Hop(x, y, z)} | Hop(x, y, z) && R(x, y) && R(y, z) :: R(x, z))
    && (forall x, y, z {:trigger Hop(x, y, z)} | Hop(x, y, z) && OneSpaceOn(b, x, y) && R(x, z) && x != z :: R(y, z))
  }

  /** Inside a tag, y is one space further on than x. */
  predicate OneSpaceOn(b: seq<Byte>, x: State, y: State)
  {
    x.Attrs? && x.stack != [] && At(b, x.i) == SPACE && y == Attrs(x.i + 1, x.stack)
  }

  lemma LeadsNowhere(R: (State, State) -> bool, b: seq<Byte>, st: State, fragment: bool)
    requires Follows(R, b, fragment)
    ensures R(st, st)
  {
    assert Hop(st, st, st);
  }

  lemma LeadsOne(R: (State, State) -> bool, b: seq<Byte>, st: State, fragment: bool)
    requires Follows(R, b, fragment) && Sane(st) && Live(st)
    ensures R(st, Step(b, st, fragment))
  {
    assert Hop(st, st, st);
  }

  lemma LeadsOn(R: (State, State) -> bool, b: seq<Byte>, x: State, y: State, z: State, fragment: bool)
    requires Follows(R, b, fragment) && R(x, y) && R(y, z)
    ensures R(x, z)
  {
    assert Hop(x, y, z);
  }

  lemma SpaceLead(R: (State, State) -> bool, b: seq<Byte>, i: nat, stack: seq<Frame>, next: State, fragment: bool)
    requires Follows(R, b, fragment) && stack != [] && At(b, i) == SPACE && R(Attrs(i, stack), next) && next != Attrs(i, stack)
    ensures R(Attrs(i + 1, stack), next)
  {
    var x, y := Attrs(i, stack), Attrs(i + 1, stack);
    assert OneSpaceOn(b, x, y) && Hop(x, y, next);
  }

  lemma {:induction false} AttrsBack(R: (State, State) -> bool, b: seq<Byte>, i: nat, s: seq<Attribute>, base: seq<Frame>, f: Frame, fragment: bool)
    requires Follows(R, b, fragment)
    requires (forall k | 0 <= k < |s| :: AttrOk(s[k])) && StandsAt(b, i, PrintAttrs(s)) && !IsStart(At(b, i + |PrintAttrs(s)|))
    ensures R(Attrs(i, base + [f]), Attrs(i + |PrintAttrs(s)|, base + [f.(attrs := f.attrs + s)]))
    decreases |s|
  {
    if s == [] {
      assert f.attrs + [] == f.attrs;
      LeadsNowhere(R, b, Attrs(i, base + [f]), fragment);
    } else {
      var j, g := i + |PrintAttr(s[0])|, f.(attrs := f.attrs + [s[0]]);
      assert PrintAttrs(s) == PrintAttr(s[0]) + PrintAttrs(s[1..]) && g.attrs + s[1..] == f.attrs + s;
      var next, last := Attrs(j, base + [g]), Attrs(i + |PrintAttrs(s)|, base + [f.(attrs := f.attrs + s)]);
      AttrFirst(R, b, i, s[0], s[1..], base, f, fragment);
      assert R(next, last) by {
        AttrsBack(R, b, j, s[1..], base, g, fragment);
      }
      LeadsOn(R, b, Attrs(i, base + [f]), next, last, fragment);
    }
  }

  lemma AttrFirst(R: (State, State) -> bool, b: seq<Byte>, i: nat, a: Attribute, rest: seq<Attribute>, base: seq<Frame>, f: Frame, fragment: bool)
    requires Follows(R, b, fragment)
    requires AttrOk(a) && StandsAt(b, i, PrintAttr(a) + PrintAttrs(rest)) && !IsStart(At(b, i + |PrintAttr(a) + PrintAttrs(rest)|))
    ensures StandsAt(b, i + |PrintAttr(a)|, PrintAttrs(rest))
    ensures R(Attrs(i, base + [f]), Attrs(i + |PrintAttr(a)|, base + [f.(attrs := f.attrs + [a])]))
  {
    AttrsHead(rest);
    AttrsEnd(b, i, PrintAttr(a), PrintAttrs(rest));
    AttrBack(b, i, a, base, f, fragment);
    LeadsOne(R, b, Attrs(i, base + [f]), fragment);
  }

  lemma AttrsEnd(b: seq<Byte>, i: nat, p: seq<Byte>, q: seq<Byte>)
    requires StandsAt(b, i, p + q) && !IsStart(At(b, i + |p + q|)) && (q != [] ==> q[0] == SPACE)
    ensures StandsAt(b, i, p) && StandsAt(b, i + |p|, q) && !IsStart(At(b, i + |p|))
  {
    StandsSplit(b, i, p, q);
    if q != [] {
      StandsChar(b, i + |p|, q, 0);
    }
  }

  // Elements.

  lemma PopTop(base: seq<Frame>, f: Frame, g: Frame)
    ensures |base + [f] + [g]| > 1 && Pop(base + [f] + [g]) == base + [f.(kids := f.kids + [Elem(g.name, g.attrs, g.kids)])]
  {
    assert (base + [f] + [g])[..|base| + 1] == base + [f];
    AddKidTop(base, f, Elem(g.name, g.attrs, g.kids));
  }

  /** The end of a start tag. */
  lemma TagEnds(b: seq<Byte>, k: nat, base: seq<Frame>, f: Frame, g: Frame, fragment: bool)
    requires g.kids == []
    requires At(b, k) == GT || (At(b, k) == SPACE && At(b, k + 1) == SLASH && At(b, k + 2) == GT)
    ensures At(b, k) == GT ==> Step(b, Attrs(k, base + [f] + [g]), fragment) == Main(k + 1, base + [f] + [g])
    ensures At(b, k) != GT ==>
      Step(b, Attrs(k, base + [f] + [g]), fragment) == Main(k + 3, base + [f.(kids := f.kids + [Elem(g.name, g.attrs, [])])])
  {
    PopTop(base, f, g);
    assert SkipSpace(b, k + 1) == k + 1 || At(b, k) == GT;
  }

  /** The name of a start tag. */
  lemma TagName(b: seq<Byte>, i: nat, name: seq<Byte>, stack: seq<Frame>, fragment: bool)
    requires stack != [] && NameOk(name) && StandsAt(b, i, name) && (At(b, i + |name|) == SPACE || At(b, i + |name|) == GT)
    ensures var m := i + |name|;
      Step(b, Tag(i, stack), fragment) ==
        if At(b, m) == GT then Main(m + 1, stack + [Frame(name, [], [])]) else Attrs(m + 1, stack + [Frame(name, [], [])])
  {
    NameStands(b, i, name);
  }

  lemma NameLeads(R: (State, State) -> bool, b: seq<Byte>, i: nat, name: seq<Byte>, stack: seq<Frame>, fragment: bool)
    requires Follows(R, b, fragment) && stack != [] && NameOk(name) && StandsAt(b, i, name) && (At(b, i + |name|) == SPACE || At(b, i + |name|) == GT)
    ensures var m := i + |name|;
      R(Tag(i, stack), if At(b, m) == GT then Main(m + 1, stack + [Frame(name, [], [])]) else Attrs(m + 1, stack + [Frame(name, [], [])]))
  {
    TagName(b, i, name, stack, fragment);
    LeadsOne(R, b, Tag(i, stack), fragment);
  }

  lemma EndLeads(R: (State, State) -> bool, b: seq<Byte>, k: nat, base: seq<Frame>, f: Frame, g: Frame, fragment: bool)
    requires Follows(R, b, fragment) && g.kids == []
    requires At(b, k) == GT || (At(b, k) == SPACE && At(b, k + 1) == SLASH && At(b, k + 2) == GT)
    ensures At(b, k) == GT ==> R(Attrs(k, base + [f] + [g]), Main(k + 1, base + [f] + [g]))
    ensures At(b, k) != GT ==> R(Attrs(k, base + [f] + [g]), Main(k + 3, base + [f.(kids := f.kids + [Elem(g.name, g.attrs, [])])]))
  {
    TagEnds(b, k, base, f, g, fragment);
    LeadsOne(R, b, Attrs(k, base + [f] + [g]), fragment);
  }

  /** An end tag closes the innermost element. */
  lemma TagCloses(b: seq<Byte>, i: nat, base: seq<Frame>, f: Frame, g: Frame, fragment: bool)
    requires NameOk(g.name) && StandsAt(b, i, [SLASH] + (g.name + [GT]))
    ensures Step(b, Tag(i, base + [f] + [g]), fragment)
         == Main(i + 2 + |g.name|, base + [f.(kids := f.kids + [Elem(g.name, g.attrs, g.kids)])])
  {
    Stands1(b, i, SLASH, g.name + [GT]);
    StandsSplit(b, i + 1, g.name, [GT]);
    StandsChar(b, i + 1 + |g.name|, [GT], 0);
    NameStands(b, i + 1, g.name);
    PopTop(base, f, g);
    assert SkipSpace(b, i + 1 + |g.name|) == i + 1 + |g.name|;
  }

  /** Where the parts of an element stand: name, attributes, body. */
  lemma ElemStands(b: seq<Byte>, i: nat, x: Xml) returns (m: nat, k: nat)
    requires x.Elem? && XmlOk(x) && StandsAt(b, i, Print(x))
    ensures At(b, i) == LT && StandsAt(b, i + 1, x.name) && m == i + 1 + |x.name| && StandsAt(b, m, PrintAttrs(x.attrs))
    ensures k == m + |PrintAttrs(x.attrs)| && StandsAt(b, k, PrintBody(x.name, x.kids)) && i + |Print(x)| == k + |PrintBody(x.name, x.kids)|
    ensures At(b, k) == if x.kids == [] then SPACE else GT
    ensures At(b, m) == if x.attrs == [] then At(b, k) else SPACE
    ensures At(b, i + 1) != 0
  {
    m, k := ElemParts(b, i, x);
    assert At(b, m) == if x.attrs == [] then At(b, k) else SPACE by {
      AttrsStart(b, m, x.attrs);
    }
    assert At(b, i + 1) != 0 by {
      StandsChar(b, i + 1, x.name, 0);
    }
    BodyStands(b, k, x.name, x.kids);
  }

  lemma ElemParts(b: seq<Byte>, i: nat, x: Xml) returns (m: nat, k: nat)
    requires x.Elem? && StandsAt(b, i, Print(x))
    ensures At(b, i) == LT && StandsAt(b, i + 1, x.name) && m == i + 1 + |x.name| && StandsAt(b, m, PrintAttrs(x.attrs))
    ensures k == m + |PrintAttrs(x.attrs)| && StandsAt(b, k, PrintBody(x.name, x.kids)) && i + |Print(x)| == k + |PrintBody(x.name, x.kids)|
  {
    var body := PrintBody(x.name, x.kids);
    Stands1(b, i, LT, x.name + (PrintAttrs(x.attrs) + body));
    StandsSplit(b, i + 1, x.name, PrintAttrs(x.attrs) + body);
    m := i + 1 + |x.name|;
    StandsSplit(b, m, PrintAttrs(x.attrs), body);
    k := m + |PrintAttrs(x.attrs)|;
  }

  /** Where the parts of the body stand: children and end tag. */
  lemma BodyStands(b: seq<Byte>, k: nat, name: seq<Byte>, kids: seq<Xml>)
    requires StandsAt(b, k, PrintBody(name, kids))
    ensures kids == [] ==> At(b, k) == SPACE && At(b, k + 1) == SLASH && At(b, k + 2) == GT && |PrintBody(name, kids)| == 3
    ensures kids != [] ==>
      var j := k + 1 + |PrintAll(kids)|;
      At(b, k) == GT && StandsAt(b, k + 1, PrintAll(kids)) && At(b, j) == LT && At(b, j + 1) == SLASH
      && StandsAt(b, j + 1, [SLASH] + (name + [GT])) && k + |PrintBody(name, kids)| == j + 3 + |name|
  {
    if kids == [] {
      StandsChar(b, k, [SPACE, SLASH, GT], 0);
      StandsChar(b, k, [SPACE, SLASH, GT], 1);
      StandsChar(b, k, [SPACE, SLASH, GT], 2);
    } else {
      BodyParts(b, k, PrintAll(kids), name);
    }
  }

  lemma BodyParts(b: seq<Byte>, k: nat, inner: seq<Byte>, name: seq<Byte>)
    requires StandsAt(b, k, [GT] + (inner + ([LT, SLASH] + (name + [GT]))))
    ensures var j := k + 1 + |inner|;
      At(b, k) == GT && StandsAt(b, k + 1, inner) && At(b, j) == LT && At(b, j + 1) == SLASH && StandsAt(b, j + 1, [SLASH] + (name + [GT]))
  {
    var tail := [LT, SLASH] + (name + [GT]);
    Stands1(b, k, GT, inner + tail);
    StandsSplit(b, k + 1, inner, tail);
    var j := k + 1 + |inner|;
    assert tail == [LT] + ([SLASH] + (name + [GT]));
    Stands1(b, j, LT, [SLASH] + (name + [GT]));
    Stands1(b, j + 1, SLASH, name + [GT]);
  }

  /** Start tag with its attributes. */
  lemma TagOpens(R: (State, State) -> bool, b: seq<Byte>, i: nat, x: Xml, m: nat, k: nat, base: seq<Frame>, f: Frame, fragment: bool)
    requires Follows(R, b, fragment)
    requires x.Elem? && XmlOk(x) && StandsAt(b, i + 1, x.name) && m == i + 1 + |x.name| && StandsAt(b, m, PrintAttrs(x.attrs))
    requires k == m + |PrintAttrs(x.attrs)| && At(b, k) == (if x.kids == [] then SPACE else GT)
    requires x.kids == [] ==> At(b, k + 1) == SLASH && At(b, k + 2) == GT
    requires At(b, m) == if x.attrs == [] then At(b, k) else SPACE
    ensures x.kids == [] ==> R(Tag(i + 1, base + [f]), Main(k + 3, base + [f.(kids := f.kids + [x])]))
    ensures x.kids != [] ==> R(Tag(i + 1, base + [f]), Main(k + 1, base + [f] + [Frame(x.name, x.attrs, [])]))
  {
    var empty, full := Frame(x.name, [], []), Frame(x.name, x.attrs, []);
    var stack := base + [f];
    var next := if x.kids == [] then Main(k + 3, base + [f.(kids := f.kids + [x])]) else Main(k + 1, stack + [full]);
    NameLeads(R, b, i + 1, x.name, stack, fragment);
    if At(b, m) == SPACE {
      EndLeads(R, b, k, base, f, full, fragment);
      AttrsLead(R, b, m, x.attrs, stack, empty, next, fragment);
      LeadsOn(R, b, Tag(i + 1, stack), Attrs(m + 1, stack + [empty]), next, fragment);
    }
  }

  /** From behind the space after the name over all attributes, and on. */
  lemma AttrsLead(R: (State, State) -> bool, b: seq<Byte>, m: nat, s: seq<Attribute>, stack: seq<Frame>, g: Frame, next: State, fragment: bool)
    requires Follows(R, b, fragment) && g.attrs == []
    requires (forall k | 0 <= k < |s| :: AttrOk(s[k])) && StandsAt(b, m, PrintAttrs(s)) && !IsStart(At(b, m + |PrintAttrs(s)|)) && At(b, m) == SPACE
    requires R(Attrs(m + |PrintAttrs(s)|, stack + [g.(attrs := s)]), next) && next != Attrs(m, stack + [g])
    ensures R(Attrs(m + 1, stack + [g]), next)
  {
    AttrsBack(R, b, m, s, stack, g, fragment);
    assert [] + s == s;
    LeadsOn(R, b, Attrs(m, stack + [g]), Attrs(m + |PrintAttrs(s)|, stack + [g.(attrs := s)]), next, fragment);
    SpaceLead(R, b, m, stack + [g], next, fragment);
  }

  /** An element, from behind its opening bracket. */
  lemma {:induction false} ElemBack(R: (State, State) -> bool, b: seq<Byte>, i: nat, x: Xml, base: seq<Frame>, f: Frame, fragment: bool)
    requires Follows(R, b, fragment)
    requires x.Elem? && XmlOk(x) && StandsAt(b, i, Print(x))
    ensures At(b, i) == LT && At(b, i + 1) != 0
    ensures R(Tag(i + 1, base + [f]), Main(i + |Print(x)|, base + [f.(kids := f.kids + [x])]))
    decreases x, 1
  {
    var m, k := ElemStands(b, i, x);
    BodyStands(b, k, x.name, x.kids);
    TagOpens(R, b, i, x, m, k, base, f, fragment);
    if x.kids != [] {
      var inner, done := Main(k + 1, base + [f] + [Frame(x.name, x.attrs, [])]), Main(i + |Print(x)|, base + [f.(kids := f.kids + [x])]);
      assert R(inner, done) by {
        InnerBack(R, b, k, x, base, f, fragment);
      }
      LeadsOn(R, b, Tag(i + 1, base + [f]), inner, done, fragment);
    }
  }

  /** The children of an element and its end tag. */
  lemma {:induction false} InnerBack(R: (State, State) -> bool, b: seq<Byte>, k: nat, x: Xml, base: seq<Frame>, f: Frame, fragment: bool)
    requires Follows(R, b, fragment)
    requires x.Elem? && x.kids != [] && XmlOk(x) && StandsAt(b, k, PrintBody(x.name, x.kids))
    ensures R(Main(k + 1, base + [f] + [Frame(x.name, x.attrs, [])]), Main(k + |PrintBody(x.name, x.kids)|, base + [f.(kids := f.kids + [x])]))
    decreases x, 0
  {
    BodyStands(b, k, x.name, x.kids);
    var stack, empty, full := base + [f], Frame(x.name, x.attrs, []), Frame(x.name, x.attrs, x.kids);
    var j := k + 1 + |PrintAll(x.kids)|;
    assert R(Main(k + 1, stack + [empty]), Tag(j + 1, stack + [full])) by {
      KidsBack(R, b, k + 1, j, x.kids, stack, empty, fragment);
      assert [] + x.kids == x.kids;
    }
    CloseLeads(R, b, j + 1, base, f, x, fragment);
    LeadsOn(R, b, Main(k + 1, stack + [empty]), Tag(j + 1, stack + [full]), Main(j + 3 + |x.name|, base + [f.(kids := f.kids + [x])]), fragment);
  }

  lemma CloseLeads(R: (State, State) -> bool, b: seq<Byte>, i: nat, base: seq<Frame>, f: Frame, x: Xml, fragment: bool)
    requires Follows(R, b, fragment) && x.Elem? && NameOk(x.name) && StandsAt(b, i, [SLASH] + (x.name + [GT]))
    ensures R(Tag(i, base + [f] + [Frame(x.name, x.attrs, x.kids)]), Main(i + 2 + |x.name|, base + [f.(kids := f.kids + [x])]))
  {
    var full := Frame(x.name, x.attrs, x.kids);
    TagCloses(b, i, base, f, full, fragment);
    LeadsOne(R, b, Tag(i, base + [f] + [full]), fragment);
  }

  /** A text step: the text becomes a node and the bracket behind it has been read. */
  lemma TextBack(b: seq<Byte>, i: nat, text: seq<Byte>, base: seq<Frame>, f: Frame, fragment: bool)
    requires text != [] && 0 !in text && StandsAt(b, i, Escaped(text, false)) && (base != [] || fragment)
    requires At(b, i + |Escaped(text, false)|) == LT && At(b, i + |Escaped(text, false)| + 1) != 0
    ensures Step(b, Main(i, base + [f]), fragment)
         == Tag(i + |Escaped(text, false)| + 1, base + [f.(kids := f.kids + [Chars(text)])])
  {
    ValueBack(b, i, text, false);
    TextStarts(b, i, text);
    TextStep(b, i, i + |Escaped(text, false)|, text, base, f, fragment);
  }

  lemma TextStep(b: seq<Byte>, i: nat, j: nat, text: seq<Byte>, base: seq<Frame>, f: Frame, fragment: bool)
    requires i < |b| && b[i] != 0 && b[i] != LT && (base != [] || fragment)
    requires ReadsAs(b, i, false, text, j) && At(b, j) == LT && At(b, j + 1) != 0
    ensures Step(b, Main(i, base + [f]), fragment) == Tag(j + 1, base + [f.(kids := f.kids + [Chars(text)])])
  {
    assert Here(i);
    AddKidTop(base, f, Chars(text));
  }

  lemma TextStarts(b: seq<Byte>, i: nat, text: seq<Byte>)
    requires text != [] && 0 !in text && StandsAt(b, i, Escaped(text, false))
    ensures i < |b| && b[i] != 0 && b[i] != LT
  {
    assert text[0] in text;
    StandsSplit(b, i, EscapedChar(text[0], false), Escaped(text[1..], false));
    CharBack(b, i, text[0], false);
  }

  /** Children, from the first one to the bracket behind the last, which is at e. */
  lemma {:induction false} KidsBack(R: (State, State) -> bool, b: seq<Byte>, i: nat, e: nat, xs: seq<Xml>, base: seq<Frame>, f: Frame, fragment: bool)
    requires Follows(R, b, fragment)
    requires AllOk(xs) && StandsAt(b, i, PrintAll(xs)) && (base != [] || fragment)
    requires e == i + |PrintAll(xs)| && At(b, e) == LT && At(b, e + 1) != 0
    ensures R(Main(i, base + [f]), Tag(e + 1, base + [f.(kids := f.kids + xs)]))
    decreases xs, 2
  {
    if xs == [] || xs[0].Elem? {
      KidsFromTag(R, b, i, e, xs, base, f, fragment);
      BracketStep(R, b, i, xs, base + [f], Tag(e + 1, base + [f.(kids := f.kids + xs)]), fragment);
    } else {
      var n := |Print(xs[0])|;
      var g := f.(kids := f.kids + [xs[0]]);
      TextFirst(R, b, i, xs, base, f, fragment);
      assert R(Tag(i + n + 1, base + [g]), Tag(e + 1, base + [f.(kids := f.kids + xs)])) by {
        KidsFromTag(R, b, i + n, e, xs[1..], base, g, fragment);
        assert g.kids + xs[1..] == f.kids + xs;
      }
      LeadsOn(R, b, Main(i, base + [f]), Tag(i + n + 1, base + [g]), Tag(e + 1, base + [f.(kids := f.kids + xs)]), fragment);
    }
  }

  /** Where a text that comes first ends, and what is there. */
  lemma TextParts(b: seq<Byte>, i: nat, xs: seq<Xml>)
    requires xs != [] && xs[0].Chars? && AllOk(xs) && StandsAt(b, i, PrintAll(xs))
    requires |xs| == 1 ==> At(b, i + |PrintAll(xs)|) == LT && At(b, i + |PrintAll(xs)| + 1) != 0
    ensures |PrintAll(xs)| == |Print(xs[0])| + |PrintAll(xs[1..])| && AllOk(xs[1..]) && (|xs| > 1 ==> xs[1..][0].Elem?)
    ensures StandsAt(b, i, Print(xs[0])) && StandsAt(b, i + |Print(xs[0])|, PrintAll(xs[1..]))
    ensures At(b, i + |Print(xs[0])|) == LT && At(b, i + |Print(xs[0])| + 1) != 0
  {
    var j := i + |Print(xs[0])|;
    StandsSplit(b, i, Print(xs[0]), PrintAll(xs[1..]));
    assert At(b, j) == LT && At(b, j + 1) != 0 by {
      BracketNext(b, j, xs[1..]);
    }
  }

  /** The first of several nodes, a text. */
  lemma TextFirst(R: (State, State) -> bool, b: seq<Byte>, i: nat, xs: seq<Xml>, base: seq<Frame>, f: Frame, fragment: bool)
    requires Follows(R, b, fragment)
    requires xs != [] && xs[0].Chars? && AllOk(xs) && StandsAt(b, i, PrintAll(xs)) && (base != [] || fragment)
    requires |xs| == 1 ==> At(b, i + |PrintAll(xs)|) == LT && At(b, i + |PrintAll(xs)| + 1) != 0
    ensures |PrintAll(xs)| == |Print(xs[0])| + |PrintAll(xs[1..])| && AllOk(xs[1..]) && (|xs| > 1 ==> xs[1..][0].Elem?)
    ensures StandsAt(b, i + |Print(xs[0])|, PrintAll(xs[1..]))
    ensures R(Main(i, base + [f]), Tag(i + |Print(xs[0])| + 1, base + [f.(kids := f.kids + [xs[0]])]))
  {
    TextParts(b, i, xs);
    TextLeads(R, b, i, xs[0], base, f, fragment);
  }

  lemma TextLeads(R: (State, State) -> bool, b: seq<Byte>, i: nat, x: Xml, base: seq<Frame>, f: Frame, fragment: bool)
    requires Follows(R, b, fragment) && x.Chars? && XmlOk(x) && StandsAt(b, i, Print(x)) && (base != [] || fragment)
    requires At(b, i + |Print(x)|) == LT && At(b, i + |Print(x)| + 1) != 0
    ensures R(Main(i, base + [f]), Tag(i + |Print(x)| + 1, base + [f.(kids := f.kids + [x])]))
  {
    TextBack(b, i, x.text, base, f, fragment);
    LeadsOne(R, b, Main(i, base + [f]), fragment);
  }

  /** An opening bracket is read. */
  lemma BracketStep(R: (State, State) -> bool, b: seq<Byte>, i: nat, xs: seq<Xml>, stack: seq<Frame>, last: State, fragment: bool)
    requires Follows(R, b, fragment) && stack != [] && R(Tag(i + 1, stack), last)
    requires AllOk(xs) && (xs != [] ==> xs[0].Elem?) && StandsAt(b, i, PrintAll(xs))
    requires xs == [] ==> At(b, i) == LT && At(b, i + 1) != 0
    ensures R(Main(i, stack), last)
  {
    BracketNext(b, i, xs);
    TwoLeads(R, b, Main(i, stack), Tag(i + 1, stack), last, fragment);
  }

  /** What follows text begins with a bracket. */
  lemma BracketNext(b: seq<Byte>, i: nat, xs: seq<Xml>)
    requires AllOk(xs) && (xs != [] ==> xs[0].Elem?) && StandsAt(b, i, PrintAll(xs))
    requires xs == [] ==> At(b, i) == LT && At(b, i + 1) != 0
    ensures At(b, i) == LT && At(b, i + 1) != 0
  {
    if xs != [] {
      StandsSplit(b, i, Print(xs[0]), PrintAll(xs[1..]));
      var m, k := ElemStands(b, i, xs[0]);
    }
  }

  /** The same when the first bracket has been read already. */
  lemma {:induction false} KidsFromTag(R: (State, State) -> bool, b: seq<Byte>, i: nat, e: nat, xs: seq<Xml>, base: seq<Frame>, f: Frame, fragment: bool)
    requires Follows(R, b, fragment)
    requires AllOk(xs) && (xs != [] ==> xs[0].Elem?) && StandsAt(b, i, PrintAll(xs)) && (base != [] || fragment)
    requires e == i + |PrintAll(xs)| && At(b, e) == LT && At(b, e + 1) != 0
    ensures R(Tag(i + 1, base + [f]), Tag(e + 1, base + [f.(kids := f.kids + xs)]))
    decreases xs, 1
  {
    if xs == [] {
      assert f.kids + [] == f.kids;
      LeadsNowhere(R, b, Tag(i + 1, base + [f]), fragment);
    } else {
      var n := |Print(xs[0])|;
      var g := f.(kids := f.kids + [xs[0]]);
      FirstElem(R, b, i, xs, base, f, fragment);
      KidsBack(R, b, i + n, e, xs[1..], base, g, fragment);
      assert g.kids + xs[1..] == f.kids + xs;
      LeadsOn(R, b, Tag(i + 1, base + [f]), Main(i + n, base + [g]), Tag(e + 1, base + [f.(kids := f.kids + xs)]), fragment);
    }
  }

  /** The first of several nodes, an element. */
  lemma {:induction false} FirstElem(R: (State, State) -> bool, b: seq<Byte>, i: nat, xs: seq<Xml>, base: seq<Frame>, f: Frame, fragment: bool)
    requires Follows(R, b, fragment)
    requires xs != [] && xs[0].Elem? && AllOk(xs) && StandsAt(b, i, PrintAll(xs))
    ensures |PrintAll(xs)| == |Print(xs[0])| + |PrintAll(xs[1..])| && AllOk(xs[1..])
    ensures StandsAt(b, i + |Print(xs[0])|, PrintAll(xs[1..])) && At(b, i) == LT
    ensures R(Tag(i + 1, base + [f]), Main(i + |Print(xs[0])|, base + [f.(kids := f.kids + [xs[0]])]))
    decreases xs, 0
  {
    StandsSplit(b, i, Print(xs[0]), PrintAll(xs[1..]));
    ElemBack(R, b, i, xs[0], base, f, fragment);
  }

  // Documents.

  predicate AllElems(xs: seq<Xml>) {
    forall k | 0 <= k < |xs| :: xs[k].Elem?
  }

  /** Top-level nodes up to the end of the input. */
  lemma {:induction false} DocumentBack(R: (State, State) -> bool, b: seq<Byte>, i: nat, xs: seq<Xml>, base: seq<Frame>, f: Frame, fragment: bool)
    requires Follows(R, b, fragment) && base == []
    requires AllOk(xs) && StandsAt(b, i, PrintAll(xs)) && At(b, i + |PrintAll(xs)|) == 0 && (fragment || AllElems(xs))
    ensures R(Main(i, base + [f]), Done(f.kids + xs))
    decreases |xs|, 1
  {
    if xs == [] {
      DocumentEnd(R, b, i, base, f, fragment);
      assert f.kids + [] == f.kids;
    } else if xs[0].Elem? {
      DocumentFromTag(R, b, i, xs, base, f, fragment);
      BracketStep(R, b, i, xs, base + [f], Done(f.kids + xs), fragment);
    } else if |xs| == 1 {
      LastTextLeads(R, b, i, xs, base, f, fragment);
    } else {
      DocumentText(R, b, i, xs, base, f, fragment);
    }
  }

  lemma {:induction false} DocumentText(R: (State, State) -> bool, b: seq<Byte>, i: nat, xs: seq<Xml>, base: seq<Frame>, f: Frame, fragment: bool)
    requires Follows(R, b, fragment) && base == [] && fragment && |xs| > 1 && xs[0].Chars?
    requires AllOk(xs) && StandsAt(b, i, PrintAll(xs)) && At(b, i + |PrintAll(xs)|) == 0
    ensures R(Main(i, base + [f]), Done(f.kids + xs))
    decreases |xs|, 0
  {
    var g := f.(kids := f.kids + [xs[0]]);
    TextFirst(R, b, i, xs, base, f, fragment);
    DocumentFromTag(R, b, i + |Print(xs[0])|, xs[1..], base, g, fragment);
    ThenDone(R, b, Main(i, base + [f]), Tag(i + |Print(xs[0])| + 1, base + [g]), f.kids, xs, fragment);
  }

  lemma ThenDone(R: (State, State) -> bool, b: seq<Byte>, x: State, y: State, kids: seq<Xml>, xs: seq<Xml>, fragment: bool)
    requires Follows(R, b, fragment) && xs != [] && R(x, y) && R(y, Done(kids + [xs[0]] + xs[1..]))
    ensures R(x, Done(kids + xs))
  {
    assert kids + [xs[0]] + xs[1..] == kids + xs;
    LeadsOn(R, b, x, y, Done(kids + xs), fragment);
  }

  lemma {:induction false} DocumentFromTag(R: (State, State) -> bool, b: seq<Byte>, i: nat, xs: seq<Xml>, base: seq<Frame>, f: Frame, fragment: bool)
    requires Follows(R, b, fragment) && base == []
    requires xs != [] && xs[0].Elem? && AllOk(xs) && StandsAt(b, i, PrintAll(xs)) && At(b, i + |PrintAll(xs)|) == 0 && (fragment || AllElems(xs))
    ensures R(Tag(i + 1, base + [f]), Done(f.kids + xs))
    decreases |xs|, 0
  {
    var g := f.(kids := f.kids + [xs[0]]);
    FirstElem(R, b, i, xs, base, f, fragment);
    DocumentBack(R, b, i + |Print(xs[0])|, xs[1..], base, g, fragment);
    assert g.kids + xs[1..] == f.kids + xs;
    LeadsOn(R, b, Tag(i + 1, base + [f]), Main(i + |Print(xs[0])|, base + [g]), Done(f.kids + xs), fragment);
  }

  /** Text at the very end of a fragment. */
  lemma LastTextLeads(R: (State, State) -> bool, b: seq<Byte>, i: nat, xs: seq<Xml>, base: seq<Frame>, f: Frame, fragment: bool)
    requires Follows(R, b, fragment) && base == [] && fragment
    requires |xs| == 1 && xs[0].Chars? && AllOk(xs) && StandsAt(b, i, PrintAll(xs)) && At(b, i + |PrintAll(xs)|) == 0
    ensures R(Main(i, base + [f]), Done(f.kids + xs))
  {
    StandsSplit(b, i, Print(xs[0]), PrintAll(xs[1..]));
    LastText(b, i, xs[0].text, base, f, fragment);
    assert xs == [xs[0]];
    LeadsOne(R, b, Main(i, base + [f]), fragment);
  }

  lemma DocumentEnd(R: (State, State) -> bool, b: seq<Byte>, i: nat, base: seq<Frame>, f: Frame, fragment: bool)
    requires Follows(R, b, fragment) && base == [] && At(b, i) == 0
    ensures R(Main(i, base + [f]), Done(f.kids))
  {
    LeadsOne(R, b, Main(i, base + [f]), fragment);
  }

  lemma LastText(b: seq<Byte>, i: nat, text: seq<Byte>, base: seq<Frame>, f: Frame, fragment: bool)
    requires text != [] && 0 !in text && StandsAt(b, i, Escaped(text, false)) && At(b, i + |Escaped(text, false)|) == 0 && fragment && base == []
    ensures Step(b, Main(i, base + [f]), fragment) == Done(f.kids + [Chars(text)])
  {
    ValueBack(b, i, text, false);
    assert Here(i);
    TextStarts(b, i, text);
    AddKidTop(base, f, Chars(text));
  }

  lemma TwoLeads(R: (State, State) -> bool, b: seq<Byte>, st: State, next: State, last: State, fragment: bool)
    requires Follows(R, b, fragment) && Sane(st) && Live(st) && Step(b, st, fragment) == next && R(next, last)
    ensures R(st, last)
  {
    LeadsOne(R, b, st, fragment);
    LeadsOn(R, b, st, next, last, fragment);
  }

  // The relation itself.

  function After(b: seq<Byte>, st: State, fragment: bool, n: nat): (r: State)
    requires Sane(st)
    ensures Sane(r)
    decreases n
  {
    if n == 0 || !Live(st) then st else After(b, Step(b, st, fragment), fragment, n - 1)
  }

  lemma {:induction false} AfterAdd(b: seq<Byte>, st: State, fragment: bool, m: nat, n: nat)
    requires Sane(st)
    ensures After(b, st, fragment, m + n) == After(b, After(b, st, fragment, m), fragment, n)
    decreases m
  {
    if m > 0 && Live(st) {
      AfterAdd(b, Step(b, st, fragment), fragment, m - 1, n);
    }
  }

  lemma {:induction false} RunAfter(b: seq<Byte>, st: State, fragment: bool, n: nat)
    requires Sane(st) && (Live(st) ==> st.i <= |b| + 1)
    ensures Run(b, After(b, st, fragment, n), fragment) == Run(b, st, fragment)
    decreases n
  {
    if n > 0 && Live(st) {
      var next := Step(b, st, fragment);
      if Live(next) {
        StepAdvances(b, st, fragment);
      }
      RunAfter(b, next, fragment, n - 1);
    }
  }

  /** From one state to another in some steps. */
  ghost predicate Leads(b: seq<Byte>, st: State, next: State, fragment: bool) {
    Sane(st) ==> exists n: nat :: After(b, st, fragment, n) == next
  }

  lemma LeadsFar(b: seq<Byte>, x: State, y: State, z: State, fragment: bool)
    requires Leads(b, x, y, fragment) && Leads(b, y, z, fragment)
    ensures Leads(b, x, z, fragment)
  {
    if Sane(x) {
      var m: nat :| After(b, x, fragment, m) == y;
      var n: nat :| After(b, y, fragment, n) == z;
      AfterAdd(b, x, fragment, m, n);
      assert After(b, x, fragment, m + n) == z;
    }
  }

  lemma LeadsStep(b: seq<Byte>, st: State, fragment: bool)
    ensures Leads(b, st, st, fragment)
    ensures Sane(st) && Live(st) ==> Leads(b, st, Step(b, st, fragment), fragment)
  {
    if Sane(st) {
      assert After(b, st, fragment, 0) == st;
      if Live(st) {
        var next := Step(b, st, fragment);
        assert After(b, next, fragment, 0) == next;
        assert After(b, st, fragment, 1) == next;
      }
    }
  }

  /** Behind a tag's name a space has been read; attributes can be read with or without it. */
  lemma LeadsSpace(b: seq<Byte>, i: nat, stack: seq<Frame>, next: State, fragment: bool)
    requires stack != [] && At(b, i) == SPACE && Leads(b, Attrs(i, stack), next, fragment) && next != Attrs(i, stack)
    ensures Leads(b, Attrs(i + 1, stack), next, fragment)
  {
    var n: nat :| After(b, Attrs(i, stack), fragment, n) == next;
    assert Step(b, Attrs(i, stack), fragment) == Step(b, Attrs(i + 1, stack), fragment);
    assert After(b, Attrs(i + 1, stack), fragment, n) == next;
  }

  lemma LeadsFollows(b: seq<Byte>, fragment: bool, R: (State, State) -> bool)
    requires forall x, y {:trigger R(x, y)} :: R(x, y) <==> Leads(b, x, y, fragment)
    ensures Follows(R, b, fragment)
  {
    forall st {:trigger Hop(st, st, st)} | Hop(st, st, st) ensures R(st, st) && (Sane(st) && Live(st) ==> R(st, Step(b, st, fragment))) {
      LeadsStep(b, st, fragment);
    }
    forall x, y, z {:trigger Hop(x, y, z)} | Hop(x, y, z) && R(x, y) && R(y, z) ensures R(x, z) {
      LeadsFar(b, x, y, z, fragment);
    }
    forall x, y, z {:trigger Hop(x, y, z)} | Hop(x, y, z) && OneSpaceOn(b, x, y) && R(x, z) && x != z ensures R(y, z) {
      LeadsSpace(b, x.i, x.stack, z, fragment);
    }
  }

  lemma LeadsDone(b: seq<Byte>, xs: seq<Xml>, fragment: bool)
    requires AllOk(xs) && (fragment || AllElems(xs)) && StandsAt(b, 0, PrintAll(xs)) && At(b, |PrintAll(xs)|) == 0
    ensures Leads(b, Main(0, [Frame([], [], [])]), Done(xs), fragment)
  {
    ghost var R := (x, y) => Leads(b, x, y, fragment);
    LeadsFollows(b, fragment, R);
    assert [] + xs == xs && [] + [Frame([], [], [])] == [Frame([], [], [])];
    DocumentBack(R, b, 0, xs, [], Frame([], [], []), fragment);
  }

  /**
   * Parsing the print of a list of nodes, with a terminator or at the very end of the buffer, returns that list;
   * text at the top level needs the fragment option.
   */
  lemma RoundTrip(b: seq<Byte>, xs: seq<Xml>, fragment: bool)
    requires AllOk(xs) && (fragment || AllElems(xs)) && PrintAll(xs) <= b && (PrintAll(xs) < b ==> b[|PrintAll(xs)|] == 0)
    ensures Run(b, Main(0, [Frame([], [], [])]), fragment) == Done(xs)
  {
    var st, r := Main(0, [Frame([], [], [])]), PrintAll(xs);
    forall k: nat {:trigger CharAt(b, 0, r, k)} | k < |r| ensures CharAt(b, 0, r, k) {
    }
    LeadsDone(b, xs, fragment);
    var n: nat :| After(b, st, fragment, n) == Done(xs);
    RunAfter(b, st, fragment, n);
  }
}
