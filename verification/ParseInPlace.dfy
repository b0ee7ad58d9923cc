/** The tree parser as it works on the buffer: strings are terminated and converted where they stand. */
module ParseInPlace {
  import opened Utf
  import opened TextSpec
  import opened TextAhead
  import opened TextInPlace
  import opened XmlText
  import opened XmlParse
  import opened XmlRoundTrip
  import opened ParseMarks
  import opened ParseOrder

  // The parser.

  lemma {:induction false} SymbolsNonzero(b: seq<Byte>, i: nat)
    requires i <= |b|
    ensures forall k | i <= k < i + SymbolRun(b, i) :: IsSymbol(b[k])
    ensures !IsSymbol(At(b, i + SymbolRun(b, i)))
    decreases |b| - i
  {
    if i < |b| && IsSymbol(b[i]) {
      SymbolsNonzero(b, i + 1);
    }
  }

  lemma {:induction false} SymbolsEnd(b: seq<Byte>, i: nat, n: nat)
    requires i + n < |b| && (forall k | i <= k < i + n :: IsSymbol(b[k])) && !IsSymbol(b[i + n])
    ensures SymbolRun(b, i) == n
    decreases n
  {
    if n > 0 {
      SymbolsEnd(b, i + 1, n - 1);
    }
  }

  lemma {:induction false} SpacesEnd(b: seq<Byte>, i: nat, n: nat)
    requires i + n < |b| && (forall k | i <= k < i + n :: IsSpace(b[k])) && !IsSpace(b[i + n])
    ensures SkipSpace(b, i) == i + n
    decreases n
  {
    if n > 0 {
      SpacesEnd(b, i + 1, n - 1);
    }
  }

  /** Where the parser is: between constructs, behind an opening bracket, inside a tag, or finished. */
  datatype Phase = InMain | InTag | InAttrs | Finished | Bad

  function PhaseOf(st: State): Phase {
    match st
    case Main(_, _) => InMain
    case Tag(_, _) => InTag
    case Attrs(_, _) => InAttrs
    case Done(_) => Finished
    case Failed => Bad
  }

  predicate NoKids(os: seq<Open>) {
    os != [] && os[|os| - 1].kids == []
  }

  /** What the parser needs to know about the order of the strings that a stack points at in p, the part of the buffer read so far. */
  ghost predicate OrderLaws(low: (seq<Open>, seq<Byte>) -> bool) {
    && (forall os, p, q {:trigger low(os, p), low(os, q)} | p <= q && low(os, p) :: low(os, q))
    && (forall os, p, q {:trigger low(os, p), low(Pushed(os, |p|), q)} | os != [] && low(os, p) && Behind(p, q, |q|) :: low(Pushed(os, |p|), q))
    && (forall os, p, q {:trigger low(os, p), low(WithKid(os, Text(|p|)), q)} | os != [] && low(os, p) && Behind(p, q, |q|) :: low(WithKid(os, Text(|p|)), q))
    && (forall os, p, v: nat, q {:trigger low(os, p), low(WithSlot(os, Slot(|p|, v)), q)} |
          NoKids(os) && low(os, p) && v < |q| && Behind(p, q, v) && Behind(q[..v], q, |q|) :: low(WithSlot(os, Slot(|p|, v)), q))
    && (forall os, p {:trigger low(Popped(os), p)} | |os| > 1 && low(os, p) :: low(Popped(os), p))
  }

  /** Between p and the position v in the longer q there is a terminator. */
  predicate Behind(p: seq<Byte>, q: seq<Byte>, v: nat) {
    p <= q && |p| < v <= |q| && 0 in q[|p|..v]
  }

  lemma StringBehind(p: seq<Byte>, q: seq<Byte>, s: seq<Byte>, v: nat)
    requires p <= q && v <= |q| && CString(q[..v], |p|, s)
    ensures Behind(p, q, v)
  {
    assert q[|p|..v][|s|] == q[..v][|p| + |s|] == 0;
  }

  /** What has been built stands in p, and its strings follow one another in document order. */
  ghost predicate Built(low: (seq<Open>, seq<Byte>) -> bool, p: seq<Byte>, os: seq<Open>, fs: seq<Frame>) {
    OrderLaws(low) && StackMarked(p, os, fs) && low(os, p)
  }

  lemma BuiltMore(low: (seq<Open>, seq<Byte>) -> bool, p: seq<Byte>, q: seq<Byte>, os: seq<Open>, fs: seq<Frame>)
    requires p <= q && Built(low, p, os, fs)
    ensures Built(low, q, os, fs)
  {
    StackMore(p, q, os, fs);
  }

  lemma NameBuilt(low: (seq<Open>, seq<Byte>) -> bool, p: seq<Byte>, q: seq<Byte>, os: seq<Open>, fs: seq<Frame>, name: seq<Byte>)
    requires p <= q && Built(low, p, os, fs) && CString(q, |p|, name) && 0 !in name
    ensures Built(low, q, Pushed(os, |p|), fs + [Frame(name, [], [])]) && NoKids(Pushed(os, |p|))
  {
    StackMore(p, q, os, fs);
    PushMarked(q, os, fs, |p|, name);
    assert q[..|q|] == q;
    StringBehind(p, q, name, |q|);
  }

  lemma TextBuilt(low: (seq<Open>, seq<Byte>) -> bool, p: seq<Byte>, q: seq<Byte>, os: seq<Open>, fs: seq<Frame>, text: seq<Byte>)
    requires p <= q && Built(low, p, os, fs) && CString(q, |p|, text)
    ensures Built(low, q, WithKid(os, Text(|p|)), AddKid(fs, Chars(text)))
  {
    StackMore(p, q, os, fs);
    KidMarked(q, os, fs, Text(|p|), Chars(text));
    assert q[..|q|] == q;
    StringBehind(p, q, text, |q|);
  }

  lemma AttributeBuilt(low: (seq<Open>, seq<Byte>) -> bool, p: seq<Byte>, p1: seq<Byte>, p2: seq<Byte>, os: seq<Open>, fs: seq<Frame>, name: seq<Byte>, value: seq<Byte>)
    requires Built(low, p, os, fs) && NoKids(os) && p <= p2 && p1 <= p2 && |p| <= |p1|
    requires CString(p1, |p|, name) && CString(p2, |p1| + 1, value)
    ensures var s := Slot(|p|, |p1| + 1);
      Built(low, p2, WithSlot(os, s), AddAttr(fs, Attribute(name, value))) && NoKids(WithSlot(os, s))
  {
    StackMore(p, p2, os, fs);
    CStringMore(p1, p2, |p|, name);
    SlotAdded(p2, os, fs, Slot(|p|, |p1| + 1), Attribute(name, value));
    var v := |p1| + 1;
    CStringMore(p1, p2[..v], |p|, name);
    StringBehind(p, p2, name, v);
    assert p2[..|p2|] == p2;
    StringBehind(p2[..v], p2, value, |p2|);
  }

  lemma PopBuilt(low: (seq<Open>, seq<Byte>) -> bool, p: seq<Byte>, os: seq<Open>, fs: seq<Frame>)
    requires Built(low, p, os, fs) && |fs| > 1
    ensures Built(low, p, Popped(os), Pop(fs))
  {
    PopMarked(p, os, fs);
  }

  class TreeParser {
    const a: array<Byte>
    var stack: seq<Open>
    ghost const low: (seq<Open>, seq<Byte>) -> bool

    constructor (buffer: array<Byte>, ghost order: (seq<Open>, seq<Byte>) -> bool)
      ensures a == buffer && low == order && stack == [Open(0, [], [])]
    {
      a, low := buffer, order;
      stack := [Open(0, [], [])];
    }

    /** The text from i on is as it was, and what has been built so far stands before i. */
    ghost predicate Tracks(b: seq<Byte>, i: nat, fs: seq<Frame>, term: nat)
      reads this, a
    {
      a.Length == |b| && Ends(b, i, term) && Same(a[..], b, i) && Built(low, a[..i], stack, fs)
    }

    /** The parser is in this state of the machine. */
    ghost predicate Mirrors(b: seq<Byte>, st: State, phase: Phase, i: nat, term: nat)
      reads this, a
    {
      && phase == PhaseOf(st) && a.Length == |b|
      && (Live(st) ==> i == st.i && Tracks(b, i, st.stack, term))
      && (st.Attrs? ==> NoKids(stack))
      && (st.Done? ==> stack != [] && AllMarked(a[..], stack[0].kids, st.kids) && |stack| == 1 && low(stack, a[..]))
    }

    method SkipSpaces(ghost b: seq<Byte>, i: nat, ghost term: nat) returns (j: nat)
      requires a.Length == |b| && Ends(b, i, term) && Same(a[..], b, i)
      ensures j == SkipSpace(b, i) && Ends(b, j, term)
    {
      j := i;
      while IsSpace(a[j])
        invariant i <= j && Ends(b, j, term) && forall k | i <= k < j :: IsSpace(b[k])
        decreases term - j
      {
        j := j + 1;
      }
      SpacesEnd(b, i, j - i);
    }

    /** Scan a name, put a terminator behind it, and step over that; ch is what was there. */
    method EndSegment(ghost b: seq<Byte>, i: nat, ghost term: nat) returns (ch: Byte, j: nat)
      requires a.Length == |b| && Ends(b, i, term) && Same(a[..], b, i)
      modifies a
      ensures j == i + SymbolRun(b, i) + 1 <= |b| && ch == b[j - 1] && !IsSymbol(ch) && (ch != 0 ==> j <= term)
      ensures Same(a[..], b, j) && a[..i] == old(a[..i]) && CString(a[..j], i, b[i..j - 1]) && 0 !in b[i..j - 1]
    {
      j := i;
      while IsSymbol(a[j])
        invariant i <= j && Ends(b, j, term) && forall k | i <= k < j :: IsSymbol(b[k])
        decreases term - j
      {
        j := j + 1;
      }
      SymbolsEnd(b, i, j - i);
      ch := a[j];
      a[j] := 0;
      j := j + 1;
      assert a[..j][i..j - 1] == b[i..j - 1];
    }

    /** Compare the name of an end tag with that of the innermost element. */
    method MatchesName(ghost b: seq<Byte>, i: nat, at: nat, ghost name: seq<Byte>, ghost term: nat) returns (ok: bool, j: nat)
      requires a.Length == |b| && Ends(b, i, term) && Same(a[..], b, i) && CString(a[..i], at, name) && 0 !in name
      ensures ok == (b[i..i + SymbolRun(b, i)] == name) && (ok ==> j == i + SymbolRun(b, i) && Ends(b, j, term))
    {
      j := i;
      ghost var n := SymbolRun(b, i);
      SymbolsNonzero(b, i);
      while IsSymbol(a[j])
        invariant i <= j <= i + n && Ends(b, j, term) && j - i <= |name| && b[i..j] == name[..j - i]
        decreases term - j
      {
        assert j < i + n;
        if a[j] != a[at + (j - i)] {
          assert b[i..i + n][j - i] == b[j];
          assert j - i < |name| ==> a[..i][at..at + |name|][j - i] == name[j - i];
          return false, j;
        }
        assert j - i < |name| by {
          assert a[..i][at + |name|] == 0;
        }
        assert a[..i][at..at + |name|][j - i] == name[j - i];
        assert b[i..j + 1] == b[i..j] + [b[j]];
        j := j + 1;
      }
      assert j == i + n;
      ok := a[at + (j - i)] == 0;
      assert n < |name| ==> a[..i][at..at + |name|][n] == name[n] && name[n] in name;
      assert ok ==> name[..n] == name;
    }

    /** Behind an opening bracket. */
    method ParseTag(ghost b: seq<Byte>, i: nat, ghost fs: seq<Frame>, ghost term: nat) returns (phase: Phase, j: nat)
      requires Tracks(b, i, fs, term)
      modifies this, a
      ensures Mirrors(b, StepTag(b, i, fs), phase, j, term)
    {
      if IsStart(a[i]) {
        phase, j := ParseStart(b, i, fs, term);
      } else if a[i] == SLASH && |stack| > 1 {
        phase, j := ParseEnd(b, i, fs, term);
      } else {
        phase, j := Bad, i;
      }
    }

    /** A start tag up to the end of its name. */
    method ParseStart(ghost b: seq<Byte>, i: nat, ghost fs: seq<Frame>, ghost term: nat) returns (phase: Phase, j: nat)
      requires Tracks(b, i, fs, term) && IsStart(b[i])
      modifies this, a
      ensures Mirrors(b, StepTag(b, i, fs), phase, j, term)
    {
      ghost var p := a[..i];
      var ch;
      ch, j := EndSegment(b, i, term);
      assert p <= a[..j];
      NameBuilt(low, p, a[..j], stack, fs, b[i..j - 1]);
      stack := Pushed(stack, i);
      if ch == GT {
        phase := InMain;
      } else if IsSpace(ch) {
        phase := InAttrs;
      } else if ch == SLASH && a[j] == GT {
        phase := InMain;
        ghost var f := Frame(b[i..j - 1], [], []);
        assert Tracks(b, j, fs + [f], term);
        PopOne(b, j, fs + [f], term);
        j := j + 1;
      } else {
        phase := Bad;
      }
    }

    /** The innermost element is complete, and one more character has been read. */
    method PopOne(ghost b: seq<Byte>, i: nat, ghost fs: seq<Frame>, ghost term: nat)
      requires Tracks(b, i, fs, term) && |fs| > 1 && b[i] != 0
      modifies this`stack
      ensures Tracks(b, i + 1, Pop(fs), term)
    {
      assert a[..i] <= a[..i + 1];
      BuiltMore(low, a[..i], a[..i + 1], stack, fs);
      PopBuilt(low, a[..i + 1], stack, fs);
      stack := Popped(stack);
    }

    /** An end tag. */
    method ParseEnd(ghost b: seq<Byte>, i: nat, ghost fs: seq<Frame>, ghost term: nat) returns (phase: Phase, j: nat)
      requires Tracks(b, i, fs, term) && b[i] == SLASH && |fs| > 1
      modifies this`stack
      ensures Mirrors(b, StepTag(b, i, fs), phase, j, term)
    {
      var ok;
      ok, j := EndTagFits(b, i, fs, term);
      phase := Bad;
      if ok {
        assert a[..i] <= a[..j];
        BuiltMore(low, a[..i], a[..j], stack, fs);
        PopOne(b, j, fs, term);
        phase, j := InMain, j + 1;
      }
    }

    /** Is this the end tag of the innermost element? Then j is its closing bracket. */
    method EndTagFits(ghost b: seq<Byte>, i: nat, ghost fs: seq<Frame>, ghost term: nat) returns (ok: bool, j: nat)
      requires Tracks(b, i, fs, term) && b[i] == SLASH && |fs| > 1
      ensures StepTag(b, i, fs) == if ok then Main(j + 1, Pop(fs)) else Failed
      ensures ok ==> i <= j && Ends(b, j, term) && b[j] == GT
    {
      var top := stack[|stack| - 1];
      assert OpenMarked(a[..i], top, fs[|fs| - 1], false);
      CStringMore(a[..i], a[..i + 1], top.name, fs[|fs| - 1].name);
      ok, j := MatchesName(b, i + 1, top.name, fs[|fs| - 1].name, term);
      if ok {
        j := SkipSpaces(b, j, term);
        ok := a[j] == GT;
      }
    }

    /** Inside a tag. */
    method ParseAttributes(ghost b: seq<Byte>, i: nat, ghost fs: seq<Frame>, ghost term: nat) returns (phase: Phase, j: nat)
      requires Tracks(b, i, fs, term) && NoKids(stack)
      modifies this, a
      ensures Mirrors(b, StepAttrs(b, i, fs), phase, j, term)
    {
      j := SkipSpaces(b, i, term);
      assert a[..i] <= a[..j];
      BuiltMore(low, a[..i], a[..j], stack, fs);
      if IsStart(a[j]) {
        phase, j := ParseAttribute(b, j, fs, term);
      } else if a[j] == SLASH && a[j + 1] == GT && |stack| > 1 {
        assert a[..j] <= a[..j + 1];
        BuiltMore(low, a[..j], a[..j + 1], stack, fs);
        PopOne(b, j + 1, fs, term);
        phase, j := InMain, j + 2;
      } else if a[j] == GT {
        assert a[..j] <= a[..j + 1];
        BuiltMore(low, a[..j], a[..j + 1], stack, fs);
        phase, j := InMain, j + 1;
      } else {
        phase := Bad;
      }
    }

    /** The name of an attribute and the equals sign; e is the quote that follows, if one does. */
    method ParseAttributeName(ghost b: seq<Byte>, s: nat, ghost term: nat) returns (ok: bool, q: nat)
      requires a.Length == |b| && Ends(b, s, term) && Same(a[..], b, s)
      modifies a
      ensures a[..s] == old(a[..s])
      ensures var n := SymbolRun(b, s); var e := SkipSpace(b, s + n);
        && ok == (At(b, e) == EQ && (At(b, SkipSpace(b, e + 1)) == QUOT || At(b, SkipSpace(b, e + 1)) == APOS))
        && (ok ==> q == SkipSpace(b, e + 1) && s + n < q && Ends(b, q, term) && Same(a[..], b, q) && CString(a[..q], s, b[s..s + n]))
    {
      var ch;
      ch, q := EndSegment(b, s, term);
      ghost var p := a[..q];
      ok, q := ToQuote(b, q, ch, term);
      if ok {
        assert p <= a[..q];
        CStringMore(p, a[..q], s, b[s..s + SymbolRun(b, s)]);
      }
    }

    /** From behind a name, where ch was, to the quote behind the equals sign. */
    method ToQuote(ghost b: seq<Byte>, i: nat, ch: Byte, ghost term: nat) returns (ok: bool, q: nat)
      requires a.Length == |b| && 0 < i <= |b| && ch == b[i - 1] && (ch != 0 ==> Ends(b, i, term)) && Same(a[..], b, i)
      ensures var e := SkipSpace(b, i - 1);
        && ok == (At(b, e) == EQ && (At(b, SkipSpace(b, e + 1)) == QUOT || At(b, SkipSpace(b, e + 1)) == APOS))
        && (ok ==> q == SkipSpace(b, e + 1) && i <= q && Ends(b, q, term))
    {
      var c := ch;
      q := i;
      if IsSpace(c) {
        q := SkipSpaces(b, q, term);
        c := a[q];
        q := q + 1;
      }
      ok := false;
      if c == EQ {
        q := SkipSpaces(b, q, term);
        ok := a[q] == QUOT || a[q] == APOS;
      }
    }

    /** The value of an attribute, between quotes. */
    method ParseAttributeValue(ghost b: seq<Byte>, start: nat, quote: Byte, ghost term: nat) returns (ok: bool, j: nat)
      requires a.Length == |b| && Ends(b, start, term) && Same(a[..], b, start) && quote in {QUOT, APOS}
      modifies a
      ensures ok == (At(b, StopAt(b, start, StopChar(quote))) == quote)
      ensures ok ==> j == StopAt(b, start, StopChar(quote)) + 1 && Ends(b, j, term) && Same(a[..], b, j) && a[..start] == old(a[..start])
                     && CString(a[..j], start, Convert(b, start, Plainly, StopChar(quote)))
    {
      ghost var was := a[..];
      ok, j := StrconvAttribute(a, start, quote, Plainly, term);
      ValueRead(a[..], was, b, start, quote, term, ok, j);
    }

    /** The name at s and the value behind the quote at q become an attribute of the innermost element. */
    method FinishAttribute(ghost b: seq<Byte>, s: nat, q: nat, ghost name: seq<Byte>, ghost fs: seq<Frame>, ghost term: nat) returns (ok: bool, j: nat)
      requires a.Length == |b| && Ends(b, q, term) && Same(a[..], b, q) && b[q] in {QUOT, APOS} && s <= q
      requires Built(low, a[..s], stack, fs) && NoKids(stack) && CString(a[..q], s, name)
      modifies this, a
      ensures var stop := StopChar(b[q]); var e := StopAt(b, q + 1, stop);
        && ok == (At(b, e) == b[q] && !IsStart(At(b, e + 1)))
        && (ok ==> j == e + 1 && NoKids(stack) && Tracks(b, j, AddAttr(fs, Attribute(name, Convert(b, q + 1, Plainly, stop))), term))
    {
      ghost var a1, value, e := a[..], Convert(b, q + 1, Plainly, StopChar(b[q])), StopAt(b, q + 1, StopChar(b[q]));
      ok, j := ParseAttributeValue(b, q + 1, a[q], term);
      assert ok ==> j == e + 1 && Ends(b, j, term) && a[j] == At(b, j);
      if ok {
        ok := !IsStart(a[j]);
        AttributeDone(low, a1, a[..], s, q, j, stack, fs, name, value);
        stack := WithSlot(stack, Slot(s, q + 1));
      }
    }

    /** An attribute. */
    method ParseAttribute(ghost b: seq<Byte>, s: nat, ghost fs: seq<Frame>, ghost term: nat) returns (phase: Phase, j: nat)
      requires Tracks(b, s, fs, term) && NoKids(stack)
      modifies this, a
      ensures Mirrors(b, StepAttr(b, s, fs), phase, j, term)
    {
      ghost var name := b[s..s + SymbolRun(b, s)];
      var ok, q := ParseAttributeName(b, s, term);
      phase, j := Bad, q;
      if ok {
        ok, j := FinishAttribute(b, s, q, name, fs, term);
        AttributeStep(b, s, q, fs);
        phase := if ok then InAttrs else Bad;
      }
    }

    /** The input has ended; every element must have been closed. */
    method Finish(ghost b: seq<Byte>, ghost fs: seq<Frame>, ghost term: nat) returns (phase: Phase)
      requires a.Length == |b| && Built(low, a[..], stack, fs)
      ensures Mirrors(b, EndOfInput(fs), phase, 0, term)
    {
      assert OpenMarked(a[..], stack[0], fs[0], true);
      phase := if |stack| == 1 then Finished else Bad;
    }

    method FinishAt(ghost b: seq<Byte>, i: nat, ghost fs: seq<Frame>, ghost term: nat) returns (phase: Phase)
      requires Tracks(b, i, fs, term)
      ensures Mirrors(b, EndOfInput(fs), phase, 0, term)
    {
      assert a[..i] <= a[..];
      BuiltMore(low, a[..i], a[..], stack, fs);
      phase := Finish(b, fs, term);
    }

    /** Between constructs. */
    method ParseMain(ghost b: seq<Byte>, i: nat, ghost fs: seq<Frame>, fragment: bool, ghost term: nat) returns (phase: Phase, j: nat)
      requires Tracks(b, i, fs, term)
      modifies this, a
      ensures Mirrors(b, StepMain(b, i, fs, fragment), phase, j, term)
    {
      j := i;
      if a[i] == 0 {
        phase := FinishAt(b, i, fs, term);
      } else if a[i] == LT {
        phase, j := OpenBracket(b, i, fs, term);
      } else if |stack| > 1 || fragment {
        phase, j := ParseText(b, i, fs, term);
      } else {
        phase, j := SkipText(b, i, fs, fragment, term);
      }
    }

    /** Text outside the document element is skipped. */
    method SkipText(ghost b: seq<Byte>, i: nat, ghost fs: seq<Frame>, ghost fragment: bool, ghost term: nat) returns (phase: Phase, j: nat)
      requires Tracks(b, i, fs, term) && b[i] != 0 && b[i] != LT && |fs| == 1 && !fragment
      modifies this, a
      ensures Mirrors(b, StepMain(b, i, fs, fragment), phase, j, term)
    {
      j := ScanToBracket(b, i, term);
      assert a[..i] <= a[..j];
      BuiltMore(low, a[..i], a[..j], stack, fs);
      if a[j] == 0 {
        phase := FinishAt(b, j, fs, term);
      } else {
        phase, j := OpenBracket(b, j, fs, term);
      }
    }

    method OpenBracket(ghost b: seq<Byte>, i: nat, ghost fs: seq<Frame>, ghost term: nat) returns (phase: Phase, j: nat)
      requires Tracks(b, i, fs, term) && b[i] == LT
      ensures Mirrors(b, Tag(i + 1, fs), phase, j, term)
    {
      assert a[..i] <= a[..i + 1];
      BuiltMore(low, a[..i], a[..i + 1], stack, fs);
      phase, j := InTag, i + 1;
    }

    /** Text outside the root element is skipped. */
    method ScanToBracket(ghost b: seq<Byte>, i: nat, ghost term: nat) returns (j: nat)
      requires a.Length == |b| && Ends(b, i, term) && Same(a[..], b, i)
      ensures j == StopAt(b, i, StopChar(LT)) && Ends(b, j, term)
    {
      j := i;
      while a[j] != 0 && a[j] != LT
        invariant i <= j && Ends(b, j, term) && StopAt(b, j, StopChar(LT)) == StopAt(b, i, StopChar(LT))
        decreases term - j
      {
        j := j + 1;
      }
    }

    /** Character data becomes a node; the bracket behind it is read with it. */
    method ParseText(ghost b: seq<Byte>, i: nat, ghost fs: seq<Frame>, ghost term: nat) returns (phase: Phase, j: nat)
      requires Tracks(b, i, fs, term)
      modifies this, a
      ensures var e := StopAt(b, i, StopChar(LT));
        var next := if At(b, e) == LT then e + 1 else e;
        var grown := AddKid(fs, Chars(Convert(b, i, Plainly, StopChar(LT))));
        Mirrors(b, if At(b, next) == 0 then EndOfInput(grown) else Tag(next, grown), phase, j, term)
    {
      ghost var was, text := a[..], Convert(b, i, Plainly, StopChar(LT));
      j := ConvertAt(b, i, term);
      ghost var grown := AddKid(fs, Chars(text));
      assert was[..i] <= a[..];
      TextBuilt(low, was[..i], a[..], stack, fs, text);
      if a[j] == 0 {
        stack := WithKid(stack, Text(i));
        phase := Finish(b, grown, term);
      } else {
        assert was[..i] <= a[..j];
        TextBuilt(low, was[..i], a[..j], stack, fs, text);
        stack := WithKid(stack, Text(i));
        phase := InTag;
      }
    }

    /** Convert the text at i up to the next bracket. */
    method ConvertAt(ghost b: seq<Byte>, i: nat, ghost term: nat) returns (j: nat)
      requires a.Length == |b| && Ends(b, i, term) && Same(a[..], b, i)
      modifies a
      ensures var e := StopAt(b, i, StopChar(LT));
        && e < |b| && j == (if b[e] == LT then e + 1 else e) && j < |b| && a[j] == b[j]
        && (b[j] != 0 ==> Ends(b, j, term) && Same(a[..], b, j) && CString(a[..j], i, Convert(b, i, Plainly, StopChar(LT))))
        && CString(a[..], i, Convert(b, i, Plainly, StopChar(LT))) && a[..i] == old(a[..i])
    {
      ghost var was := a[..];
      ghost var e, text := TextFound(was, b, i, StopChar(LT), term);
      j := StrconvPcdata(a, i, false, false, true, term);
      CharactersDone(a[..], was, b, i, e, text, term);
    }

    /** One step, whatever the phase. */
    method ParseStep(ghost b: seq<Byte>, ghost st: State, phase0: Phase, i: nat, fragment: bool, ghost term: nat) returns (phase: Phase, j: nat)
      requires Live(st) && Mirrors(b, st, phase0, i, term)
      modifies this, a
      ensures Sane(st) && Mirrors(b, Step(b, st, fragment), phase, j, term)
    {
      match phase0
      case InMain => phase, j := ParseMain(b, i, st.stack, fragment, term);
      case InTag => phase, j := ParseTag(b, i, st.stack, term);
      case InAttrs => phase, j := ParseAttributes(b, i, st.stack, term);
    }

    /** Parse the whole buffer. The nodes point at strings that stand in it. */
    method ParseTree(fragment: bool) returns (ok: bool, kids: seq<Mark>)
      requires a.Length > 0 && a[a.Length - 1] == 0 && stack == [Open(0, [], [])] && OrderLaws(low) && low(stack, [])
      modifies this, a
      ensures var r := Run(old(a[..]), Main(0, [Frame([], [], [])]), fragment);
        ok == r.Done? && (ok ==> AllMarked(a[..], kids, r.kids) && |stack| == 1 && kids == stack[0].kids && low(stack, a[..]))
    {
      ghost var b, term, st := a[..], |a[..]| - 1, Main(0, [Frame([], [], [])]);
      var phase, i := InMain, 0;
      while phase != Finished && phase != Bad
        invariant Sane(st) && Mirrors(b, st, phase, i, term)
        invariant Run(b, st, fragment) == Run(b, Main(0, [Frame([], [], [])]), fragment)
        decreases if Live(st) then |b| + 2 - st.i else 0
      {
        phase, i := ParseStep(b, st, phase, i, fragment, term);
        if Live(Step(b, st, fragment)) {
          StepAdvances(b, st, fragment);
        }
        st := Step(b, st, fragment);
      }
      ok := phase == Finished;
      kids := if ok then stack[0].kids else [];
    }
  }

  /** Where the text ends, whatever has become of the buffer before it. */
  lemma StopAhead(was: seq<Byte>, b: seq<Byte>, start: nat, stop: Stop, term: nat)
    requires Same(was, b, start) && Ends(b, start, term)
    ensures StopAt(was, start, stop) == StopAt(b, start, stop) <= term
  {
    StopSame(was, b, start, stop);
    StopFirst(b, start, term, stop);
  }

  /** Where the text ends and what it becomes. */
  lemma TextFound(was: seq<Byte>, b: seq<Byte>, start: nat, stop: Stop, term: nat) returns (e: nat, text: seq<Byte>)
    requires Same(was, b, start) && Ends(b, start, term) && Suits(stop, Plainly)
    ensures e == StopAt(was, start, stop) == StopAt(b, start, stop) <= term
    ensures text == Convert(was, start, Plainly, stop) == Convert(b, start, Plainly, stop)
  {
    StopAhead(was, b, start, stop, term);
    ConvertSame(was, b, start, Plainly, stop);
    e, text := StopAt(b, start, stop), Convert(b, start, Plainly, stop);
  }

  lemma SettledValue(a: seq<Byte>, was: seq<Byte>, b: seq<Byte>, start: nat, e: nat, text: seq<Byte>, term: nat)
    requires Same(was, b, start) && start <= e <= term < |b| && Settled(a, was, start, e, text)
    ensures Same(a, b, e + 1) && a[..start] == was[..start] && CString(a[..e + 1], start, text) && (a[e] == b[e] || a[e] == 0)
  {
    SettledStands(a, was, start, e, text, e + 1);
    SettledSame(a, was, b, start, e, text);
  }

  /** After a value has been settled. */
  lemma ValueRead(a: seq<Byte>, was: seq<Byte>, b: seq<Byte>, start: nat, quote: Byte, term: nat, ok: bool, j: nat)
    requires Same(was, b, start) && Ends(b, start, term) && quote in {QUOT, APOS}
    requires var e := StopAt(was, start, StopChar(quote));
      e < |was| && ok == (was[e] == quote) && (ok ==> j == e + 1 && Settled(a, was, start, e, Convert(was, start, Plainly, StopChar(quote))))
    ensures ok == (At(b, StopAt(b, start, StopChar(quote))) == quote)
    ensures ok ==> j == StopAt(b, start, StopChar(quote)) + 1 && Ends(b, j, term) && Same(a, b, j) && a[..start] == was[..start]
                   && CString(a[..j], start, Convert(b, start, Plainly, StopChar(quote)))
  {
    var e, value := TextFound(was, b, start, StopChar(quote), term);
    assert was[e] == b[e];
    if ok {
      SettledValue(a, was, b, start, e, value, term);
    }
  }

  /** After character data has been settled. */
  lemma CharactersDone(a: seq<Byte>, was: seq<Byte>, b: seq<Byte>, i: nat, e: nat, text: seq<Byte>, term: nat)
    requires Same(was, b, i) && Ends(b, i, term) && i <= e <= term && Settled(a, was, i, e, text)
    ensures var j := if b[e] == LT then e + 1 else e;
      && was[e] == b[e] && a[..i] == was[..i] && CString(a, i, text)
      && (b[e] == LT && e < term ==> Same(a, b, j) && Ends(b, j, term) && CString(a[..j], i, text) && a[j] == b[j])
      && (b[e] == 0 ==> a[e] == 0)
  {
    SettledValue(a, was, b, i, e, text, term);
    assert a[..e + 1] <= a;
    CStringMore(a[..e + 1], a, i, text);
  }

  lemma PrefixesKept(a1: seq<Byte>, a2: seq<Byte>, s: nat, q: nat, j: nat)
    requires |a1| == |a2| && s <= q < j <= |a2| && a1[..q + 1] == a2[..q + 1]
    ensures a1[..s] <= a2[..j] && a1[..q] <= a2[..j]
  {
    assert forall k | 0 <= k < q + 1 :: a1[k] == a1[..q + 1][k] == a2[k];
  }

  lemma AttributeDone(low: (seq<Open>, seq<Byte>) -> bool, a1: seq<Byte>, a2: seq<Byte>, s: nat, q: nat, j: nat, os: seq<Open>, fs: seq<Frame>, name: seq<Byte>, value: seq<Byte>)
    requires |a1| == |a2| && s <= q < j <= |a2| && a1[..q + 1] == a2[..q + 1]
    requires Built(low, a1[..s], os, fs) && NoKids(os) && CString(a1[..q], s, name) && CString(a2[..j], q + 1, value)
    ensures Built(low, a2[..j], WithSlot(os, Slot(s, q + 1)), AddAttr(fs, Attribute(name, value))) && NoKids(WithSlot(os, Slot(s, q + 1)))
  {
    PrefixesKept(a1, a2, s, q, j);
    AttributeBuilt(low, a1[..s], a1[..q], a2[..j], os, fs, name, value);
  }

  /** The step at an attribute whose quote is at q. */
  lemma AttributeStep(b: seq<Byte>, s: nat, q: nat, fs: seq<Frame>)
    requires fs != [] && s + SymbolRun(b, s) <= |b| && q + 1 <= |b|
    requires var e := SkipSpace(b, s + SymbolRun(b, s)); At(b, e) == EQ && q == SkipSpace(b, e + 1) && At(b, q) in {QUOT, APOS}
    ensures var stop := StopChar(b[q]); var e := StopAt(b, q + 1, stop);
      StepAttr(b, s, fs) == if At(b, e) == b[q] && !IsStart(At(b, e + 1))
        then Attrs(e + 1, AddAttr(fs, Attribute(b[s..s + SymbolRun(b, s)], Convert(b, q + 1, Plainly, stop)))) else Failed
  {
  }

  /** A settled string can be found where it starts. */
  lemma SettledStands(a: seq<Byte>, b: seq<Byte>, start: nat, j: nat, text: seq<Byte>, k: nat)
    requires Settled(a, b, start, j, text) && j < k <= |a|
    ensures CString(a[..k], start, text) && a[..start] == b[..start]
  {
  }

  lemma SettledSame(a: seq<Byte>, was: seq<Byte>, b: seq<Byte>, start: nat, j: nat, text: seq<Byte>)
    requires Settled(a, was, start, j, text) && Same(was, b, start)
    ensures Same(a, b, j + 1)
  {
    forall k | j + 1 <= k < |a| ensures a[k] == b[k] {
      assert a[j + 1..][k - j - 1] == was[j + 1..][k - j - 1];
    }
  }

  lemma {:induction false} SlotSpaced(os: seq<Open>, p: seq<Byte>, v: nat, q: seq<Byte>)
    requires NoKids(os) && Spaced(p, Flat(os)) && v < |q| && Behind(p, q, v) && Behind(q[..v], q, |q|)
    ensures Spaced(q, Flat(WithSlot(os, Slot(|p|, v))))
  {
    SlotOffsetsAdded(os, Slot(|p|, v));
    assert q[..v][|p|..] == q[|p|..v] && p <= q[..v];
    SpacedNext(p, q[..v], Flat(os));
    assert q[v..|q|] == q[v..];
    SpacedNext(q[..v], q, Flat(os) + [|p|]);
  }

  function InOrder(): (seq<Open>, seq<Byte>) -> bool {
    (os: seq<Open>, p: seq<Byte>) => Spaced(p, Flat(os))
  }

  /** Strings that are met in preorder obey the laws. */
  lemma InOrderLaws()
    ensures OrderLaws(InOrder())
  {
    var low := InOrder();
    forall os, p, q {:trigger low(os, p), low(os, q)} | p <= q && low(os, p) ensures low(os, q) {
      SpacedMore(p, q, Flat(os));
    }
    forall os, p, q {:trigger low(os, p), low(Pushed(os, |p|), q)} | os != [] && low(os, p) && Behind(p, q, |q|) ensures low(Pushed(os, |p|), q) {
      PushedOffsets(os, |p|);
      assert q[|p|..|q|] == q[|p|..];
      SpacedNext(p, q, Flat(os));
    }
    forall os, p, q {:trigger low(os, p), low(WithKid(os, Text(|p|)), q)} | os != [] && low(os, p) && Behind(p, q, |q|) ensures low(WithKid(os, Text(|p|)), q) {
      KidOffsets(os, Text(|p|));
      assert q[|p|..|q|] == q[|p|..];
      SpacedNext(p, q, Flat(os));
    }
    forall os, p, v: nat, q {:trigger low(os, p), low(WithSlot(os, Slot(|p|, v)), q)} |
      NoKids(os) && low(os, p) && v < |q| && Behind(p, q, v) && Behind(q[..v], q, |q|) ensures low(WithSlot(os, Slot(|p|, v)), q)
    {
      SlotSpaced(os, p, v, q);
    }
    forall os, p {:trigger low(Popped(os), p)} | |os| > 1 && low(os, p) ensures low(Popped(os), p) {
      PoppedOffsets(os);
    }
  }

  /**
   * Parse a zero-terminated buffer: the outcome is that of the machine on the original text, and the strings
   * of the tree stand in the buffer in document order, each terminated before the next one.
   */
  method ParseBuffer(a: array<Byte>, fragment: bool) returns (ok: bool, kids: seq<Mark>)
    requires a.Length > 0 && a[a.Length - 1] == 0
    modifies a
    ensures var r := Run(old(a[..]), Main(0, [Frame([], [], [])]), fragment);
      ok == r.Done? && (ok ==> AllMarked(a[..], kids, r.kids) && Spaced(a[..], AllOffsets(kids)))
  {
    InOrderLaws();
    var parser := new TreeParser(a, InOrder());
    assert parser.stack[..0] == [] && Flat(parser.stack) == [];
    ok, kids := parser.ParseTree(fragment);
    if ok {
      ClosedOffsets(parser.stack, a[..]);
    }
  }

  // Printing and parsing again.

  lemma {:induction false} OkZeroless(x: Xml)
    requires XmlOk(x)
    ensures Zeroless(x)
    decreases x, 0
  {
    if x.Elem? {
      forall k | 0 <= k < |x.attrs| ensures 0 !in x.attrs[k].name && 0 !in x.attrs[k].value {
        assert AttrOk(x.attrs[k]);
      }
      AllOkZeroless(x.kids);
    }
  }

  lemma {:induction false} AllOkZeroless(xs: seq<Xml>)
    requires AllOk(xs)
    ensures AllZeroless(xs)
    decreases xs, 1
  {
    if xs != [] {
      OkZeroless(xs[0]);
      AllOkZeroless(xs[1..]);
      forall k | 0 <= k < |xs| ensures Zeroless(xs[k]) {
        if k > 0 {
          assert xs[k] == xs[1..][k - 1];
        }
      }
    }
  }

  /** The tree that is read from the buffer after parsing a print of it, in place, is the tree that was printed. */
  method Reparse(a: array<Byte>, ghost xs: seq<Xml>, fragment: bool) returns (ok: bool, kids: seq<Mark>)
    requires AllOk(xs) && (fragment || AllElems(xs)) && a[..] == PrintAll(xs) + [0]
    modifies a
    ensures ok && ReadAll(a[..], kids) == xs
  {
    RoundTrip(a[..], xs, fragment);
    AllOkZeroless(xs);
    assert a[a.Length - 1] == a[..][|PrintAll(xs)|] == 0;
    ok, kids := ParseBuffer(a, fragment);
    AllMarkedRead(a[..], kids, xs);
  }
}
