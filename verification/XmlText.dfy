/** Escaping text on output, and why parsing it gives the text back. */
module XmlText {
  import opened Sequences
  import opened Utf
  import opened TextSpec
  import opened Writer

  /** Characters that are written as references; those of attributes include the quote and line ends. */
  predicate IsSpecial(c: Byte, attr: bool) {
    c == AMP || c == LT || c == GT || (attr && c == QUOT)
    || (c < 32 && c != TAB && (attr || (c != LF && c != CR)))
  }

  function EscapedChar(c: Byte, attr: bool): (r: seq<Byte>)
    ensures r != []
  {
    if !IsSpecial(c, attr) then [c]
    else if c == AMP then [AMP, 97, 109, 112, SEMI]
    else if c == LT then [AMP, 108, 116, SEMI]
    else if c == GT then [AMP, 103, 116, SEMI]
    else if c == QUOT then [AMP, 113, 117, 111, 116, SEMI]
    else [AMP, HASH, 48 + c / 10, 48 + c % 10, SEMI]
  }

  function Escaped(s: seq<Byte>, attr: bool): seq<Byte> {
    if s == [] then [] else EscapedChar(s[0], attr) + Escaped(s[1..], attr)
  }

  lemma {:induction false} EscapedAppend(a: seq<Byte>, b: seq<Byte>, attr: bool)
    ensures Escaped(a + b, attr) == Escaped(a, attr) + Escaped(b, attr)
  {
    if a == [] {
      assert a + b == b;
    } else {
      assert (a + b)[1..] == a[1..] + b;
      EscapedAppend(a[1..], b, attr);
      AppendAssociative(EscapedChar(a[0], attr), Escaped(a[1..], attr), Escaped(b, attr));
    }
  }

  lemma {:induction false} EscapedUsual(s: seq<Byte>, attr: bool)
    requires forall i | 0 <= i < |s| :: !IsSpecial(s[i], attr)
    ensures Escaped(s, attr) == s
  {
    if s != [] {
      EscapedUsual(s[1..], attr);
    }
  }

  lemma {:induction false} AsciiWhole(s: seq<Byte>)
    requires forall i | 0 <= i < |s| :: s[i] < 128
    ensures Whole(s)
  {
    if s != [] {
      AsciiWhole(s[1..]);
    }
  }

  /** Write text with references: runs of usual characters at once, special ones as references. */
  method TextOutputEscaped(w: BufferedWriter, s: seq<Byte>, attr: bool)
    requires w.Valid() && w.Accepts(s) && 0 !in s
    modifies w, w.buffer
    ensures w.Valid() && w.Contents() == old(w.Contents()) + Escaped(s, attr)
  {
    var i := 0;
    ghost var before := w.Contents();
    assert s[..0] == [] && s[0..] == s && before + [] == before;
    while i < |s|
      invariant i <= |s| && w.Valid() && w.Accepts(s[i..])
      invariant w.Contents() == before + Escaped(s[..i], attr)
      decreases |s| - i
    {
      var j := OutputRun(w, s, i, attr);
      EscapedGrows(before, s, i, j, attr);
      i := j;
    }
    assert s[..i] == s;
  }

  /** A run of usual characters and the special one behind it, if there is one. */
  method OutputRun(w: BufferedWriter, s: seq<Byte>, i: nat, attr: bool) returns (j: nat)
    requires i < |s| && w.Valid() && w.Accepts(s[i..])
    modifies w, w.buffer
    ensures i < j <= |s| && w.Valid() && w.Accepts(s[j..]) && w.Contents() == old(w.Contents()) + Escaped(s[i..j], attr)
  {
    ghost var before := w.Contents();
    j := ScanUsual(s, i, attr);
    assert w.Accepts(s[i..j]) && w.Accepts(s[j..]) by {
      RunWhole(s, i, j, attr, w.encoding);
    }
    w.WriteBuffer(s[i..j]);
    assert w.Contents() == before + s[i..j];
    if j < |s| {
      assert before + s[i..j] + Escaped(s[j..j + 1], attr) == before + Escaped(s[i..j + 1], attr) by {
        PartsEscaped(before, s, i, j, attr);
      }
      OutputSpecial(w, s, j, attr);
      j := j + 1;
    }
  }

  lemma PartsEscaped(before: seq<Byte>, s: seq<Byte>, i: nat, j: nat, attr: bool)
    requires i <= j < |s| && Escaped(s[i..j], attr) == s[i..j]
    ensures before + s[i..j] + Escaped(s[j..j + 1], attr) == before + Escaped(s[i..j + 1], attr)
  {
    assert s[i..j + 1] == s[i..j] + s[j..j + 1];
    EscapedAppend(s[i..j], s[j..j + 1], attr);
    AppendAssociative(before, Escaped(s[i..j], attr), Escaped(s[j..j + 1], attr));
  }

  /** The end of a run of usual characters. */
  method ScanUsual(s: seq<Byte>, i: nat, attr: bool) returns (j: nat)
    requires i <= |s|
    ensures i <= j <= |s| && Escaped(s[i..j], attr) == s[i..j] && (j < |s| ==> IsSpecial(s[j], attr))
  {
    j := i;
    while j < |s| && !IsSpecial(s[j], attr)
      invariant i <= j <= |s| && forall k | i <= k < j :: !IsSpecial(s[k], attr)
    {
      j := j + 1;
    }
    EscapedUsual(s[i..j], attr);
  }

  /** One special character. */
  method OutputSpecial(w: BufferedWriter, s: seq<Byte>, i: nat, attr: bool)
    requires i < |s| && w.Valid() && w.Accepts(s[i..]) && IsSpecial(s[i], attr)
    modifies w, w.buffer
    ensures w.Valid() && w.Accepts(s[i + 1..]) && w.Contents() == old(w.Contents()) + Escaped(s[i..i + 1], attr)
  {
    RunWhole(s, i, i + 1, attr, w.encoding);
    EscapedAscii(s[i], attr);
    assert s[i..i + 1] == [s[i]] && Escaped([s[i]], attr) == EscapedChar(s[i], attr) + [];
    w.Write(EscapedChar(s[i], attr));
  }

  lemma EscapedGrows(before: seq<Byte>, s: seq<Byte>, i: nat, j: nat, attr: bool)
    requires i <= j <= |s|
    ensures before + Escaped(s[..i], attr) + Escaped(s[i..j], attr) == before + Escaped(s[..j], attr)
  {
    assert s[..j] == s[..i] + s[i..j];
    EscapedAppend(s[..i], s[i..j], attr);
    AppendAssociative(before, Escaped(s[..i], attr), Escaped(s[i..j], attr));
  }

  lemma EscapedAscii(c: Byte, attr: bool)
    requires IsSpecial(c, attr)
    ensures |EscapedChar(c, attr)| <= 6 && Whole(EscapedChar(c, attr))
  {
    AsciiWhole(EscapedChar(c, attr));
  }

  /** A run that ends before a special character, or is one, is whole. */
  lemma RunWhole(s: seq<Byte>, i: nat, j: nat, attr: bool, e: Encoding)
    requires i <= j <= |s| && (e.Native? || Whole(s[i..]))
    requires j < |s| ==> IsSpecial(s[j], attr) || (j == i + 1 && IsSpecial(s[i], attr))
    ensures !e.Native? ==> Whole(s[i..j]) && Whole(s[j..])
  {
    if !e.Native? {
      if j < |s| && !IsSpecial(s[j], attr) {
        assert s[i..][1..] == s[j..] && s[i..j] == [s[i]];
        AsciiWhole([s[i]]);
        assert PieceUtf8(s[i..]).used == 1;
      } else {
        WholeCut(s[i..], j - i);
        assert s[i..][..j - i] == s[i..j] && s[i..][j - i..] == s[j..];
      }
    }
  }

  // Parsing it again.

  const Plainly: Options := Options(true, false, Kept)

  predicate CharAt(b: seq<Byte>, i: nat, r: seq<Byte>, k: nat) {
    i + k < |b| && k < |r| && b[i + k] == r[k]
  }

  /** The text r stands in b at i. */
  predicate StandsAt(b: seq<Byte>, i: nat, r: seq<Byte>) {
    i + |r| <= |b| && forall k: nat {:trigger CharAt(b, i, r, k)} | k < |r| :: CharAt(b, i, r, k)
  }

  lemma StandsSplit(b: seq<Byte>, i: nat, x: seq<Byte>, y: seq<Byte>)
    ensures StandsAt(b, i, x + y) <==> StandsAt(b, i, x) && StandsAt(b, i + |x|, y)
  {
    var r := x + y;
    if StandsAt(b, i, r) {
      forall k: nat {:trigger CharAt(b, i, x, k)} | k < |x| ensures CharAt(b, i, x, k) {
        assert CharAt(b, i, r, k) && r[k] == x[k];
      }
      forall k: nat {:trigger CharAt(b, i + |x|, y, k)} | k < |y| ensures CharAt(b, i + |x|, y, k) {
        assert CharAt(b, i, r, |x| + k) && r[|x| + k] == y[k];
      }
    }
    if StandsAt(b, i, x) && StandsAt(b, i + |x|, y) {
      forall k: nat {:trigger CharAt(b, i, r, k)} | k < |r| ensures CharAt(b, i, r, k) {
        if k < |x| {
          assert CharAt(b, i, x, k);
        } else {
          assert CharAt(b, i + |x|, y, k - |x|);
        }
      }
    }
  }

  /** The k-th character of what stands at i. */
  lemma StandsChar(b: seq<Byte>, i: nat, r: seq<Byte>, k: nat)
    requires StandsAt(b, i, r) && k < |r|
    ensures i + k < |b| && b[i + k] == r[k] == At(b, i + k)
  {
    assert CharAt(b, i, r, k);
  }

  /** A character of the text, as written, is read as one piece. */
  lemma CharBack(b: seq<Byte>, i: nat, c: Byte, attr: bool)
    requires StandsAt(b, i, EscapedChar(c, attr)) && c != 0
    ensures i < |b| && b[i] != 0 && b[i] != LT && (attr ==> b[i] != QUOT)
    ensures NextPiece(b, i, Plainly) == Rewrite(|EscapedChar(c, attr)|, [c])
  {
    var r := EscapedChar(c, attr);
    StandsChar(b, i, r, 0);
    if IsSpecial(c, attr) {
      StandsChar(b, i, r, 1);
      StandsChar(b, i, r, 2);
      StandsChar(b, i, r, 3);
      if c < 32 {
        StandsChar(b, i, r, 4);
        NumberBack(b, i, c);
      } else {
        var k := if c == AMP then 0 else if c == GT then 2 else if c == LT then 3 else 4;
        assert r == [AMP] + NameOf(k);
        StandsSplit(b, i, [AMP], NameOf(k));
        NameBack(b, i, k);
      }
    }
  }

  lemma NumberBack(b: seq<Byte>, i: nat, c: Byte)
    requires 0 < c < 32 && i + 5 <= |b| && b[i] == AMP && b[i + 1] == HASH && b[i + 2] == 48 + c / 10 && b[i + 3] == 48 + c % 10 && b[i + 4] == SEMI
    ensures NumberPiece(b, i) == Rewrite(5, [c])
  {
    assert DigitRun(b, i + 4, false) == 0;
    assert DigitRun(b, i + 3, false) == 1;
    assert DigitRun(b, i + 2, false) == 2;
    assert RunValue(b, i + 2, 0, false) == 0;
    assert RunValue(b, i + 2, 1, false) == c / 10;
    assert RunValue(b, i + 2, 2, false) == c;
    assert Utf8Any(c) == [] + [c];
  }

  lemma NameBack(b: seq<Byte>, i: nat, k: nat)
    requires k in {0, 2, 3, 4} && i < |b| && b[i] == AMP && StandsAt(b, i + 1, NameOf(k))
    ensures NamePiece(b, i) == Rewrite(|NameOf(k)| + 1, [CharOf(k)])
  {
    StandsChar(b, i + 1, NameOf(k), 0);
    StandsChar(b, i + 1, NameOf(k), 1);
    FullMatch(b, i + 1, NameOf(k));
    assert BestName(b, i + 1) == k;
  }

  lemma {:induction false} FullMatch(b: seq<Byte>, i: nat, name: seq<Byte>)
    requires StandsAt(b, i, name)
    ensures Common(b, i, name) == |name|
    decreases |name|
  {
    if name != [] {
      StandsSplit(b, i, [name[0]], name[1..]);
      assert name == [name[0]] + name[1..];
      StandsChar(b, i, [name[0]], 0);
      FullMatch(b, i + 1, name[1..]);
    }
  }

  function StopFor(attr: bool): (stop: Stop)
    ensures Suits(stop, Plainly)
  {
    StopChar(if attr then QUOT else LT)
  }

  /** Names a place and a character; the facts about reading them are only looked at where they are named. */
  predicate Spot(i: nat, c: Byte) {
    true
  }

  /** What is read from a place, and where reading stops, goes on behind each character as written. */
  ghost predicate ReadsOn(read: nat -> seq<Byte>, stop: nat -> nat, b: seq<Byte>, attr: bool) {
    forall i: nat, c: Byte {:trigger Spot(i, c)} | Spot(i, c) && c != 0 && StandsAt(b, i, EscapedChar(c, attr)) ::
      read(i) == [c] + read(i + |EscapedChar(c, attr)|) && stop(i) == stop(i + |EscapedChar(c, attr)|)
  }

  lemma {:induction false} CharsRead(read: nat -> seq<Byte>, stop: nat -> nat, b: seq<Byte>, i: nat, s: seq<Byte>, attr: bool)
    requires ReadsOn(read, stop, b, attr) && 0 !in s && StandsAt(b, i, Escaped(s, attr))
    ensures read(i) == s + read(i + |Escaped(s, attr)|) && stop(i) == stop(i + |Escaped(s, attr)|)
    decreases |s|
  {
    if s == [] {
      assert [] + read(i) == read(i);
    } else {
      StandsSplit(b, i, EscapedChar(s[0], attr), Escaped(s[1..], attr));
      assert Spot(i, s[0]);
      CharsRead(read, stop, b, i + |EscapedChar(s[0], attr)|, s[1..], attr);
      ConsAppend(s, read(i + |Escaped(s, attr)|));
    }
  }

  lemma ConsAppend(s: seq<Byte>, t: seq<Byte>)
    requires s != []
    ensures [s[0]] + (s[1..] + t) == s + t
  {
    assert s == [s[0]] + s[1..];
    AppendAssociative([s[0]], s[1..], t);
  }

  function ReadFrom(b: seq<Byte>, i: nat, attr: bool): seq<Byte> {
    if i <= |b| then Convert(b, i, Plainly, StopFor(attr)) else []
  }

  function StopFrom(b: seq<Byte>, i: nat, attr: bool): nat {
    if i <= |b| then StopAt(b, i, StopFor(attr)) else i
  }

  lemma CharStep(b: seq<Byte>, i: nat, c: Byte, attr: bool)
    requires StandsAt(b, i, EscapedChar(c, attr)) && c != 0
    ensures var n := |EscapedChar(c, attr)|;
      ReadFrom(b, i, attr) == [c] + ReadFrom(b, i + n, attr) && StopFrom(b, i, attr) == StopFrom(b, i + n, attr)
  {
    var n := |EscapedChar(c, attr)|;
    CharReads(b, i, c, attr);
    StepReads(b, i, n, [c], StopFor(attr));
  }

  lemma CharReads(b: seq<Byte>, i: nat, c: Byte, attr: bool)
    requires StandsAt(b, i, EscapedChar(c, attr)) && c != 0
    ensures i < |b| && b[i] != 0 && !EndsAt(b, i, StopFor(attr)) && NextPiece(b, i, Plainly) == Rewrite(|EscapedChar(c, attr)|, [c])
  {
    CharBack(b, i, c, attr);
  }

  /** A step that is known. */
  lemma StepReads(b: seq<Byte>, i: nat, n: nat, out: seq<Byte>, stop: Stop)
    requires i < |b| && b[i] != 0 && !EndsAt(b, i, stop) && Suits(stop, Plainly) && NextPiece(b, i, Plainly) == Rewrite(n, out)
    ensures i + n <= |b| && Convert(b, i, Plainly, stop) == out + Convert(b, i + n, Plainly, stop) && StopAt(b, i, stop) == StopAt(b, i + n, stop)
  {
    ConvertStep(b, i, Plainly, stop);
  }

  /** Escaped text, followed by its delimiter or the terminator, is converted back to the text. */
  lemma EscapeBack(b: seq<Byte>, i: nat, s: seq<Byte>, attr: bool)
    requires 0 !in s && StandsAt(b, i, Escaped(s, attr))
    requires At(b, i + |Escaped(s, attr)|) == 0 || EndsAt(b, i + |Escaped(s, attr)|, StopFor(attr))
    ensures Convert(b, i, Plainly, StopFor(attr)) == s
    ensures StopAt(b, i, StopFor(attr)) == i + |Escaped(s, attr)|
  {
    var read, stop := (j: nat) => ReadFrom(b, j, attr), (j: nat) => StopFrom(b, j, attr);
    CharsReadOn(read, stop, b, attr);
    CharsRead(read, stop, b, i, s, attr);
    NothingRead(b, i + |Escaped(s, attr)|, attr);
    assert s + [] == s;
  }

  lemma CharsReadOn(read: nat -> seq<Byte>, stop: nat -> nat, b: seq<Byte>, attr: bool)
    requires forall j :: read(j) == ReadFrom(b, j, attr)
    requires forall j :: stop(j) == StopFrom(b, j, attr)
    ensures ReadsOn(read, stop, b, attr)
  {
    forall j: nat, c: Byte {:trigger Spot(j, c)} | Spot(j, c) && c != 0 && StandsAt(b, j, EscapedChar(c, attr))
      ensures read(j) == [c] + read(j + |EscapedChar(c, attr)|) && stop(j) == stop(j + |EscapedChar(c, attr)|)
    {
      CharStep(b, j, c, attr);
    }
  }

  lemma NothingRead(b: seq<Byte>, i: nat, attr: bool)
    requires i <= |b| && (At(b, i) == 0 || EndsAt(b, i, StopFor(attr)))
    ensures ReadFrom(b, i, attr) == [] && StopFrom(b, i, attr) == i
  {
  }
}
