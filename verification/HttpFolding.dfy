/**
 * Folded header values. Section 2.2 of RFC 2616 gives a line break with the white space behind it the meaning of one space;
 * the parser joins the parts without it. Here is when this changes nothing.
 */
module HttpFolding {
  import opened Sequences
  import opened HttpParser
  import opened HttpGrammar

  // What the standard says.

  function SpacedTexts(fs: seq<Fold>): seq<Byte> {
    if fs == [] then [] else SpacedTexts(fs[..|fs| - 1]) + [SP] + fs[|fs| - 1].text
  }

  function SpacedHeader(f: Field): Header {
    Header(f.name, f.first + SpacedTexts(f.folds))
  }

  function SpacedHeaders(fs: seq<Field>): seq<Header> {
    seq(|fs|, i requires 0 <= i < |fs| => SpacedHeader(fs[i]))
  }

  function SpacedMeaning(w: Layout): Req {
    Meaning(w).(headers := SpacedHeaders(w.fields))
  }

  lemma {:induction false} SpacesCount(fs: seq<Fold>)
    ensures |SpacedTexts(fs)| == |FoldTexts(fs)| + |fs|
  {
    if fs != [] {
      SpacesCount(fs[..|fs| - 1]);
    }
  }

  /** The value that is returned has its spaces exactly if the field is not folded. */
  lemma HeaderExact(f: Field)
    ensures HeaderOf(f) == SpacedHeader(f) <==> f.folds == []
  {
    SpacesCount(f.folds);
  }

  predicate Unfolded(w: Layout) {
    AllUnfolded(w.fields)
  }

  predicate AllUnfolded(fs: seq<Field>) {
    forall i | 0 <= i < |fs| :: fs[i].folds == []
  }

  lemma MeaningExact(w: Layout)
    ensures Meaning(w) == SpacedMeaning(w) <==> Unfolded(w)
  {
    var a, b := Headers(w.fields), SpacedHeaders(w.fields);
    forall i | 0 <= i < |w.fields| ensures a[i] == b[i] <==> w.fields[i].folds == [] {
      HeaderExact(w.fields[i]);
    }
    assert Unfolded(w) ==> a == b;
  }

  // What the caller sees of it.

  predicate IsBlank(c: Byte) {
    c == SP || c == HT
  }

  predicate FoldAt(s: seq<Byte>, j: int) {
    0 <= j < |s| - 1 && s[j] == LF && IsBlank(s[j + 1])
  }

  /** Some line begins with a space or a tab. */
  ghost predicate Folded(s: seq<Byte>) {
    exists j :: FoldAt(s, j)
  }

  predicate EndsLine(s: seq<Byte>) {
    s != [] && s[|s| - 1] == LF
  }

  predicate StartsBlank(s: seq<Byte>) {
    s != [] && IsBlank(s[0])
  }

  lemma FoldedAppend(a: seq<Byte>, b: seq<Byte>)
    ensures Folded(a + b) <==> Folded(a) || Folded(b) || (EndsLine(a) && StartsBlank(b))
  {
    var s := a + b;
    if Folded(a) {
      var j :| FoldAt(a, j);
      assert FoldAt(s, j);
    }
    if Folded(b) {
      var j :| FoldAt(b, j);
      assert FoldAt(s, |a| + j);
    }
    if EndsLine(a) && StartsBlank(b) {
      assert FoldAt(s, |a| - 1);
    }
    if Folded(s) {
      var j :| FoldAt(s, j);
      assert j + 1 < |a| ==> FoldAt(a, j);
      assert j >= |a| ==> FoldAt(b, j - |a|);
    }
  }

  /** A line has its only line feed at its end. */
  lemma LineUnfolded(s: seq<Byte>)
    requires LF !in s
    ensures !Folded(s + [CR, LF]) && EndsLine(s + [CR, LF])
  {
    var r := s + [CR, LF];
    forall j ensures !FoldAt(r, j) {
      assert 0 <= j < |s| ==> r[j] in s;
    }
  }

  lemma NoLineFeed(a: seq<Byte>)
    requires AllToken(a) || AllText(a) || AllDigit(a) || AllSpace(a)
    ensures LF !in a
  {
  }

  lemma LineOfRequest(w: Layout)
    requires WellFormed(w)
    ensures !Folded(PrintLine(w)) && EndsLine(PrintLine(w))
  {
    NoLineFeed(w.verb);
    NoLineFeed(w.uri);
    NoLineFeed(w.major);
    NoLineFeed(w.minor);
    LineUnfolded(w.verb + [SP] + w.uri + [SP] + [72, 84, 84, 80, SLASH] + w.major + [DOT] + w.minor);
  }

  lemma LineOfFold(f: Fold)
    requires FoldOk(f)
    ensures !Folded(PrintFold(f)) && EndsLine(PrintFold(f)) && StartsBlank(PrintFold(f))
  {
    NoLineFeed(f.space);
    NoLineFeed(f.text);
    LineUnfolded(f.space + f.text);
    assert PrintFold(f)[0] == f.space[0];
  }

  lemma {:induction false} LinesOfFolds(fs: seq<Fold>)
    requires forall i | 0 <= i < |fs| :: FoldOk(fs[i])
    ensures fs != [] ==> StartsBlank(PrintFolds(fs)) && EndsLine(PrintFolds(fs))
  {
    if fs != [] {
      var init, last := fs[..|fs| - 1], fs[|fs| - 1];
      LinesOfFolds(init);
      LineOfFold(last);
    }
  }

  lemma LinesOfField(f: Field)
    requires FieldOk(f)
    ensures EndsLine(PrintField(f)) && !StartsBlank(PrintField(f)) && (Folded(PrintField(f)) <==> f.folds != [])
  {
    var head := f.name + [COLON, SP] + f.first;
    NoLineFeed(f.name);
    NoLineFeed(f.first);
    LineUnfolded(head);
    LinesOfFolds(f.folds);
    FoldedAppend(head + [CR, LF], PrintFolds(f.folds));
    assert PrintField(f)[0] == f.name[0];
    if f.folds == [] {
      NothingFolded();
    }
  }

  lemma NothingFolded()
    ensures !Folded([])
  {
  }

  lemma LastUnfolded(fs: seq<Field>)
    requires fs != []
    ensures AllUnfolded(fs) <==> AllUnfolded(fs[..|fs| - 1]) && fs[|fs| - 1].folds == []
  {
    assert forall i | 0 <= i < |fs| - 1 :: fs[..|fs| - 1][i] == fs[i];
  }

  lemma {:induction false} LinesOfFields(fs: seq<Field>)
    requires forall i | 0 <= i < |fs| :: FieldOk(fs[i])
    ensures !StartsBlank(PrintFields(fs)) && (fs != [] ==> EndsLine(PrintFields(fs)))
    ensures Folded(PrintFields(fs)) <==> !AllUnfolded(fs)
  {
    if fs == [] {
      NothingFolded();
    } else {
      var init, last := fs[..|fs| - 1], fs[|fs| - 1];
      LinesOfFields(init);
      LinesOfField(last);
      FoldedAppend(PrintFields(init), PrintField(last));
      LastUnfolded(fs);
    }
  }

  /** A request shows its folds: they are the lines that begin with a space or a tab. */
  lemma FoldsSeen(w: Layout)
    requires WellFormed(w)
    ensures Folded(Print(w)) <==> !Unfolded(w)
  {
    LineOfRequest(w);
    LinesOfFields(w.fields);
    FoldedAppend(PrintLine(w), PrintFields(w.fields));
    FoldedAppend(PrintLine(w) + PrintFields(w.fields), [CR, LF]);
    LineUnfolded([]);
    assert [] + [CR, LF] == [CR, LF];
  }

  /** The header values of an accepted request have the spaces of the standard exactly if none of its lines begins with a space or a tab. */
  lemma FoldingExact(s: seq<Byte>, q: Req, k: nat, w: Layout)
    requires Feed(MethodStart, Start(), s) == Outcome(Good, Newline3, q, k) && WellFormed(w) && k <= |s| && Print(w) == s[..k]
    ensures q == SpacedMeaning(w) <==> !Folded(s[..k])
  {
    WrittenAccepted(w, s, Meaning(w), k);
    FoldsSeen(w);
    MeaningExact(w);
  }

  /** A request that is accepted and has the meaning of the standard is one that is written without folds. */
  lemma StandardAccepted(s: seq<Byte>, q: Req, k: nat)
    ensures Feed(MethodStart, Start(), s) == Outcome(Good, Newline3, q, k)
            && (exists w :: WellFormed(w) && k <= |s| && Print(w) == s[..k] && q == SpacedMeaning(w))
            <==> (exists w :: Writes(w, s, q, k)) && !Folded(s[..k])
  {
    AcceptedExactly(s, q, k);
    forall w | Feed(MethodStart, Start(), s) == Outcome(Good, Newline3, q, k) && WellFormed(w) && k <= |s| && Print(w) == s[..k]
      ensures q == SpacedMeaning(w) <==> !Folded(s[..k])
    {
      FoldingExact(s, q, k, w);
    }
  }

  /** GET / HTTP/1.1 with the header "A: b", continued by " c" */
  function FoldedExample(): Layout {
    Layout([71, 69, 84], [47], [49], [49], [Field([65], [98], [Fold([SP], [99])])])
  }

  /** The value comes out as "bc"; with the space that the line break stands for it is "b c". */
  lemma FoldExample()
    ensures var w := FoldedExample();
      && WellFormed(w) && Folded(Print(w))
      && Feed(MethodStart, Start(), Print(w)) == Outcome(Good, Newline3, Req([71, 69, 84], [47], 1, 1, [Header([65], [98, 99])]), |Print(w)|)
      && SpacedMeaning(w).headers == [Header([65], [98, SP, 99])]
  {
    var w := FoldedExample();
    var f := w.fields[0];
    assert FieldOk(f) && FoldOk(f.folds[0]);
    PrintedAccepted(w, []);
    assert Print(w) + [] == Print(w);
    assert FoldTexts(f.folds[..0]) == [] && SpacedTexts(f.folds[..0]) == [];
    assert HeaderOf(f) == Header([65], [98, 99]) && SpacedHeader(f) == Header([65], [98, SP, 99]);
    assert Headers(w.fields) == [HeaderOf(f)] && SpacedHeaders(w.fields) == [SpacedHeader(f)];
    assert Number([49]) == 1;
    FoldsSeen(w);
  }

  // White space at the ends of a value and runs of it do not matter to the standard either. Only the words do.

  predicate EndsWord(s: seq<Byte>) {
    s != [] && s[|s| - 1] != SP
  }

  /** The runs of characters other than the space. */
  function WordsOf(s: seq<Byte>): (ws: seq<seq<Byte>>)
    ensures EndsWord(s) ==> ws != []
  {
    if s == [] then [] else
      var init, c := s[..|s| - 1], s[|s| - 1];
      var ws := WordsOf(init);
      if c == SP then ws
      else if EndsWord(init) then ws[..|ws| - 1] + [ws[|ws| - 1] + [c]]
      else ws + [[c]]
  }

  lemma WordsNext(s: seq<Byte>, c: Byte)
    ensures c == SP ==> WordsOf(s + [c]) == WordsOf(s)
    ensures c != SP && !EndsWord(s) ==> WordsOf(s + [c]) == WordsOf(s) + [[c]]
    ensures c != SP && EndsWord(s) ==>
      WordsOf(s + [c]) == WordsOf(s)[..|WordsOf(s)| - 1] + [WordsOf(s)[|WordsOf(s)| - 1] + [c]] && |WordsOf(s + [c])| == |WordsOf(s)|
  {
    assert (s + [c])[..|s|] == s;
  }

  /** Behind a space a text brings its own words; behind a word its first word is lost in that word. */
  lemma {:induction false} WordsAppend(a: seq<Byte>, b: seq<Byte>)
    ensures b == [] || b[0] == SP || !EndsWord(a) ==> WordsOf(a + b) == WordsOf(a) + WordsOf(b)
    ensures b != [] && b[0] != SP && EndsWord(a) ==> |WordsOf(a + b)| == |WordsOf(a)| + |WordsOf(b)| - 1
  {
    if b == [] {
      assert a + b == a;
    } else {
      var init, c := b[..|b| - 1], b[|b| - 1];
      assert b == init + [c] && a + b == a + init + [c];
      WordsAppend(a, init);
      if init == [] {
        assert a + init == a && WordsOf([]) == [];
        WordsNext(a, c);
        WordsNext([], c);
      } else {
        WordsOneMore(a, init, c);
      }
    }
  }

  lemma WordsOneMore(a: seq<Byte>, b: seq<Byte>, c: Byte)
    requires b != []
    requires b[0] == SP || !EndsWord(a) ==> WordsOf(a + b) == WordsOf(a) + WordsOf(b)
    requires b[0] != SP && EndsWord(a) ==> |WordsOf(a + b)| == |WordsOf(a)| + |WordsOf(b)| - 1
    ensures b[0] == SP || !EndsWord(a) ==> WordsOf(a + b + [c]) == WordsOf(a) + WordsOf(b + [c])
    ensures b[0] != SP && EndsWord(a) ==> |WordsOf(a + b + [c])| == |WordsOf(a)| + |WordsOf(b + [c])| - 1
  {
    WordsNext(a + b, c);
    WordsNext(b, c);
    assert (a + b)[|a + b| - 1] == b[|b| - 1];
    LastAppended(WordsOf(a), WordsOf(b), c);
  }

  lemma LastAppended(vs: seq<seq<Byte>>, ws: seq<seq<Byte>>, c: Byte)
    ensures ws != [] ==> (vs + ws)[..|vs + ws| - 1] + [(vs + ws)[|vs + ws| - 1] + [c]] == vs + (ws[..|ws| - 1] + [ws[|ws| - 1] + [c]])
    ensures vs + ws + [[c]] == vs + (ws + [[c]])
  {
  }

  /** One more text, joined without and with a space. */
  lemma WordsStep(a: seq<Byte>, b: seq<Byte>, x: seq<Byte>)
    requires |WordsOf(a)| <= |WordsOf(b)| && (x != [] ==> x[0] != SP)
    ensures |WordsOf(a + x)| <= |WordsOf(b + [SP] + x)|
    ensures WordsOf(a + x) == WordsOf(b + [SP] + x) <==> WordsOf(a) == WordsOf(b) && !(x != [] && EndsWord(a))
  {
    WordsAppend(a, x);
    WordsNext(b, SP);
    WordsAppend(b + [SP], x);
    if x == [] || !EndsWord(a) {
      SameTail(WordsOf(a), WordsOf(b), WordsOf(x));
    }
  }

  lemma SameTail<T>(a: seq<T>, b: seq<T>, c: seq<T>)
    ensures a + c == b + c <==> a == b
  {
    if a + c == b + c {
      assert |a| == |b|;
      assert a == (a + c)[..|a|] == (b + c)[..|b|] == b;
    }
  }

  /** No continued text stands directly behind a word. */
  predicate Apart(first: seq<Byte>, fs: seq<Fold>) {
    fs != [] ==>
      var init := fs[..|fs| - 1];
      Apart(first, init) && !(fs[|fs| - 1].text != [] && EndsWord(first + FoldTexts(init)))
  }

  lemma {:induction false} ValueWords(first: seq<Byte>, fs: seq<Fold>)
    requires forall i | 0 <= i < |fs| :: FoldOk(fs[i])
    ensures |WordsOf(first + FoldTexts(fs))| <= |WordsOf(first + SpacedTexts(fs))|
    ensures WordsOf(first + FoldTexts(fs)) == WordsOf(first + SpacedTexts(fs)) <==> Apart(first, fs)
  {
    if fs != [] {
      var init, x := fs[..|fs| - 1], fs[|fs| - 1].text;
      var a, b := first + FoldTexts(init), first + SpacedTexts(init);
      TextsStep(first, fs);
      assert FoldOk(fs[|fs| - 1]);
      assert |WordsOf(a)| <= |WordsOf(b)| && (WordsOf(a) == WordsOf(b) <==> Apart(first, init)) by {
        ValueWords(first, init);
      }
      WordsStep(a, b, x);
    }
  }

  lemma TextsStep(first: seq<Byte>, fs: seq<Fold>)
    requires fs != []
    ensures var init, x := fs[..|fs| - 1], fs[|fs| - 1].text;
      first + FoldTexts(fs) == first + FoldTexts(init) + x && first + SpacedTexts(fs) == first + SpacedTexts(init) + [SP] + x
  {
    var init, x := fs[..|fs| - 1], fs[|fs| - 1].text;
    AppendAssociative(first, FoldTexts(init), x);
    AppendAssociative(first, SpacedTexts(init), [SP]);
    AppendAssociative(first, SpacedTexts(init) + [SP], x);
  }

  /** The words of the value are those of the standard exactly if no continued text stands directly behind a word. */
  lemma WordsExact(f: Field)
    requires FieldOk(f)
    ensures WordsOf(HeaderOf(f).value) == WordsOf(SpacedHeader(f).value) <==> Apart(f.first, f.folds)
  {
    ValueWords(f.first, f.folds);
  }
}
