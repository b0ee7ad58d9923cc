/** The requests that the parser accepts are exactly those of this grammar, and it returns what they mean. */
module HttpGrammar {
  import opened Sequences
  import opened HttpParser

  /** A header value continued on a further line: leading space, then text. */
  datatype Fold = Fold(space: seq<Byte>, text: seq<Byte>)

  datatype Field = Field(name: seq<Byte>, first: seq<Byte>, folds: seq<Fold>)

  /** The pieces of a request as it is written. */
  datatype Layout = Layout(verb: seq<Byte>, uri: seq<Byte>, major: seq<Byte>, minor: seq<Byte>, fields: seq<Field>)

  // Section 4.2 of RFC 2616: fields may be folded. Section 5.1: the request line.

  predicate AllToken(s: seq<Byte>) {
    forall i | 0 <= i < |s| :: IsToken(s[i])
  }

  predicate AllDigit(s: seq<Byte>) {
    forall i | 0 <= i < |s| :: IsDigit(s[i])
  }

  /** Anything but control characters. */
  predicate AllText(s: seq<Byte>) {
    forall i | 0 <= i < |s| :: !IsCtl(s[i])
  }

  predicate AllUri(s: seq<Byte>) {
    AllText(s) && SP !in s
  }

  predicate AllSpace(s: seq<Byte>) {
    forall i | 0 <= i < |s| :: s[i] == SP || s[i] == HT
  }

  predicate FoldOk(f: Fold) {
    f.space != [] && AllSpace(f.space) && AllText(f.text) && (f.text != [] ==> f.text[0] != SP)
  }

  predicate FieldOk(f: Field) {
    f.name != [] && AllToken(f.name) && AllText(f.first) && forall i | 0 <= i < |f.folds| :: FoldOk(f.folds[i])
  }

  predicate WellFormed(w: Layout) {
    && w.verb != [] && AllToken(w.verb) && AllUri(w.uri)
    && w.major != [] && AllDigit(w.major) && w.minor != [] && AllDigit(w.minor)
    && forall i | 0 <= i < |w.fields| :: FieldOk(w.fields[i])
  }

  // How it is written.

  function PrintFolds(fs: seq<Fold>): seq<Byte> {
    if fs == [] then [] else PrintFolds(fs[..|fs| - 1]) + PrintFold(fs[|fs| - 1])
  }

  function PrintFold(f: Fold): seq<Byte> {
    f.space + f.text + [CR, LF]
  }

  function PrintField(f: Field): seq<Byte> {
    f.name + [COLON, SP] + f.first + [CR, LF] + PrintFolds(f.folds)
  }

  function PrintFields(fs: seq<Field>): seq<Byte> {
    if fs == [] then [] else PrintFields(fs[..|fs| - 1]) + PrintField(fs[|fs| - 1])
  }

  function PrintLine(w: Layout): seq<Byte> {
    w.verb + [SP] + w.uri + [SP] + [72, 84, 84, 80, SLASH] + w.major + [DOT] + w.minor + [CR, LF]
  }

  function Print(w: Layout): seq<Byte> {
    PrintLine(w) + PrintFields(w.fields) + [CR, LF]
  }

  // What it means.

  function Number(s: seq<Byte>): int {
    if s == [] then 0 else Number(s[..|s| - 1]) * 10 + s[|s| - 1] - 48
  }

  /** The texts of the folds, joined; nothing stands for the line breaks and the space. */
  function FoldTexts(fs: seq<Fold>): seq<Byte> {
    if fs == [] then [] else FoldTexts(fs[..|fs| - 1]) + fs[|fs| - 1].text
  }

  function HeaderOf(f: Field): Header {
    Header(f.name, f.first + FoldTexts(f.folds))
  }

  function Headers(fs: seq<Field>): seq<Header> {
    seq(|fs|, i requires 0 <= i < |fs| => HeaderOf(fs[i]))
  }

  function Meaning(w: Layout): Req {
    Req(w.verb, w.uri, Number(w.major), Number(w.minor), Headers(w.fields))
  }

  function Start(): Req {
    Req([], [], 0, 0, [])
  }

  // Every written request is accepted.

  /** Feeding s leads from one state to the other. */
  ghost predicate Leads(st: State, r: Req, s: seq<Byte>, st': State, r': Req) {
    Ready(st, r) && Feed(st, r, s) == Outcome(Indeterminate, st', r', |s|)
  }

  lemma LeadsOn(st: State, r: Req, a: seq<Byte>, st1: State, r1: Req, b: seq<Byte>, st2: State, r2: Req)
    requires Leads(st, r, a, st1, r1) && Leads(st1, r1, b, st2, r2)
    ensures Leads(st, r, a + b, st2, r2)
  {
    FeedAppend(st, r, a, b);
  }

  lemma LeadsOne(st: State, r: Req, c: Byte)
    requires Ready(st, r) && Step(st, r, c).result == Indeterminate
    ensures Leads(st, r, [c], Step(st, r, c).st, Step(st, r, c).r)
  {
    StepReady(st, r, c);
    assert [c][1..] == [];
    assert Feed(Step(st, r, c).st, Step(st, r, c).r, []).used == 0;
  }

  lemma {:induction false} LeadsVerb(r: Req, s: seq<Byte>)
    requires AllToken(s)
    ensures Leads(Method, r, s, Method, r.(verb := r.verb + s))
  {
    if s == [] {
      assert r.verb + s == r.verb;
    } else {
      var n := |s| - 1;
      LeadsVerb(r, s[..n]);
      var q := r.(verb := r.verb + s[..n]);
      LeadsOne(Method, q, s[n]);
      LeadsOn(Method, r, s[..n], Method, q, [s[n]], Method, q.(verb := q.verb + [s[n]]));
      assert s == s[..n] + [s[n]] && r.verb + s == q.verb + [s[n]];
    }
  }

  lemma {:induction false} LeadsUri(r: Req, s: seq<Byte>)
    requires AllUri(s)
    ensures Leads(Uri, r, s, Uri, r.(uri := r.uri + s))
  {
    if s == [] {
      assert r.uri + s == r.uri;
    } else {
      var n := |s| - 1;
      LeadsUri(r, s[..n]);
      var q := r.(uri := r.uri + s[..n]);
      assert s[n] in s;
      LeadsOne(Uri, q, s[n]);
      LeadsOn(Uri, r, s[..n], Uri, q, [s[n]], Uri, q.(uri := q.uri + [s[n]]));
      assert s == s[..n] + [s[n]] && r.uri + s == q.uri + [s[n]];
    }
  }

  lemma {:induction false} LeadsMajor(r: Req, s: seq<Byte>)
    requires s != [] && AllDigit(s) && r.major == 0
    ensures Leads(MajorStart, r, s, Major, r.(major := Number(s)))
  {
    var n := |s| - 1;
    if n == 0 {
      LeadsOne(MajorStart, r, s[0]);
      assert s == [s[0]] && Number([]) == 0;
    } else {
      LeadsMajor(r, s[..n]);
      var q := r.(major := Number(s[..n]));
      LeadsOne(Major, q, s[n]);
      LeadsOn(MajorStart, r, s[..n], Major, q, [s[n]], Major, r.(major := Number(s)));
      assert s == s[..n] + [s[n]];
    }
  }

  lemma {:induction false} LeadsMinor(r: Req, s: seq<Byte>)
    requires s != [] && AllDigit(s) && r.minor == 0
    ensures Leads(MinorStart, r, s, Minor, r.(minor := Number(s)))
  {
    var n := |s| - 1;
    if n == 0 {
      LeadsOne(MinorStart, r, s[0]);
      assert s == [s[0]] && Number([]) == 0;
    } else {
      LeadsMinor(r, s[..n]);
      var q := r.(minor := Number(s[..n]));
      LeadsOne(Minor, q, s[n]);
      LeadsOn(MinorStart, r, s[..n], Minor, q, [s[n]], Minor, r.(minor := Number(s)));
      assert s == s[..n] + [s[n]];
    }
  }

  /** The request with its last header replaced. */
  function LastHeader(r: Req, h: Header): Req
    requires r.headers != []
  {
    r.(headers := r.headers[..|r.headers| - 1] + [h])
  }

  function Last(r: Req): Header
    requires r.headers != []
  {
    r.headers[|r.headers| - 1]
  }

  lemma LastAgain(r: Req, h: Header)
    requires r.headers != []
    ensures LastHeader(r, h).headers != [] && Last(LastHeader(r, h)) == h
    ensures forall g :: LastHeader(LastHeader(r, h), g) == LastHeader(r, g)
    ensures LastHeader(r, Last(r)) == r
  {
    assert LastHeader(r, h).headers[..|r.headers| - 1] == r.headers[..|r.headers| - 1];
    assert r.headers == r.headers[..|r.headers| - 1] + [Last(r)];
  }

  lemma {:induction false} LeadsName(r: Req, s: seq<Byte>)
    requires AllToken(s) && r.headers != []
    ensures Leads(HeaderName, r, s, HeaderName, LastHeader(r, Last(r).(name := Last(r).name + s)))
  {
    LastAgain(r, Last(r));
    if s == [] {
      assert Last(r).name + s == Last(r).name;
    } else {
      var n := |s| - 1;
      var h := Last(r).(name := Last(r).name + s[..n]);
      LeadsName(r, s[..n]);
      var q := LastHeader(r, h);
      LastAgain(r, h);
      LeadsOne(HeaderName, q, s[n]);
      assert Step(HeaderName, q, s[n]).r == LastHeader(q, h.(name := h.name + [s[n]]));
      assert s == s[..n] + [s[n]] && h.name + [s[n]] == Last(r).name + s;
      LeadsOn(HeaderName, r, s[..n], HeaderName, q, [s[n]], HeaderName, LastHeader(q, h.(name := h.name + [s[n]])));
    }
  }

  lemma {:induction false} LeadsValue(r: Req, s: seq<Byte>)
    requires AllText(s) && r.headers != []
    ensures Leads(HeaderValue, r, s, HeaderValue, LastHeader(r, Last(r).(value := Last(r).value + s)))
  {
    LastAgain(r, Last(r));
    if s == [] {
      assert Last(r).value + s == Last(r).value;
    } else {
      var n := |s| - 1;
      var h := Last(r).(value := Last(r).value + s[..n]);
      LeadsValue(r, s[..n]);
      var q := LastHeader(r, h);
      LastAgain(r, h);
      LeadsOne(HeaderValue, q, s[n]);
      assert Step(HeaderValue, q, s[n]).r == LastHeader(q, h.(value := h.value + [s[n]]));
      assert s == s[..n] + [s[n]] && h.value + [s[n]] == Last(r).value + s;
      LeadsOn(HeaderValue, r, s[..n], HeaderValue, q, [s[n]], HeaderValue, LastHeader(q, h.(value := h.value + [s[n]])));
    }
  }

  lemma {:induction false} LeadsSpace(r: Req, s: seq<Byte>)
    requires AllSpace(s) && r.headers != []
    ensures Leads(HeaderLws, r, s, HeaderLws, r)
  {
    if s != [] {
      var n := |s| - 1;
      LeadsSpace(r, s[..n]);
      LeadsOne(HeaderLws, r, s[n]);
      LeadsOn(HeaderLws, r, s[..n], HeaderLws, r, [s[n]], HeaderLws, r);
      assert s == s[..n] + [s[n]];
    }
  }

  /** The end of a line. */
  lemma LeadsEnd(st: State, r: Req)
    requires st in {HeaderValue, HeaderLws} && r.headers != []
    ensures Leads(st, r, [CR, LF], HeaderLineStart, r)
  {
    LeadsOne(st, r, CR);
    LeadsOne(Newline2, r, LF);
    LeadsOn(st, r, [CR], Newline2, r, [LF], HeaderLineStart, r);
    assert [CR] + [LF] == [CR, LF];
  }

  /** A continuation line adds its text to the last header. */
  lemma LeadsFold(r: Req, f: Fold)
    requires FoldOk(f) && r.headers != []
    ensures Leads(HeaderLineStart, r, PrintFold(f), HeaderLineStart, LastHeader(r, Last(r).(value := Last(r).value + f.text)))
  {
    var q := LastHeader(r, Last(r).(value := Last(r).value + f.text));
    LastAgain(r, Last(r));
    LeadsOne(HeaderLineStart, r, f.space[0]);
    LeadsSpace(r, f.space[1..]);
    LeadsOn(HeaderLineStart, r, [f.space[0]], HeaderLws, r, f.space[1..], HeaderLws, r);
    assert f.space == [f.space[0]] + f.space[1..];
    if f.text == [] {
      assert Last(r).value + [] == Last(r).value;
      LeadsEnd(HeaderLws, r);
      LeadsOn(HeaderLineStart, r, f.space, HeaderLws, r, [CR, LF], HeaderLineStart, r);
      assert f.space + [CR, LF] == PrintFold(f);
    } else {
      LeadsText(r, f.text);
      LeadsOn(HeaderLineStart, r, f.space, HeaderLws, r, f.text, HeaderValue, q);
      LeadsEnd(HeaderValue, q);
      LeadsOn(HeaderLineStart, r, f.space + f.text, HeaderValue, q, [CR, LF], HeaderLineStart, q);
    }
  }

  /** The text of a continuation line. */
  lemma LeadsText(r: Req, s: seq<Byte>)
    requires AllText(s) && s != [] && s[0] != SP && r.headers != []
    ensures Leads(HeaderLws, r, s, HeaderValue, LastHeader(r, Last(r).(value := Last(r).value + s)))
  {
    var h := Last(r).(value := Last(r).value + [s[0]]);
    var q := LastHeader(r, h);
    LeadsOne(HeaderLws, r, s[0]);
    assert Step(HeaderLws, r, s[0]).r == q;
    LastAgain(r, h);
    LeadsValue(q, s[1..]);
    assert s == [s[0]] + s[1..] && h.value + s[1..] == Last(r).value + s;
    LeadsOn(HeaderLws, r, [s[0]], HeaderValue, q, s[1..], HeaderValue, LastHeader(q, h.(value := h.value + s[1..])));
  }

  lemma {:induction false} LeadsFolds(r: Req, fs: seq<Fold>)
    requires r.headers != [] && forall i | 0 <= i < |fs| :: FoldOk(fs[i])
    ensures Leads(HeaderLineStart, r, PrintFolds(fs), HeaderLineStart, LastHeader(r, Last(r).(value := Last(r).value + FoldTexts(fs))))
  {
    LastAgain(r, Last(r));
    if fs == [] {
      assert Last(r).value + [] == Last(r).value;
    } else {
      var n := |fs| - 1;
      LeadsFolds(r, fs[..n]);
      var h := Last(r).(value := Last(r).value + FoldTexts(fs[..n]));
      var q := LastHeader(r, h);
      LastAgain(r, h);
      LeadsFold(q, fs[n]);
      assert h.value + fs[n].text == Last(r).value + FoldTexts(fs);
      LeadsOn(HeaderLineStart, r, PrintFolds(fs[..n]), HeaderLineStart, q,
        PrintFold(fs[n]), HeaderLineStart, LastHeader(q, h.(value := h.value + fs[n].text)));
    }
  }

  /** A field adds its header. */
  lemma LeadsField(r: Req, f: Field)
    requires FieldOk(f)
    ensures Leads(HeaderLineStart, r, PrintField(f), HeaderLineStart, r.(headers := r.headers + [HeaderOf(f)]))
  {
    var a := r.(headers := r.headers + [Header([f.name[0]], [])]);
    var b := LeadsFieldName(r, f);
    assert b == LastHeader(a, Header(f.name, []));
    LastAgain(a, Header(f.name, []));
    LeadsOne(HeaderName, b, COLON);
    LeadsOne(SpaceBeforeValue, b, SP);
    LeadsOn(HeaderName, b, [COLON], SpaceBeforeValue, b, [SP], HeaderValue, b);
    assert [COLON] + [SP] == [COLON, SP];
    LeadsOn(HeaderLineStart, r, f.name, HeaderName, b, [COLON, SP], HeaderValue, b);
    LeadsValue(b, f.first);
    assert [] + f.first == f.first;
    var c := LastHeader(b, Header(f.name, f.first));
    LeadsOn(HeaderLineStart, r, f.name + [COLON, SP], HeaderValue, b, f.first, HeaderValue, c);
    LeadsEnd(HeaderValue, c);
    LeadsOn(HeaderLineStart, r, f.name + [COLON, SP] + f.first, HeaderValue, c, [CR, LF], HeaderLineStart, c);
    LastAgain(b, Header(f.name, f.first));
    LeadsFolds(c, f.folds);
    var e := LastHeader(c, HeaderOf(f));
    LeadsOn(HeaderLineStart, r, f.name + [COLON, SP] + f.first + [CR, LF], HeaderLineStart, c, PrintFolds(f.folds), HeaderLineStart, e);
    LastAgain(a, HeaderOf(f));
    assert e == LastHeader(a, HeaderOf(f));
    assert a.headers[..|r.headers|] == r.headers;
  }

  lemma LeadsFieldName(r: Req, f: Field) returns (b: Req)
    requires FieldOk(f)
    ensures var a := r.(headers := r.headers + [Header([f.name[0]], [])]);
      b == LastHeader(a, Header(f.name, [])) && Leads(HeaderLineStart, r, f.name, HeaderName, b)
  {
    var a := r.(headers := r.headers + [Header([f.name[0]], [])]);
    b := LastHeader(a, Header(f.name, []));
    LeadsOne(HeaderLineStart, r, f.name[0]);
    LeadsName(a, f.name[1..]);
    assert f.name == [f.name[0]] + f.name[1..];
    assert Last(a).(name := Last(a).name + f.name[1..]) == Header(f.name, []);
    LeadsOn(HeaderLineStart, r, [f.name[0]], HeaderName, a, f.name[1..], HeaderName, b);
  }

  lemma {:induction false} LeadsFields(r: Req, fs: seq<Field>)
    requires forall i | 0 <= i < |fs| :: FieldOk(fs[i])
    ensures Leads(HeaderLineStart, r, PrintFields(fs), HeaderLineStart, r.(headers := r.headers + Headers(fs)))
  {
    if fs == [] {
      assert r.headers + Headers([]) == r.headers;
    } else {
      var n := |fs| - 1;
      LeadsFields(r, fs[..n]);
      var q := r.(headers := r.headers + Headers(fs[..n]));
      LeadsField(q, fs[n]);
      assert q.headers + [HeaderOf(fs[n])] == r.headers + Headers(fs);
      LeadsOn(HeaderLineStart, r, PrintFields(fs[..n]), HeaderLineStart, q, PrintField(fs[n]), HeaderLineStart, r.(headers := r.headers + Headers(fs)));
    }
  }

  lemma LeadsHttp(r: Req)
    ensures Leads(VersionH, r, [72, 84, 84, 80, SLASH], MajorStart, r.(major := 0, minor := 0))
  {
    var q := r.(major := 0, minor := 0);
    LeadsOne(VersionH, r, 72);
    LeadsOne(VersionT1, r, 84);
    LeadsOn(VersionH, r, [72], VersionT1, r, [84], VersionT2, r);
    LeadsOne(VersionT2, r, 84);
    LeadsOn(VersionH, r, [72] + [84], VersionT2, r, [84], VersionP, r);
    LeadsOne(VersionP, r, 80);
    LeadsOn(VersionH, r, [72] + [84] + [84], VersionP, r, [80], VersionSlash, r);
    LeadsOne(VersionSlash, r, SLASH);
    LeadsOn(VersionH, r, [72] + [84] + [84] + [80], VersionSlash, r, [SLASH], MajorStart, q);
    assert [72] + [84] + [84] + [80] + [SLASH] == [72, 84, 84, 80, SLASH];
  }

  lemma LeadsLine(w: Layout)
    requires WellFormed(w)
    ensures Leads(MethodStart, Start(), PrintLine(w), HeaderLineStart, Req(w.verb, w.uri, Number(w.major), Number(w.minor), []))
  {
    var r0, r1 := Start(), Req(w.verb, [], 0, 0, []);
    var r2 := r1.(uri := w.uri);
    LeadsOne(MethodStart, r0, w.verb[0]);
    assert r0.verb + [w.verb[0]] == [w.verb[0]];
    LeadsVerb(r0.(verb := [w.verb[0]]), w.verb[1..]);
    assert w.verb == [w.verb[0]] + w.verb[1..];
    LeadsOn(MethodStart, r0, [w.verb[0]], Method, r0.(verb := [w.verb[0]]), w.verb[1..], Method, r1);
    LeadsOne(Method, r1, SP);
    LeadsOn(MethodStart, r0, w.verb, Method, r1, [SP], Uri, r1);
    LeadsUri(r1, w.uri);
    assert r1.uri + w.uri == w.uri;
    LeadsOn(MethodStart, r0, w.verb + [SP], Uri, r1, w.uri, Uri, r2);
    LeadsOne(Uri, r2, SP);
    LeadsOn(MethodStart, r0, w.verb + [SP] + w.uri, Uri, r2, [SP], VersionH, r2);
    LeadsHttp(r2);
    LeadsOn(MethodStart, r0, w.verb + [SP] + w.uri + [SP], VersionH, r2, [72, 84, 84, 80, SLASH], MajorStart, r2);
    LeadsVersion(r2, w, w.verb + [SP] + w.uri + [SP] + [72, 84, 84, 80, SLASH]);
  }

  lemma LeadsVersion(r: Req, w: Layout, before: seq<Byte>)
    requires WellFormed(w) && r.major == 0 && r.minor == 0 && Leads(MethodStart, Start(), before, MajorStart, r)
    ensures Leads(MethodStart, Start(), before + w.major + [DOT] + w.minor + [CR, LF], HeaderLineStart,
      r.(major := Number(w.major), minor := Number(w.minor)))
  {
    var r0, r3 := Start(), r.(major := Number(w.major));
    var r4 := r3.(minor := Number(w.minor));
    LeadsMajor(r, w.major);
    LeadsOn(MethodStart, r0, before, MajorStart, r, w.major, Major, r3);
    LeadsOne(Major, r3, DOT);
    LeadsOn(MethodStart, r0, before + w.major, Major, r3, [DOT], MinorStart, r3);
    LeadsMinor(r3, w.minor);
    LeadsOn(MethodStart, r0, before + w.major + [DOT], MinorStart, r3, w.minor, Minor, r4);
    LeadsOne(Minor, r4, CR);
    LeadsOne(Newline1, r4, LF);
    LeadsOn(Minor, r4, [CR], Newline1, r4, [LF], HeaderLineStart, r4);
    assert [CR] + [LF] == [CR, LF];
    LeadsOn(MethodStart, r0, before + w.major + [DOT] + w.minor, Minor, r4, [CR, LF], HeaderLineStart, r4);
  }

  /** Whatever follows, a written request is recovered, and nothing of what follows is used. */
  lemma PrintedAccepted(w: Layout, rest: seq<Byte>)
    requires WellFormed(w)
    ensures Feed(MethodStart, Start(), Print(w) + rest) == Outcome(Good, Newline3, Meaning(w), |Print(w)|)
  {
    var r0, r1 := Start(), Req(w.verb, w.uri, Number(w.major), Number(w.minor), []);
    LeadsLine(w);
    LeadsFields(r1, w.fields);
    assert r1.headers + Headers(w.fields) == Headers(w.fields);
    LeadsOn(MethodStart, r0, PrintLine(w), HeaderLineStart, r1, PrintFields(w.fields), HeaderLineStart, Meaning(w));
    LeadsOne(HeaderLineStart, Meaning(w), CR);
    LeadsOn(MethodStart, r0, PrintLine(w) + PrintFields(w.fields), HeaderLineStart, Meaning(w), [CR], Newline3, Meaning(w));
    var s := PrintLine(w) + PrintFields(w.fields) + [CR];
    FeedAppend(MethodStart, r0, s, [LF] + rest);
    assert s + ([LF] + rest) == Print(w) + rest;
    assert ([LF] + rest)[0] == LF;
  }

  // Everything accepted was written: after each character, what has been used is the beginning of a layout.

  predicate InRequestLine(st: State) {
    st in {MethodStart, Method, Uri, VersionH, VersionT1, VersionT2, VersionP, VersionSlash, MajorStart, Major, MinorStart, Minor, Newline1}
  }

  /** A field without the end of its last line. */
  function OpenField(f: Field): seq<Byte> {
    if f.folds == [] then f.name + [COLON, SP] + f.first
    else
      var last := f.folds[|f.folds| - 1];
      f.name + [COLON, SP] + f.first + [CR, LF] + PrintFolds(f.folds[..|f.folds| - 1]) + last.space + last.text
  }

  lemma OpenFieldEnds(f: Field)
    ensures OpenField(f) + [CR, LF] == PrintField(f)
  {
    if f.folds != [] {
      var n := |f.folds| - 1;
      var a, b := f.name + [COLON, SP] + f.first + [CR, LF], PrintFolds(f.folds[..n]);
      assert PrintFolds(f.folds) == b + (f.folds[n].space + f.folds[n].text + [CR, LF]);
      assert a + b + f.folds[n].space + f.folds[n].text + [CR, LF] == a + (b + (f.folds[n].space + f.folds[n].text + [CR, LF]));
    }
  }

  /** What has been written when the parser is in a state of the request line. */
  function LinePrefix(st: State, w: Layout): seq<Byte> {
    match st
    case MethodStart => []
    case Method => w.verb
    case Uri => w.verb + [SP] + w.uri
    case VersionH => w.verb + [SP] + w.uri + [SP]
    case VersionT1 => w.verb + [SP] + w.uri + [SP] + [72]
    case VersionT2 => w.verb + [SP] + w.uri + [SP] + [72, 84]
    case VersionP => w.verb + [SP] + w.uri + [SP] + [72, 84, 84]
    case VersionSlash => w.verb + [SP] + w.uri + [SP] + [72, 84, 84, 80]
    case MajorStart => w.verb + [SP] + w.uri + [SP] + [72, 84, 84, 80, SLASH]
    case Major => w.verb + [SP] + w.uri + [SP] + [72, 84, 84, 80, SLASH] + w.major
    case MinorStart => w.verb + [SP] + w.uri + [SP] + [72, 84, 84, 80, SLASH] + w.major + [DOT]
    case Minor => w.verb + [SP] + w.uri + [SP] + [72, 84, 84, 80, SLASH] + w.major + [DOT] + w.minor
    case _ => w.verb + [SP] + w.uri + [SP] + [72, 84, 84, 80, SLASH] + w.major + [DOT] + w.minor + [CR]
  }

  /** The last field as far as it has been written. */
  function FieldPrefix(st: State, f: Field): seq<Byte> {
    match st
    case HeaderName => f.name
    case SpaceBeforeValue => f.name + [COLON]
    case Newline2 => OpenField(f) + [CR]
    case _ => OpenField(f)
  }

  function Prefix(st: State, w: Layout): seq<Byte> {
    if InRequestLine(st) then LinePrefix(st, w)
    else if st == HeaderLineStart then PrintLine(w) + PrintFields(w.fields)
    else if st == Newline3 then PrintLine(w) + PrintFields(w.fields) + [CR]
    else if w.fields == [] then []
    else PrintLine(w) + PrintFields(w.fields[..|w.fields| - 1]) + FieldPrefix(st, w.fields[|w.fields| - 1])
  }

  predicate LineFine(st: State, w: Layout) {
    && w.fields == [] && AllToken(w.verb) && AllUri(w.uri) && AllDigit(w.major) && AllDigit(w.minor)
    && (st == MethodStart <==> w.verb == [])
    && (st in {MethodStart, Method} ==> w.uri == [])
    && (st in {Major, MinorStart, Minor, Newline1} <==> w.major != [])
    && (st in {Minor, Newline1} <==> w.minor != [])
  }

  /** The last field suits the state. */
  predicate FieldFine(st: State, f: Field) {
    && (st in {HeaderName, SpaceBeforeValue} ==> f.first == [] && f.folds == [])
    && (st == HeaderLws ==> f.folds != [] && f.folds[|f.folds| - 1].text == [])
    && (st == HeaderValue && f.folds != [] ==> f.folds[|f.folds| - 1].text != [])
  }

  predicate Fine(st: State, w: Layout) {
    if InRequestLine(st) then LineFine(st, w)
    else WellFormed(w) && (TouchesHeader(st) ==> w.fields != [] && FieldFine(st, w.fields[|w.fields| - 1]))
  }

  /** Layout w explains that s has led to the state and the request. */
  ghost predicate Explains(w: Layout, st: State, s: seq<Byte>, r: Req) {
    Fine(st, w) && s == Prefix(st, w) && r == Meaning(w)
  }

  /** The start of the request line. */
  lemma ExplainLine(w: Layout, st: State, s: seq<Byte>, r: Req, c: Byte) returns (v: Layout)
    requires Explains(w, st, s, r) && st in {MethodStart, Method, Uri, VersionH, VersionT1, VersionT2, VersionP, VersionSlash}
    requires Ready(st, r) && Step(st, r, c).result == Indeterminate
    ensures Explains(v, Step(st, r, c).st, s + [c], Step(st, r, c).r)
  {
    v := w;
    match st
    case MethodStart => v := w.(verb := w.verb + [c]);
    case Method =>
      if c != SP {
        v := w.(verb := w.verb + [c]);
      } else {
        assert w.verb + [SP] + [] == w.verb + [SP];
      }
    case Uri =>
      if c != SP {
        v := w.(uri := w.uri + [c]);
      }
    case _ =>
  }

  lemma NumberNext(s: seq<Byte>, c: Byte)
    ensures Number(s + [c]) == Number(s) * 10 + c - 48
  {
    assert (s + [c])[..|s|] == s;
  }

  // The source adds digits up in a signed 32-bit int.

  const MaxInt: int := 0x7fff_ffff

  /** What is held when digit k has been added and the code of '0' has not been taken off yet. */
  function Summed(s: seq<Byte>, k: nat): int
    requires k < |s|
  {
    Number(s[..k]) * 10 + s[k]
  }

  predicate StaysInt(s: seq<Byte>) {
    forall k {:trigger Summed(s, k)} | 0 <= k < |s| :: 0 <= Summed(s, k) <= MaxInt
  }

  lemma {:induction false} NumberGrows(s: seq<Byte>, k: nat)
    requires AllDigit(s) && k <= |s|
    ensures 0 <= Number(s[..k]) <= Number(s)
    decreases |s|
  {
    if k < |s| {
      var p := s[..|s| - 1];
      NumberGrows(p, k);
      assert s[..k] == p[..k];
    } else {
      assert s[..k] == s;
      if s != [] {
        NumberGrows(s[..|s| - 1], |s| - 1);
        assert s[..|s| - 1][..|s| - 1] == s[..|s| - 1];
      }
    }
  }

  /** No sum on the way overflows exactly if the number leaves room for the code of '0'. */
  lemma {:induction false} StaysIntExactly(s: seq<Byte>)
    requires s != [] && AllDigit(s)
    ensures StaysInt(s) <==> Number(s) + 48 <= MaxInt
  {
    assert Summed(s, |s| - 1) == Number(s) + 48;
    forall k {:trigger Summed(s, k)} | 0 <= k < |s| ensures 0 <= Summed(s, k) <= Number(s) + 48 {
      NumberGrows(s, k + 1);
      NumberGrows(s, k);
      assert s[..k + 1][..k] == s[..k];
    }
  }

  lemma ExplainMajor(w: Layout, st: State, s: seq<Byte>, r: Req, c: Byte) returns (v: Layout)
    requires Explains(w, st, s, r) && st in {MajorStart, Major} && Step(st, r, c).result == Indeterminate
    ensures Explains(v, Step(st, r, c).st, s + [c], Step(st, r, c).r)
  {
    NumberNext(w.major, c);
    v := if c == DOT then w else w.(major := w.major + [c]);
    assert w.major == [] ==> s + w.major == s;
  }

  lemma ExplainMinor(w: Layout, st: State, s: seq<Byte>, r: Req, c: Byte) returns (v: Layout)
    requires Explains(w, st, s, r) && st in {MinorStart, Minor} && Step(st, r, c).result == Indeterminate
    ensures Explains(v, Step(st, r, c).st, s + [c], Step(st, r, c).r)
  {
    NumberNext(w.minor, c);
    v := if c == CR then w else w.(minor := w.minor + [c]);
    assert w.minor == [] ==> s + w.minor == s;
  }

  /** The end of the request line. */
  lemma ExplainLineEnd(w: Layout, s: seq<Byte>, r: Req)
    requires Explains(w, Newline1, s, r)
    ensures Explains(w, HeaderLineStart, s + [LF], r)
  {
    assert PrintFields([]) == [] && s + [LF] == PrintLine(w) + [];
  }

  function WithLast(w: Layout, f: Field): Layout
    requires w.fields != []
  {
    w.(fields := w.fields[..|w.fields| - 1] + [f])
  }

  lemma MeaningLast(w: Layout, f: Field)
    requires w.fields != []
    ensures Meaning(w).headers != [] && Meaning(WithLast(w, f)) == LastHeader(Meaning(w), HeaderOf(f))
    ensures Last(Meaning(w)) == HeaderOf(w.fields[|w.fields| - 1])
    ensures WithLast(w, f).fields[..|w.fields| - 1] == w.fields[..|w.fields| - 1]
  {
  }

  /** The last field of w grows from f to g. */
  lemma LastGrows(w: Layout, st: State, s: seq<Byte>, r: Req, c: Byte, next: State, g: Field)
    requires Explains(w, st, s, r) && TouchesHeader(st) && TouchesHeader(next) && FieldOk(g) && FieldFine(next, g)
    requires FieldPrefix(next, g) == FieldPrefix(st, w.fields[|w.fields| - 1]) + [c]
    ensures r.headers != [] && Explains(WithLast(w, g), next, s + [c], LastHeader(r, HeaderOf(g)))
  {
    assert WellFormed(WithLast(w, g)) by {
      StillWellFormed(w, g);
    }
    assert r.headers != [] && LastHeader(r, HeaderOf(g)) == Meaning(WithLast(w, g)) by {
      MeaningLast(w, g);
    }
    assert Prefix(next, WithLast(w, g)) == Prefix(st, w) + [c] by {
      LastPrinted(w, st, c, next, g);
    }
  }

  lemma LastPrinted(w: Layout, st: State, c: Byte, next: State, g: Field)
    requires w.fields != [] && TouchesHeader(st) && TouchesHeader(next)
    requires FieldPrefix(next, g) == FieldPrefix(st, w.fields[|w.fields| - 1]) + [c]
    ensures Prefix(next, WithLast(w, g)) == Prefix(st, w) + [c]
  {
    AppendAssociative(PrintLine(w) + PrintFields(w.fields[..|w.fields| - 1]), FieldPrefix(st, w.fields[|w.fields| - 1]), [c]);
    PrefixIs(w, st);
    PrefixIs(WithLast(w, g), next);
    assert PrintLine(WithLast(w, g)) == PrintLine(w);
  }

  lemma PrefixIs(w: Layout, st: State)
    requires TouchesHeader(st) && w.fields != []
    ensures Prefix(st, w) == PrintLine(w) + PrintFields(w.fields[..|w.fields| - 1]) + FieldPrefix(st, w.fields[|w.fields| - 1])
  {
  }

  lemma StillWellFormed(w: Layout, g: Field)
    requires WellFormed(w) && w.fields != [] && FieldOk(g)
    ensures WellFormed(WithLast(w, g))
  {
  }

  /** A continuation line begins. */
  lemma ExplainFold(w: Layout, s: seq<Byte>, r: Req, c: Byte) returns (v: Layout)
    requires Explains(w, HeaderLineStart, s, r) && r.headers != [] && (c == SP || c == HT)
    ensures Explains(v, HeaderLws, s + [c], r)
  {
    var n := |w.fields|;
    var f := w.fields[n - 1];
    var g := f.(folds := f.folds + [Fold([c], [])]);
    v := WithLast(w, g);
    FoldStarted(f, c);
    MeaningLast(w, g);
    LastAgain(r, HeaderOf(g));
    StillWellFormed(w, g);
    PrefixIs(v, HeaderLws);
    FoldRegroup(PrintLine(w), PrintFields(w.fields[..n - 1]), PrintField(f), [c]);
  }

  lemma FoldRegroup(a: seq<Byte>, b: seq<Byte>, x: seq<Byte>, y: seq<Byte>)
    ensures a + (b + x) + y == a + b + (x + y)
  {
    AppendAssociative(a, b, x);
    AppendAssociative(a + b, x, y);
  }

  /** A new field begins. */
  lemma ExplainNewField(w: Layout, s: seq<Byte>, r: Req, c: Byte) returns (v: Layout)
    requires Explains(w, HeaderLineStart, s, r) && IsToken(c)
    ensures Explains(v, HeaderName, s + [c], r.(headers := r.headers + [Header([c], [])]))
  {
    v := w.(fields := w.fields + [Field([c], [], [])]);
    assert v.fields[..|w.fields|] == w.fields;
    assert FoldTexts([]) == [] && HeaderOf(Field([c], [], [])) == Header([c], []);
    assert Headers(v.fields) == Headers(w.fields) + [Header([c], [])];
  }

  /** A new line. */
  lemma ExplainStart(w: Layout, s: seq<Byte>, r: Req, c: Byte) returns (v: Layout)
    requires Explains(w, HeaderLineStart, s, r)
    requires Step(HeaderLineStart, r, c).result == Indeterminate
    ensures Explains(v, Step(HeaderLineStart, r, c).st, s + [c], Step(HeaderLineStart, r, c).r)
  {
    if c == CR {
      v := w;
    } else if r.headers != [] && (c == SP || c == HT) {
      v := ExplainFold(w, s, r, c);
    } else {
      v := ExplainNewField(w, s, r, c);
    }
  }

  lemma FoldStarted(f: Field, c: Byte)
    ensures var g := f.(folds := f.folds + [Fold([c], [])]);
      OpenField(g) == PrintField(f) + [c] && HeaderOf(g) == HeaderOf(f)
  {
    var g := f.(folds := f.folds + [Fold([c], [])]);
    assert g.folds[..|f.folds|] == f.folds;
    assert PrintField(f) + [c] + [] == PrintField(f) + [c];
    assert FoldTexts(f.folds) + [] == FoldTexts(f.folds);
  }

  /** One more character of the text or the leading space of the last fold. */
  function LongerFold(f: Field, c: Byte, isText: bool): Field
    requires f.folds != []
  {
    var n := |f.folds| - 1;
    var x := f.folds[n];
    f.(folds := f.folds[..n] + [if isText then x.(text := x.text + [c]) else x.(space := x.space + [c])])
  }

  lemma LongerFoldIs(f: Field, c: Byte, isText: bool)
    requires f.folds != [] && (!isText ==> f.folds[|f.folds| - 1].text == [])
    ensures OpenField(LongerFold(f, c, isText)) == OpenField(f) + [c]
    ensures isText ==> HeaderOf(LongerFold(f, c, isText)) == HeaderOf(f).(value := HeaderOf(f).value + [c])
    ensures !isText ==> HeaderOf(LongerFold(f, c, isText)) == HeaderOf(f)
  {
    var n := |f.folds| - 1;
    var g := LongerFold(f, c, isText);
    assert g.folds[..n] == f.folds[..n] && g.folds[n] == if isText then f.folds[n].(text := f.folds[n].text + [c]) else f.folds[n].(space := f.folds[n].space + [c]);
    if isText {
      assert f.first + (FoldTexts(f.folds[..n]) + (f.folds[n].text + [c])) == f.first + (FoldTexts(f.folds[..n]) + f.folds[n].text) + [c];
    }
  }

  /** Inside a field. */
  lemma ExplainField(w: Layout, st: State, s: seq<Byte>, r: Req, c: Byte) returns (v: Layout)
    requires Explains(w, st, s, r) && st in {HeaderName, SpaceBeforeValue, HeaderValue, HeaderLws, Newline2}
    requires Ready(st, r) && Step(st, r, c).result == Indeterminate
    ensures Explains(v, Step(st, r, c).st, s + [c], Step(st, r, c).r)
  {
    match st
    case HeaderName => v := ExplainName(w, s, r, c);
    case SpaceBeforeValue =>
      var f := w.fields[|w.fields| - 1];
      assert f.name + [COLON] + [SP] == f.name + [COLON, SP] + f.first;
      v := ExplainSame(w, st, s, r, c, HeaderValue);
    case HeaderValue => v := ExplainValue(w, s, r, c);
    case HeaderLws => v := ExplainLws(w, s, r, c);
    case Newline2 =>
      ExplainEnd(w, s, r);
      v := w;
  }

  /** The state changes, the last field does not. */
  lemma ExplainSame(w: Layout, st: State, s: seq<Byte>, r: Req, c: Byte, next: State) returns (v: Layout)
    requires Explains(w, st, s, r) && TouchesHeader(st) && TouchesHeader(next) && FieldFine(next, w.fields[|w.fields| - 1])
    requires FieldPrefix(next, w.fields[|w.fields| - 1]) == FieldPrefix(st, w.fields[|w.fields| - 1]) + [c]
    ensures Explains(v, next, s + [c], r)
  {
    var f := w.fields[|w.fields| - 1];
    v := WithLast(w, f);
    LastGrows(w, st, s, r, c, next, f);
    MeaningLast(w, f);
    LastAgain(r, HeaderOf(f));
  }

  lemma ExplainName(w: Layout, s: seq<Byte>, r: Req, c: Byte) returns (v: Layout)
    requires Explains(w, HeaderName, s, r) && Step(HeaderName, r, c).result == Indeterminate
    ensures Explains(v, Step(HeaderName, r, c).st, s + [c], Step(HeaderName, r, c).r)
  {
    var f := w.fields[|w.fields| - 1];
    if c == COLON {
      v := ExplainSame(w, HeaderName, s, r, c, SpaceBeforeValue);
    } else {
      var g := f.(name := f.name + [c]);
      v := WithLast(w, g);
      LastGrows(w, HeaderName, s, r, c, HeaderName, g);
      MeaningLast(w, g);
    }
  }

  lemma ExplainValue(w: Layout, s: seq<Byte>, r: Req, c: Byte) returns (v: Layout)
    requires Explains(w, HeaderValue, s, r) && Step(HeaderValue, r, c).result == Indeterminate
    ensures Explains(v, Step(HeaderValue, r, c).st, s + [c], Step(HeaderValue, r, c).r)
  {
    var f := w.fields[|w.fields| - 1];
    if c == CR {
      v := ExplainSame(w, HeaderValue, s, r, c, Newline2);
    } else {
      var g := LongerValue(f, c);
      v := WithLast(w, g);
      LastGrows(w, HeaderValue, s, r, c, HeaderValue, g);
      MeaningLast(w, g);
    }
  }

  lemma ExplainLws(w: Layout, s: seq<Byte>, r: Req, c: Byte) returns (v: Layout)
    requires Explains(w, HeaderLws, s, r) && Step(HeaderLws, r, c).result == Indeterminate
    ensures Explains(v, Step(HeaderLws, r, c).st, s + [c], Step(HeaderLws, r, c).r)
  {
    var f := w.fields[|w.fields| - 1];
    if c == CR {
      v := ExplainSame(w, HeaderLws, s, r, c, Newline2);
    } else {
      var isText := c != SP && c != HT;
      var g := LongerFold(f, c, isText);
      LongerFoldIs(f, c, isText);
      LongerFoldFine(f, c, isText);
      v := WithLast(w, g);
      LastGrows(w, HeaderLws, s, r, c, if isText then HeaderValue else HeaderLws, g);
      MeaningLast(w, g);
      MeaningLast(w, f);
      LastAgain(r, HeaderOf(f));
    }
  }

  lemma LongerFoldFine(f: Field, c: Byte, isText: bool)
    requires FieldOk(f) && FieldFine(HeaderLws, f) && (if isText then !IsCtl(c) && c != SP else c == SP || c == HT)
    ensures FieldOk(LongerFold(f, c, isText)) && FieldFine(if isText then HeaderValue else HeaderLws, LongerFold(f, c, isText))
  {
    var n := |f.folds| - 1;
    assert FoldOk(f.folds[n]);
  }

  /** A line of a field ends. */
  lemma ExplainEnd(w: Layout, s: seq<Byte>, r: Req)
    requires Explains(w, Newline2, s, r)
    ensures Explains(w, HeaderLineStart, s + [LF], r)
  {
    var n := |w.fields| - 1;
    var f := w.fields[n];
    OpenFieldEnds(f);
    LineEnds(PrintLine(w), PrintFields(w.fields[..n]), OpenField(f));
  }

  lemma LineEnds(a: seq<Byte>, b: seq<Byte>, x: seq<Byte>)
    ensures a + b + (x + [CR]) + [LF] == a + (b + (x + [CR, LF]))
  {
    assert [CR] + [LF] == [CR, LF];
    AppendAssociative(x, [CR], [LF]);
    AppendAssociative(a + b, x + [CR], [LF]);
    AppendAssociative(a, b, x + [CR, LF]);
  }

  lemma LongerValue(f: Field, c: Byte) returns (g: Field)
    requires FieldOk(f) && FieldFine(HeaderValue, f) && !IsCtl(c)
    ensures FieldOk(g) && FieldFine(HeaderValue, g) && OpenField(g) == OpenField(f) + [c]
    ensures HeaderOf(g) == HeaderOf(f).(value := HeaderOf(f).value + [c])
  {
    if f.folds == [] {
      g := f.(first := f.first + [c]);
      assert f.name + [COLON, SP] + (f.first + [c]) == f.name + [COLON, SP] + f.first + [c];
      assert FoldTexts([]) == [];
    } else {
      g := LongerFold(f, c, true);
      LongerFoldIs(f, c, true);
    }
  }

  /** One more character. */
  lemma Explain(w: Layout, st: State, s: seq<Byte>, r: Req, c: Byte) returns (v: Layout)
    requires Explains(w, st, s, r) && Ready(st, r) && Step(st, r, c).result == Indeterminate
    ensures Explains(v, Step(st, r, c).st, s + [c], Step(st, r, c).r)
  {
    if st in {MajorStart, Major} {
      v := ExplainMajor(w, st, s, r, c);
    } else if st in {MinorStart, Minor} {
      v := ExplainMinor(w, st, s, r, c);
    } else if st == Newline1 {
      ExplainLineEnd(w, s, r);
      v := w;
    } else if InRequestLine(st) {
      v := ExplainLine(w, st, s, r, c);
    } else if st == HeaderLineStart {
      v := ExplainStart(w, s, r, c);
    } else {
      v := ExplainField(w, st, s, r, c);
    }
  }

  lemma {:induction false} ExplainAll(w: Layout, st: State, before: seq<Byte>, r: Req, s: seq<Byte>, o: Outcome) returns (v: Layout)
    requires Explains(w, st, before, r) && Ready(st, r) && o == Feed(st, r, s) && o.result == Good
    ensures o.used <= |s| && WellFormed(v) && Print(v) == before + s[..o.used] && o.r == Meaning(v) && o.st == Newline3
    decreases |s|
  {
    var more, next := FeedFirst(st, r, s, o);
    if more {
      v := ExplainFirst(w, st, before, r, s[0], next);
      var rest := Feed(next.st, next.r, s[1..]);
      v := ExplainAll(v, next.st, before + [s[0]], next.r, s[1..], rest);
      TakeMore(before, s, rest.used);
    } else {
      v := w;
      assert s[..1] == [LF];
      ExplainLast(w, before, r);
    }
  }

  /** The first character of accepted input: the last line end, or a character and then the rest. */
  lemma FeedFirst(st: State, r: Req, s: seq<Byte>, o: Outcome) returns (more: bool, next: Outcome)
    requires Ready(st, r) && o == Feed(st, r, s) && o.result == Good
    ensures s != []
    ensures more ==> next == Step(st, r, s[0]) && next.result == Indeterminate && Ready(next.st, next.r)
    ensures more ==> o == Later(Feed(next.st, next.r, s[1..]), 1)
    ensures !more ==> s[0] == LF && st == Newline3 && o == Outcome(Good, Newline3, r, 1)
  {
    StepReady(st, r, s[0]);
    next := Step(st, r, s[0]);
    more := next.result == Indeterminate;
  }

  lemma ExplainFirst(w: Layout, st: State, before: seq<Byte>, r: Req, c: Byte, next: Outcome) returns (v: Layout)
    requires Explains(w, st, before, r) && Ready(st, r) && next == Step(st, r, c) && next.result == Indeterminate
    ensures Explains(v, next.st, before + [c], next.r)
  {
    v := Explain(w, st, before, r, c);
  }

  lemma ExplainLast(w: Layout, s: seq<Byte>, r: Req)
    requires Explains(w, Newline3, s, r)
    ensures WellFormed(w) && Print(w) == s + [LF] && r == Meaning(w)
  {
    AppendAssociative(PrintLine(w) + PrintFields(w.fields), [CR], [LF]);
    assert [CR] + [LF] == [CR, LF];
  }

  lemma TakeMore(before: seq<Byte>, s: seq<Byte>, n: nat)
    requires n < |s|
    ensures before + [s[0]] + s[1..][..n] == before + s[..n + 1]
  {
    assert s[..n + 1] == [s[0]] + s[1..][..n];
  }

  /** What is accepted has been written. */
  lemma AcceptedWritten(s: seq<Byte>) returns (v: Layout)
    requires Feed(MethodStart, Start(), s).result == Good
    ensures var o := Feed(MethodStart, Start(), s);
      o.used <= |s| && WellFormed(v) && Print(v) == s[..o.used] && o.r == Meaning(v) && o.st == Newline3
  {
    var w := Layout([], [], [], [], []);
    assert Headers([]) == [] && Number([]) == 0;
    v := ExplainAll(w, MethodStart, [], Start(), s, Feed(MethodStart, Start(), s));
    var k := Feed(MethodStart, Start(), s).used;
    assert [] + s[..k] == s[..k];
  }

  /** The first k characters of s are written by w and mean q. */
  ghost predicate Writes(w: Layout, s: seq<Byte>, q: Req, k: nat) {
    WellFormed(w) && k <= |s| && Print(w) == s[..k] && Meaning(w) == q
  }

  lemma WrittenAccepted(w: Layout, s: seq<Byte>, q: Req, k: nat)
    requires Writes(w, s, q, k)
    ensures Feed(MethodStart, Start(), s) == Outcome(Good, Newline3, q, k)
  {
    PrintedAccepted(w, s[k..]);
    assert s == s[..k] + s[k..];
  }

  /** The parser accepts with this request after k characters if and only if these characters are a written request of that meaning. */
  lemma AcceptedExactly(s: seq<Byte>, q: Req, k: nat)
    ensures Feed(MethodStart, Start(), s) == Outcome(Good, Newline3, q, k) <==> exists w :: Writes(w, s, q, k)
  {
    if Feed(MethodStart, Start(), s) == Outcome(Good, Newline3, q, k) {
      var v := AcceptedWritten(s);
      assert Writes(v, s, q, k);
    }
    if exists w :: Writes(w, s, q, k) {
      var w :| Writes(w, s, q, k);
      WrittenAccepted(w, s, q, k);
    }
  }

  /** In an accepted request no version number overflows on the way exactly if both numbers that are returned leave room for the code of '0'. */
  lemma VersionsExact(w: Layout, s: seq<Byte>, q: Req, k: nat)
    requires Writes(w, s, q, k)
    ensures Feed(MethodStart, Start(), s) == Outcome(Good, Newline3, q, k)
    ensures StaysInt(w.major) && StaysInt(w.minor) <==> q.major + 48 <= MaxInt && q.minor + 48 <= MaxInt
  {
    WrittenAccepted(w, s, q, k);
    StaysIntExactly(w.major);
    StaysIntExactly(w.minor);
  }

  /** GET / HTTP/2147483600.0 */
  function OverflowingRequest(): Layout {
    Layout([71, 69, 84], [47], [50, 49, 52, 55, 52, 56, 51, 54, 48, 48], [48], [])
  }

  /** It is accepted, its numbers fit an int, but adding up the last digit does not. */
  lemma OverflowExample()
    ensures var w := OverflowingRequest();
      && Writes(w, Print(w), Meaning(w), |Print(w)|) && Meaning(w).major <= MaxInt && Meaning(w).minor == 0
      && Feed(MethodStart, Start(), Print(w)) == Outcome(Good, Newline3, Meaning(w), |Print(w)|)
      && !StaysInt(w.major) && StaysInt(w.minor)
  {
    var w := OverflowingRequest();
    assert Print(w)[..|Print(w)|] == Print(w);
    LargeNumber();
    assert Number([48]) == 0 by {
      assert Number([]) == 0;
    }
    VersionsExact(w, Print(w), Meaning(w), |Print(w)|);
    StaysIntExactly(w.major);
    StaysIntExactly(w.minor);
  }

  lemma LargeNumber()
    ensures Number(OverflowingRequest().major) == 2147483600
  {
    var s := OverflowingRequest().major;
    assert Number(s[..0]) == 0;
    DigitAdded(s, 0);
    DigitAdded(s, 1);
    DigitAdded(s, 2);
    DigitAdded(s, 3);
    DigitAdded(s, 4);
    DigitAdded(s, 5);
    DigitAdded(s, 6);
    DigitAdded(s, 7);
    DigitAdded(s, 8);
    DigitAdded(s, 9);
    assert s[..10] == s;
  }

  lemma DigitAdded(s: seq<Byte>, k: nat)
    requires k < |s|
    ensures Number(s[..k + 1]) == Number(s[..k]) * 10 + s[k] - 48
  {
    NumberNext(s[..k], s[k]);
    assert s[..k + 1] == s[..k] + [s[k]];
  }
}
