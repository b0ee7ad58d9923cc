/** The HTTP request parser: one character at a time, in chunks of any size. */
module HttpParser {

  /** A char as the source sees it, signed. */
  type Byte = c: int | -128 <= c < 128 witness 0

  const SP: Byte := 32
  const HT: Byte := 9
  const CR: Byte := 13
  const LF: Byte := 10
  const COLON: Byte := 58
  const DOT: Byte := 46
  const SLASH: Byte := 47

  datatype Result = Good | Bad | Indeterminate

  datatype State =
    | MethodStart | Method | Uri
    | VersionH | VersionT1 | VersionT2 | VersionP | VersionSlash
    | MajorStart | Major | MinorStart | Minor
    | Newline1 | HeaderLineStart | HeaderLws | HeaderName | SpaceBeforeValue | HeaderValue | Newline2 | Newline3

  datatype Header = Header(name: seq<Byte>, value: seq<Byte>)

  datatype Req = Req(verb: seq<Byte>, uri: seq<Byte>, major: int, minor: int, headers: seq<Header>)

  // Character classes.

  predicate IsChar(c: int) {
    0 <= c <= 127
  }

  predicate IsCtl(c: int) {
    0 <= c <= 31 || c == 127
  }

  predicate IsTspecial(c: int) {
    c in {'(' as int, ')' as int, '<' as int, '>' as int, '@' as int, ',' as int, ';' as int, ':' as int, '\\' as int, '\"' as int,
          '/' as int, '[' as int, ']' as int, '?' as int, '=' as int, '{' as int, '}' as int, ' ' as int, '\t' as int}
  }

  predicate IsDigit(c: int) {
    48 <= c <= 57
  }

  /** Characters of methods and header names. */
  predicate IsToken(c: int) {
    IsChar(c) && !IsCtl(c) && !IsTspecial(c)
  }

  // One character, on values.

  function AddName(hs: seq<Header>, c: Byte): seq<Header>
    requires hs != []
  {
    var h := hs[|hs| - 1];
    hs[..|hs| - 1] + [h.(name := h.name + [c])]
  }

  function AddValue(hs: seq<Header>, c: Byte): seq<Header>
    requires hs != []
  {
    var h := hs[|hs| - 1];
    hs[..|hs| - 1] + [h.(value := h.value + [c])]
  }

  /** States that change the last header. */
  predicate TouchesHeader(st: State) {
    st in {HeaderLws, HeaderName, SpaceBeforeValue, HeaderValue, Newline2}
  }

  /** There is a last header whenever one is needed. */
  predicate Ready(st: State, r: Req) {
    TouchesHeader(st) ==> r.headers != []
  }

  datatype Outcome = Outcome(result: Result, st: State, r: Req, used: nat)

  function Go(st: State, r: Req): Outcome {
    Outcome(Indeterminate, st, r, 1)
  }

  /** A fixed character leads on, everything else is bad. */
  function Expect(st: State, r: Req, c: Byte, want: Byte, next: State): Outcome {
    if c == want then Go(next, r) else Outcome(Bad, st, r, 1)
  }

  function Step(st: State, r: Req, c: Byte): Outcome
    requires Ready(st, r)
  {
    var bad := Outcome(Bad, st, r, 1);
    match st
    case MethodStart => if IsToken(c) then Go(Method, r.(verb := r.verb + [c])) else bad
    case Method => if c == SP then Go(Uri, r) else if IsToken(c) then Go(Method, r.(verb := r.verb + [c])) else bad
    case Uri => if c == SP then Go(VersionH, r) else if IsCtl(c) then bad else Go(Uri, r.(uri := r.uri + [c]))
    case VersionH => Expect(st, r, c, 72, VersionT1)
    case VersionT1 => Expect(st, r, c, 84, VersionT2)
    case VersionT2 => Expect(st, r, c, 84, VersionP)
    case VersionP => Expect(st, r, c, 80, VersionSlash)
    case VersionSlash => if c == SLASH then Go(MajorStart, r.(major := 0, minor := 0)) else bad
    case MajorStart => if IsDigit(c) then Go(Major, r.(major := r.major * 10 + c - 48)) else bad
    case Major => if c == DOT then Go(MinorStart, r) else if IsDigit(c) then Go(Major, r.(major := r.major * 10 + c - 48)) else bad
    case MinorStart => if IsDigit(c) then Go(Minor, r.(minor := r.minor * 10 + c - 48)) else bad
    case Minor => if c == CR then Go(Newline1, r) else if IsDigit(c) then Go(Minor, r.(minor := r.minor * 10 + c - 48)) else bad
    case Newline1 => Expect(st, r, c, LF, HeaderLineStart)
    case HeaderLineStart =>
      if c == CR then Go(Newline3, r)
      else if r.headers != [] && (c == SP || c == HT) then Go(HeaderLws, r)
      else if IsToken(c) then Go(HeaderName, r.(headers := r.headers + [Header([c], [])]))
      else bad
    case HeaderLws =>
      if c == CR then Go(Newline2, r)
      else if c == SP || c == HT then Go(HeaderLws, r)
      else if IsCtl(c) then bad
      else Go(HeaderValue, r.(headers := AddValue(r.headers, c)))
    case HeaderName =>
      if c == COLON then Go(SpaceBeforeValue, r)
      else if IsToken(c) then Go(HeaderName, r.(headers := AddName(r.headers, c)))
      else bad
    case SpaceBeforeValue => Expect(st, r, c, SP, HeaderValue)
    case HeaderValue =>
      if c == CR then Go(Newline2, r) else if IsCtl(c) then bad else Go(HeaderValue, r.(headers := AddValue(r.headers, c)))
    case Newline2 => Expect(st, r, c, LF, HeaderLineStart)
    case Newline3 => Outcome(if c == LF then Good else Bad, st, r, 1)
  }

  lemma StepReady(st: State, r: Req, c: Byte)
    requires Ready(st, r)
    ensures Ready(Step(st, r, c).st, Step(st, r, c).r)
  {
  }

  // Many characters.

  function Feed(st: State, r: Req, s: seq<Byte>): Outcome
    requires Ready(st, r)
    decreases |s|
  {
    if s == [] then Outcome(Indeterminate, st, r, 0) else
      var o := Step(st, r, s[0]);
      StepReady(st, r, s[0]);
      if o.result != Indeterminate then o
      else Later(Feed(o.st, o.r, s[1..]), 1)
  }

  /** The same outcome with n characters used before. */
  function Later(o: Outcome, n: nat): Outcome {
    o.(used := o.used + n)
  }

  lemma {:induction false} FeedReady(st: State, r: Req, s: seq<Byte>)
    requires Ready(st, r)
    ensures var o := Feed(st, r, s); Ready(o.st, o.r) && o.used <= |s| && (o.result == Indeterminate ==> o.used == |s|)
    decreases |s|
  {
    if s != [] {
      StepReady(st, r, s[0]);
      var o := Step(st, r, s[0]);
      if o.result == Indeterminate {
        FeedReady(o.st, o.r, s[1..]);
      }
    }
  }

  /** Feeding a and then b is feeding a + b: the second part only matters if the first is not decisive. */
  lemma {:induction false} FeedAppend(st: State, r: Req, a: seq<Byte>, b: seq<Byte>)
    requires Ready(st, r)
    ensures var o := Feed(st, r, a);
      Ready(o.st, o.r) && Feed(st, r, a + b) == if o.result != Indeterminate then o else Later(Feed(o.st, o.r, b), |a|)
    decreases |a|
  {
    FeedReady(st, r, a);
    if a == [] {
      assert a + b == b;
    } else {
      assert (a + b)[0] == a[0] && (a + b)[1..] == a[1..] + b;
      StepReady(st, r, a[0]);
      var o := Step(st, r, a[0]);
      if o.result == Indeterminate {
        FeedAppend(o.st, o.r, a[1..], b);
      }
    }
  }

  /** Feeding one chunk after the other until a result is reached. */
  function FeedChunks(st: State, r: Req, chunks: seq<seq<Byte>>): Outcome
    requires Ready(st, r)
    decreases |chunks|
  {
    if chunks == [] then Outcome(Indeterminate, st, r, 0) else
      FeedReady(st, r, chunks[0]);
      var o := Feed(st, r, chunks[0]);
      if o.result != Indeterminate then o else Later(FeedChunks(o.st, o.r, chunks[1..]), o.used)
  }

  function Join(chunks: seq<seq<Byte>>): seq<Byte> {
    if chunks == [] then [] else chunks[0] + Join(chunks[1..])
  }

  /** How the input is cut into chunks makes no difference: result, request and characters used are the same. */
  lemma {:induction false} ChunkingIrrelevant(st: State, r: Req, chunks: seq<seq<Byte>>)
    requires Ready(st, r)
    ensures FeedChunks(st, r, chunks) == Feed(st, r, Join(chunks))
    decreases |chunks|
  {
    if chunks != [] {
      FeedAppend(st, r, chunks[0], Join(chunks[1..]));
      FeedReady(st, r, chunks[0]);
      var o := Feed(st, r, chunks[0]);
      if o.result == Indeterminate {
        ChunkingIrrelevant(o.st, o.r, chunks[1..]);
      }
    }
  }

  // The parser itself.

  class Request {
    var verb: seq<Byte>
    var uri: seq<Byte>
    var major: int
    var minor: int
    var headers: seq<Header>

    constructor ()
      ensures Value() == Req([], [], 0, 0, [])
    {
      verb, uri, major, minor, headers := [], [], 0, 0, [];
    }

    function Value(): Req
      reads this
    {
      Req(verb, uri, major, minor, headers)
    }
  }

  class RequestParser {
    var state: State

    constructor ()
      ensures state == MethodStart
    {
      state := MethodStart;
    }

    method Reset()
      modifies this
      ensures state == MethodStart
    {
      state := MethodStart;
    }

    /** Handle one character. A character that is refused changes nothing. */
    method Consume(req: Request, input: Byte) returns (result: Result)
      requires Ready(state, req.Value())
      modifies this, req
      ensures Outcome(result, state, req.Value(), 1) == old(Step(state, req.Value(), input))
    {
      result := Bad;
      match state {
        case MethodStart =>
          if IsToken(input) {
            state := Method;
            req.verb := req.verb + [input];
            result := Indeterminate;
          }
        case Method =>
          if input == SP {
            state := Uri;
            result := Indeterminate;
          } else if IsToken(input) {
            req.verb := req.verb + [input];
            result := Indeterminate;
          }
        case Uri =>
          if input == SP {
            state := VersionH;
            result := Indeterminate;
          } else if !IsCtl(input) {
            req.uri := req.uri + [input];
            result := Indeterminate;
          }
        case VersionH => result := Advance(input, 72, VersionT1);
        case VersionT1 => result := Advance(input, 84, VersionT2);
        case VersionT2 => result := Advance(input, 84, VersionP);
        case VersionP => result := Advance(input, 80, VersionSlash);
        case VersionSlash =>
          if input == SLASH {
            req.major := 0;
            req.minor := 0;
            state := MajorStart;
            result := Indeterminate;
          }
        case MajorStart =>
          if IsDigit(input) {
            req.major := req.major * 10 + input - 48;
            state := Major;
            result := Indeterminate;
          }
        case Major =>
          if input == DOT {
            state := MinorStart;
            result := Indeterminate;
          } else if IsDigit(input) {
            req.major := req.major * 10 + input - 48;
            result := Indeterminate;
          }
        case MinorStart =>
          if IsDigit(input) {
            req.minor := req.minor * 10 + input - 48;
            state := Minor;
            result := Indeterminate;
          }
        case Minor =>
          if input == CR {
            state := Newline1;
            result := Indeterminate;
          } else if IsDigit(input) {
            req.minor := req.minor * 10 + input - 48;
            result := Indeterminate;
          }
        case Newline1 => result := Advance(input, LF, HeaderLineStart);
        case Newline2 => result := Advance(input, LF, HeaderLineStart);
        case SpaceBeforeValue => result := Advance(input, SP, HeaderValue);
        case Newline3 => result := if input == LF then Good else Bad;
        case _ => result := ConsumeHeader(req, input);
      }
    }

    method Advance(input: Byte, want: Byte, next: State) returns (result: Result)
      modifies this
      ensures input == want ==> result == Indeterminate && state == next
      ensures input != want ==> result == Bad && state == old(state)
    {
      if input != want {
        return Bad;
      }
      state := next;
      result := Indeterminate;
    }

    method ConsumeHeader(req: Request, input: Byte) returns (result: Result)
      requires Ready(state, req.Value()) && state in {HeaderLineStart, HeaderLws, HeaderName, HeaderValue}
      modifies this, req
      ensures Outcome(result, state, req.Value(), 1) == old(Step(state, req.Value(), input))
    {
      result := Bad;
      match state {
        case HeaderLineStart =>
          if input == CR {
            state := Newline3;
            result := Indeterminate;
          } else if req.headers != [] && (input == SP || input == HT) {
            state := HeaderLws;
            result := Indeterminate;
          } else if IsToken(input) {
            req.headers := req.headers + [Header([], [])];
            assert req.headers[..|req.headers| - 1] == old(req.headers);
            assert [] + [input] == [input];
            req.headers := AddName(req.headers, input);
            state := HeaderName;
            result := Indeterminate;
          }
        case HeaderLws =>
          if input == CR {
            state := Newline2;
            result := Indeterminate;
          } else if input == SP || input == HT {
            result := Indeterminate;
          } else if !IsCtl(input) {
            state := HeaderValue;
            req.headers := AddValue(req.headers, input);
            result := Indeterminate;
          }
        case HeaderName =>
          if input == COLON {
            state := SpaceBeforeValue;
            result := Indeterminate;
          } else if IsToken(input) {
            req.headers := AddName(req.headers, input);
            result := Indeterminate;
          }
        case HeaderValue =>
          if input == CR {
            state := Newline2;
            result := Indeterminate;
          } else if !IsCtl(input) {
            req.headers := AddValue(req.headers, input);
            result := Indeterminate;
          }
      }
    }

    /** Parse a chunk; used says how far. */
    method Parse(req: Request, chunk: seq<Byte>) returns (result: Result, used: nat)
      requires Ready(state, req.Value())
      modifies this, req
      ensures Outcome(result, state, req.Value(), used) == old(Feed(state, req.Value(), chunk))
      ensures Ready(state, req.Value())
    {
      ghost var st, r := state, req.Value();
      var begin := 0;
      assert chunk[0..] == chunk;
      while begin != |chunk|
        invariant 0 <= begin <= |chunk| && Ready(state, req.Value())
        invariant Feed(st, r, chunk) == Later(Feed(state, req.Value(), chunk[begin..]), begin)
        decreases |chunk| - begin
      {
        StepReady(state, req.Value(), chunk[begin]);
        assert chunk[begin..][1..] == chunk[begin + 1..];
        result := Consume(req, chunk[begin]);
        begin := begin + 1;
        if result == Good || result == Bad {
          return result, begin;
        }
      }
      return Indeterminate, begin;
    }
  }

  lemma LaterTwice(o: Outcome, m: nat, n: nat)
    ensures Later(Later(o, m), n) == Later(o, m + n)
  {
  }

  /** Start over and parse a request that arrives in chunks: the outcome is that of the whole input at once. */
  method ParseChunks(parser: RequestParser, chunks: seq<seq<Byte>>) returns (result: Result, req: Request, used: nat)
    modifies parser
    ensures Outcome(result, parser.state, req.Value(), used) == Feed(MethodStart, Req([], [], 0, 0, []), Join(chunks))
  {
    parser.Reset();
    req := new Request();
    result, used := Indeterminate, 0;
    ghost var r := req.Value();
    assert chunks[0..] == chunks;
    for i := 0 to |chunks|
      invariant fresh(req) && Ready(parser.state, req.Value()) && result == Indeterminate
      invariant FeedChunks(MethodStart, r, chunks) == Later(FeedChunks(parser.state, req.Value(), chunks[i..]), used)
    {
      assert chunks[i..][0] == chunks[i] && chunks[i..][1..] == chunks[i + 1..];
      ghost var st, q := parser.state, req.Value();
      FeedReady(st, q, chunks[i]);
      var n;
      result, n := parser.Parse(req, chunks[i]);
      used := used + n;
      if result != Indeterminate {
        break;
      }
      LaterTwice(FeedChunks(parser.state, req.Value(), chunks[i + 1..]), n, used - n);
    }
    ChunkingIrrelevant(MethodStart, r, chunks);
  }
}
