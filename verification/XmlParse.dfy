/** The tree parser for elements, attributes and character data, as a machine over the buffer. */
module XmlParse {
  import opened Sequences
  import opened Utf
  import opened TextSpec
  import opened XmlText

  const EQ: Byte := 61
  const SLASH: Byte := 47

  datatype Attribute = Attribute(name: seq<Byte>, value: seq<Byte>)

  datatype Xml = Elem(name: seq<Byte>, attrs: seq<Attribute>, kids: seq<Xml>) | Chars(text: seq<Byte>)

  predicate IsStart(c: Byte) {
    c > 127 || 97 <= c <= 122 || 65 <= c <= 90 || c == 95 || c == 58
  }

  predicate IsSymbol(c: Byte) {
    IsStart(c) || 48 <= c <= 57 || c == DASH || c == 46
  }

  /** An element whose end has not been seen; the outermost one, without a name, is the document. */
  datatype Frame = Frame(name: seq<Byte>, attrs: seq<Attribute>, kids: seq<Xml>)

  datatype State =
    | Main(i: nat, stack: seq<Frame>)
    | Tag(i: nat, stack: seq<Frame>)
    | Attrs(i: nat, stack: seq<Frame>)
    | Done(kids: seq<Xml>)
    | Failed

  /** A node becomes the last child of the innermost open element. */
  function AddKid(stack: seq<Frame>, x: Xml): seq<Frame>
    requires stack != []
  {
    var n := |stack| - 1;
    stack[..n] + [stack[n].(kids := stack[n].kids + [x])]
  }

  function AddAttr(stack: seq<Frame>, a: Attribute): seq<Frame>
    requires stack != []
  {
    var n := |stack| - 1;
    stack[..n] + [stack[n].(attrs := stack[n].attrs + [a])]
  }

  /** The innermost element is complete. */
  function Pop(stack: seq<Frame>): seq<Frame>
    requires |stack| > 1
    ensures Pop(stack) != []
  {
    var n := |stack| - 1;
    AddKid(stack[..n], Elem(stack[n].name, stack[n].attrs, stack[n].kids))
  }

  /** Number of symbol characters at i. */
  function SymbolRun(b: seq<Byte>, i: nat): (n: nat)
    ensures i <= |b| ==> i + n <= |b|
    decreases |b| - i
  {
    if i < |b| && IsSymbol(b[i]) then 1 + SymbolRun(b, i + 1) else 0
  }

  function SkipSpace(b: seq<Byte>, i: nat): (j: nat)
    ensures i <= j && (i <= |b| ==> j <= |b|)
    decreases |b| - i
  {
    if i < |b| && IsSpace(b[i]) then SkipSpace(b, i + 1) else i
  }

  /** End of the input: every element must have been closed. */
  function EndOfInput(stack: seq<Frame>): State
    requires stack != []
  {
    if |stack| == 1 then Done(stack[0].kids) else Failed
  }

  predicate Live(st: State) {
    st.Main? || st.Tag? || st.Attrs?
  }

  /** Between constructs: a tag, or text. Text outside the root element is skipped unless a fragment is parsed. */
  function StepMain(b: seq<Byte>, i: nat, stack: seq<Frame>, fragment: bool): State
    requires stack != []
  {
    if At(b, i) == 0 then EndOfInput(stack)
    else if b[i] == LT then Tag(i + 1, stack)
    else
      var j := StopAt(b, i, StopChar(LT));
      if |stack| > 1 || fragment then
        var text := Convert(b, i, Plainly, StopChar(LT));
        var next := if At(b, j) == LT then j + 1 else j;
        var grown := AddKid(stack, Chars(text));
        if At(b, next) == 0 then EndOfInput(grown) else Tag(next, grown)
      else if At(b, j) == 0 then EndOfInput(stack)
      else Tag(j + 1, stack)
  }

  /** Behind the opening bracket. Comments, sections and instructions are not part of this machine. */
  function StepTag(b: seq<Byte>, i: nat, stack: seq<Frame>): State
    requires stack != []
  {
    if IsStart(At(b, i)) then
      var n := SymbolRun(b, i);
      if i + n > |b| then Failed else
      var within := stack + [Frame(b[i..i + n], [], [])];
      var ch := At(b, i + n);
      if ch == GT then Main(i + n + 1, within)
      else if IsSpace(ch) then Attrs(i + n + 1, within)
      else if ch == SLASH && At(b, i + n + 1) == GT then Main(i + n + 2, Pop(within))
      else Failed
    else if At(b, i) == SLASH && |stack| > 1 then
      var n := SymbolRun(b, i + 1);
      var j := SkipSpace(b, i + 1 + n);
      if i + 1 + n <= |b| && b[i + 1..i + 1 + n] == stack[|stack| - 1].name && At(b, j) == GT then Main(j + 1, Pop(stack)) else Failed
    else Failed
  }

  /** Inside a tag: an attribute, or the end of the tag. */
  function StepAttrs(b: seq<Byte>, i: nat, stack: seq<Frame>): State
    requires stack != []
  {
    var s := SkipSpace(b, i);
    if IsStart(At(b, s)) then StepAttr(b, s, stack)
    else if At(b, s) == SLASH && At(b, s + 1) == GT && |stack| > 1 then Main(s + 2, Pop(stack))
    else if At(b, s) == GT then Main(s + 1, stack)
    else Failed
  }

  function StepAttr(b: seq<Byte>, s: nat, stack: seq<Frame>): State
    requires stack != []
  {
    var n := SymbolRun(b, s);
    var e := SkipSpace(b, s + n);
    var q := SkipSpace(b, e + 1);
    if s + n <= |b| && At(b, e) == EQ && (At(b, q) == QUOT || At(b, q) == APOS) then
      var stop := StopChar(At(b, q));
      var j := StopAt(b, q + 1, stop);
      if At(b, j) != At(b, q) || IsStart(At(b, j + 1)) then Failed
      else Attrs(j + 1, AddAttr(stack, Attribute(b[s..s + n], Convert(b, q + 1, Plainly, stop))))
    else Failed
  }

  predicate Sane(st: State) {
    Live(st) ==> st.stack != []
  }

  function Step(b: seq<Byte>, st: State, fragment: bool): (next: State)
    requires Live(st) && Sane(st)
    ensures Sane(next)
  {
    match st
    case Main(i, stack) => StepMain(b, i, stack, fragment)
    case Tag(i, stack) => StepTag(b, i, stack)
    case Attrs(i, stack) => StepAttrs(b, i, stack)
  }

  /** Every step reads on, so parsing ends. */
  lemma StepAdvances(b: seq<Byte>, st: State, fragment: bool)
    requires Live(st) && Sane(st) && Live(Step(b, st, fragment))
    ensures st.i < Step(b, st, fragment).i <= |b| + 1
  {
  }

  function Run(b: seq<Byte>, st: State, fragment: bool): State
    requires Sane(st)
    decreases if Live(st) then |b| + 2 - st.i else 0
  {
    if !Live(st) then st
    else if st.i > |b| + 1 then Failed
    else
      var next := Step(b, st, fragment);
      assert Live(next) ==> st.i < next.i by {
        if Live(next) {
          StepAdvances(b, st, fragment);
        }
      }
      Run(b, next, fragment)
  }
}
