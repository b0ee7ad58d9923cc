/**
 * What an expression means, after XPath 1.0: node sets are sets, and a predicate sees the
 * nodes of its step in axis order, or the nodes of a filtered set in document order.
 */
module XPathSemantics {
  import opened Sequences
  import opened XmlTree
  import opened Axes
  import opened Steps
  import opened DocumentOrder
  import opened NodeSets
  import opened XPathSyntax

  /**
   * Where the program departs from XPath 1.0. Each of these chooses the program's way: attribute::name selects
   * only the first attribute of that name, lang() is false at attributes, a node set and a boolean are related
   * node by node, and id() selects nothing.
   */
  datatype Quirks = Quirks(firstNamed: bool, noAttributeLang: bool, nodeByNode: bool, noIds: bool)

  /** Number parsing and printing, the values of the variables, and the nodes that have an ID according to the document type. */
  datatype Env = Env(
    quirks: Quirks,
    ids: string -> set<Ref>,
    parse: string -> Num,
    format: Num -> string,
    bools: string -> bool,
    nums: string -> Num,
    strs: string -> string,
    sets: string -> NodeSet)

  datatype Ctx = Ctx(n: XNode, pos: nat, size: nat)

  datatype Value = VBool(b: bool) | VNum(n: Num) | VStr(s: string) | VSet(xs: set<XNode>)

  // Arithmetic.

  function Neg(x: Num): Num {
    match x
    case NaN => NaN
    case NegInf => PosInf
    case PosInf => NegInf
    case Fin(r) => Fin(-r)
  }

  function Plus(x: Num, y: Num): Num {
    if x.NaN? || y.NaN? then NaN
    else if x.Fin? && y.Fin? then Fin(x.r + y.r)
    else if x.Fin? then y
    else if y.Fin? || x == y then x
    else NaN
  }

  /** Sign of a number that is not NaN. */
  function Sign(x: Num): int {
    match x
    case NegInf => -1
    case PosInf => 1
    case Fin(r) => if r < 0.0 then -1 else if r > 0.0 then 1 else 0
    case NaN => 0
  }

  function SignedInf(sign: int): Num {
    if sign < 0 then NegInf else if sign > 0 then PosInf else NaN
  }

  function Times(x: Num, y: Num): Num {
    if x.NaN? || y.NaN? then NaN
    else if x.Fin? && y.Fin? then Fin(x.r * y.r)
    else SignedInf(Sign(x) * Sign(y))
  }

  function Over(x: Num, y: Num): Num {
    if x.NaN? || y.NaN? || (!x.Fin? && !y.Fin?) then NaN
    else if !y.Fin? then Fin(0.0)
    else if y.r == 0.0 then SignedInf(Sign(x))
    else if x.Fin? then Fin(x.r / y.r)
    else SignedInf(Sign(x) * Sign(y))
  }

  function Trunc(r: real): real {
    if r < 0.0 then -((-r).Floor as real) else r.Floor as real
  }

  function Remainder(x: Num, y: Num): Num {
    if !x.Fin? || y.NaN? then NaN
    else if !y.Fin? then x
    else if y.r == 0.0 then NaN
    else Fin(x.r - y.r * Trunc(x.r / y.r))
  }

  function FloorOf(x: Num): Num {
    if x.Fin? then Fin(x.r.Floor as real) else x
  }

  function CeilingOf(x: Num): Num {
    if x.Fin? then Fin(-((-x.r).Floor as real)) else x
  }

  function RoundOf(x: Num): Num {
    if x.Fin? then Fin((x.r + 0.5).Floor as real) else x
  }

  predicate NumEq(x: Num, y: Num) {
    !x.NaN? && x == y
  }

  predicate NumLess(x: Num, y: Num) {
    match (x, y)
    case (Fin(a), Fin(b)) => a < b
    case (NegInf, Fin(_)) => true
    case (NegInf, PosInf) => true
    case (Fin(_), PosInf) => true
    case _ => false
  }

  // Strings.

  /** Position of the first occurrence of p in s, or |s| + 1. */
  function Find(s: string, p: string): (i: nat)
    ensures i <= |s| + 1
    ensures i <= |s| ==> p <= s[i..]
  {
    if p <= s then 0 else if s == "" then 1 else
      var k := Find(s[1..], p);
      assert k <= |s[1..]| ==> s[1..][k..] == s[k + 1..];
      k + 1
  }

  function Before_(s: string, p: string): string {
    if Find(s, p) > |s| then "" else s[..Find(s, p)]
  }

  function After_(s: string, p: string): string {
    var i := Find(s, p);
    if i > |s| then "" else s[i..][|p|..]
  }

  function LocalPart(name: string): string {
    if ':' in name then name[IndexOf(name, ':') + 1..] else name
  }

  /** translate(): characters of from become those of to at the same position, or disappear. */
  function TranslateText(s: string, from: string, to: string): string {
    if s == "" then "" else
      var rest := TranslateText(s[1..], from, to);
      if s[0] !in from then [s[0]] + rest
      else if IndexOf(from, s[0]) < |to| then [to[IndexOf(from, s[0])]] + rest
      else rest
  }

  /** The same by a table: 128 means that the character disappears. */
  function TranslateByTable(s: string, table: seq<nat>): string {
    if s == "" then "" else
      var rest := TranslateByTable(s[1..], table);
      var c := s[0] as int;
      if c >= |table| then [s[0]] + rest
      else if table[c] >= 128 then rest
      else [table[c] as char] + rest
  }

  /** White space, section 2.3 of XML 1.0. */
  predicate Blank(c: char) {
    c in {' ', '\t', '\r', '\n'}
  }

  function SkipBlanks(s: string): (r: string)
    ensures |r| <= |s| && (r != "" ==> !Blank(r[0]))
  {
    if s != "" && Blank(s[0]) then SkipBlanks(s[1..]) else s
  }

  /** Length of the word that s begins with. */
  function WordLength(s: string): (n: nat)
    ensures n <= |s| && (s != "" && !Blank(s[0]) ==> n > 0)
  {
    if s == "" || Blank(s[0]) then 0 else 1 + WordLength(s[1..])
  }

  function Words(s: string): seq<string>
    decreases |s|
  {
    var r := SkipBlanks(s);
    if r == "" then [] else [r[..WordLength(r)]] + Words(r[WordLength(r)..])
  }

  function Spaced(words: seq<string>): string {
    if words == [] then "" else if |words| == 1 then words[0] else words[0] + " " + Spaced(words[1..])
  }

  /** normalize-space(), section 4.2: the words, one space between two of them. */
  function NormalizeSpace(s: string): string {
    Spaced(Words(s))
  }

  /** The characters of s at the positions that are to be kept, if k characters come before s. */
  function CharsAt(s: string, keep: nat -> bool, k: nat): string {
    if s == "" then "" else (if keep(k + 1) then [s[0]] else "") + CharsAt(s[1..], keep, k + 1)
  }

  predicate InRange(p: nat, from: Num, to: Num) {
    (NumLess(from, Fin(p as real)) || NumEq(from, Fin(p as real))) && NumLess(Fin(p as real), to)
  }

  function Within(from: Num, to: Num): nat -> bool {
    (p: nat) => InRange(p, from, to)
  }

  /** The characters of s whose positions p satisfy from <= p < to. */
  function CharsBetween(s: string, from: Num, to: Num): string {
    CharsAt(s, Within(from, to), 0)
  }

  /** substring(), section 4.2. */
  function SubstringFrom(s: string, start: Num): string {
    CharsBetween(s, RoundOf(start), PosInf)
  }

  function SubstringOf(s: string, start: Num, length: Num): string {
    CharsBetween(s, RoundOf(start), Plus(RoundOf(start), RoundOf(length)))
  }

  function Lower(c: char): char {
    if 'A' <= c <= 'Z' then (c as int + 32) as char else c
  }

  /** The same language, or a sublanguage of it, in any case. */
  predicate LangMatches(lang: string, value: string) {
    && |lang| <= |value| && (|value| == |lang| || value[|lang|] == '-')
    && forall i | 0 <= i < |lang| :: Lower(value[i]) == Lower(lang[i])
  }

  // Nodes.

  datatype Found = Nowhere | There(value: string)

  /** The value of the first attribute whose name passes. */
  function FirstValue(s: seq<Attr>, name: string -> bool): Found {
    if s == [] then Nowhere else if name(s[0].name) then There(s[0].value) else FirstValue(s[1..], name)
  }

  /** That of the nearest node that has one, n itself or above it. */
  function Inherited(t: Tree, n: Ref, name: string -> bool): Found
    requires Wf(t) && n in t.node
    decreases t.node[t.root].rank - t.node[n].rank
  {
    var here := FirstValue(t.node[n].attrs, name);
    if here.There? || n == t.root then here else Inherited(t, Parent(t, n), name)
  }

  /** The nearest xml:lang, at n or above it, is the language or a sublanguage of it. */
  predicate Speaks(t: Tree, n: Ref, lang: string)
    requires Wf(t) && n in t.node
  {
    var f := Inherited(t, n, name => name == "xml:lang");
    f.There? && LangMatches(lang, f.value)
  }

  /** lang(), section 4.3; at attributes only if these are not left out. */
  predicate LangIs(t: Tree, noAttributes: bool, x: XNode, lang: string)
    requires Wf(t)
  {
    Has(t, x) && !(noAttributes && x.XAttr?) && Speaks(t, Owner(x), lang)
  }

  /** The declaration that binds the prefix of a qualified name, or the default one. */
  function Declares(name: string): string -> bool {
    if ':' in name then (a: string) => a == "xmlns:" + name[..IndexOf(name, ':')] else (a: string) => a == "xmlns"
  }

  /** namespace-uri(): the default namespace does not apply to attributes. */
  function NamespaceUri(t: Tree, x: XNode): string
    requires Wf(t)
  {
    var name := QualifiedName(t, x);
    if !Has(t, x) || (x.XAttr? && ':' !in name) then "" else
      var f := Inherited(t, Owner(x), Declares(name));
      if f.There? then f.value else ""
  }

  /** The text nodes of s, joined. */
  function TextOf(t: Tree, s: seq<Ref>): string
    requires Wf(t)
  {
    if s == [] then ""
    else if s[0] in t.node && t.node[s[0]].info.ty in {Pcdata, Cdata} then t.node[s[0]].info.value + TextOf(t, s[1..])
    else TextOf(t, s[1..])
  }

  /** Section 5 of XPath 1.0: the string value of a node. */
  function StringValue(t: Tree, x: XNode): string
    requires Wf(t)
  {
    if !Has(t, x) then "" else
    match x
    case XAttr(a, p) => t.node[p].attrs[FindAttr(t.node[p].attrs, a)].value
    case XElem(n) =>
      var info := t.node[n].info;
      if info.ty in {Pcdata, Cdata, Comment, Pi} then info.value
      else if info.ty in {Document, Element} then TextOf(t, Forest(t, n, 0))
      else ""
  }

  function QualifiedName(t: Tree, x: XNode): string
    requires Wf(t)
  {
    if !Has(t, x) then "" else
    match x
    case XAttr(a, p) => t.node[p].attrs[FindAttr(t.node[p].attrs, a)].name
    case XElem(n) => t.node[n].info.name
  }

  function AttrItems(s: seq<Attr>, p: Ref): seq<XNode> {
    if s == [] then [] else [XAttr(s[0].id, p)] + AttrItems(s[1..], p)
  }

  /** Every node and attribute of the nodes in s, owners first. */
  function ItemsOf(t: Tree, s: seq<Ref>): seq<XNode>
    requires Wf(t)
  {
    if s == [] then []
    else if s[0] in t.node then [XElem(s[0])] + AttrItems(t.node[s[0]].attrs, s[0]) + ItemsOf(t, s[1..])
    else ItemsOf(t, s[1..])
  }

  /** A set in document order. */
  ghost function InOrder(t: Tree, xs: set<XNode>): seq<XNode>
    requires Wf(t)
  {
    Sequences.Filter(ItemsOf(t, Nodes(t)), x => x in xs)
  }

  function Elements(s: seq<XNode>): set<XNode> {
    set x | x in s
  }

  ghost function FirstOf(t: Tree, xs: set<XNode>): XNode
    requires Wf(t)
  {
    var s := InOrder(t, xs);
    if s == [] then XNull else s[0]
  }

  // Conversions, sections 4.2 to 4.4.

  ghost function ToBool(v: Value): bool {
    match v
    case VBool(b) => b
    case VNum(n) => !n.NaN? && n != Fin(0.0)
    case VStr(s) => s != ""
    case VSet(xs) => xs != {}
  }

  ghost function ToStr(t: Tree, env: Env, v: Value): string
    requires Wf(t)
  {
    match v
    case VBool(b) => if b then "true" else "false"
    case VNum(n) => env.format(n)
    case VStr(s) => s
    case VSet(xs) => StringValue(t, FirstOf(t, xs))
  }

  ghost function ToNum(t: Tree, env: Env, v: Value): Num
    requires Wf(t)
  {
    match v
    case VBool(b) => if b then Fin(1.0) else Fin(0.0)
    case VNum(n) => n
    case VStr(s) => env.parse(s)
    case VSet(_) => env.parse(ToStr(t, env, v))
  }

  function SumOf(t: Tree, env: Env, s: seq<XNode>): Num
    requires Wf(t)
  {
    if s == [] then Fin(0.0) else Plus(env.parse(StringValue(t, s[0])), SumOf(t, env, s[1..]))
  }

  // Comparisons, section 3.4.

  predicate StrCmp(equal: bool, x: string, y: string) {
    (x == y) == equal
  }

  predicate NumCmp(equal: bool, x: Num, y: Num) {
    NumEq(x, y) == equal
  }

  ghost predicate CompareEq(t: Tree, env: Env, equal: bool, v: Value, w: Value)
    requires Wf(t)
  {
    if v.VSet? && w.VSet? then
      exists x, y | x in v.xs && y in w.xs :: StrCmp(equal, StringValue(t, x), StringValue(t, y))
    else if v.VBool? || w.VBool? then (ToBool(v) == ToBool(w)) == equal
    else if v.VSet? then CompareEqSet(t, env, equal, w, v.xs)
    else if w.VSet? then CompareEqSet(t, env, equal, v, w.xs)
    else if v.VNum? || w.VNum? then NumCmp(equal, ToNum(t, env, v), ToNum(t, env, w))
    else StrCmp(equal, ToStr(t, env, v), ToStr(t, env, w))
  }

  /** A number or a string against a node set. */
  ghost predicate CompareEqSet(t: Tree, env: Env, equal: bool, v: Value, xs: set<XNode>)
    requires Wf(t)
  {
    match v
    case VNum(n) => exists x | x in xs :: NumCmp(equal, n, env.parse(StringValue(t, x)))
    case VStr(s) => exists x | x in xs :: StrCmp(equal, s, StringValue(t, x))
    case _ => false
  }

  predicate RelCmp(strict: bool, x: Num, y: Num) {
    if strict then NumLess(x, y) else NumLess(x, y) || NumEq(x, y)
  }

  function NumberOf(t: Tree, env: Env, x: XNode): Num
    requires Wf(t)
  {
    env.parse(StringValue(t, x))
  }

  function BoolNum(b: bool): Num {
    Fin(if b then 1.0 else 0.0)
  }

  predicate SetAndBool(v: Value, w: Value) {
    (v.VSet? && w.VBool?) || (v.VBool? && w.VSet?)
  }

  ghost predicate CompareRel(t: Tree, env: Env, strict: bool, v: Value, w: Value)
    requires Wf(t)
  {
    if SetAndBool(v, w) && !env.quirks.nodeByNode then RelCmp(strict, BoolNum(ToBool(v)), BoolNum(ToBool(w)))
    else if v.VSet? && w.VSet? then
      exists x, y | x in v.xs && y in w.xs :: RelCmp(strict, NumberOf(t, env, x), NumberOf(t, env, y))
    else if w.VSet? then exists y | y in w.xs :: RelCmp(strict, ToNum(t, env, v), NumberOf(t, env, y))
    else if v.VSet? then exists x | x in v.xs :: RelCmp(strict, NumberOf(t, env, x), ToNum(t, env, w))
    else RelCmp(strict, ToNum(t, env, v), ToNum(t, env, w))
  }

  // Evaluation.

  ghost function Eval(t: Tree, env: Env, e: Expr, c: Ctx): Value
    requires Wf(t)
    decreases e, 0
  {
    match e
    case OfNodes(s) => VSet(EvalSet(t, env, s, c))
    case StrConst(s) => VStr(s)
    case NumConst(n) => VNum(n)
    case Var(v, ty) =>
      (match ty case TBool => VBool(env.bools(v)) case TNum => VNum(env.nums(v)) case TStr => VStr(env.strs(v)))
    case Zero(f) => EvalZero(t, env, f, c)
    case One(f, a) => EvalOne(t, env, f, c.n, Eval(t, env, a, c))
    case OfSet(f, s) => EvalOfSet(t, env, f, EvalSet(t, env, s, c))
    case Two(f, l, r) => EvalTwo(t, env, f, Eval(t, env, l, c), Eval(t, env, r, c))
    case Concat(a, rest) => VStr(ToStr(t, env, Eval(t, env, a, c)) + EvalConcat(t, env, rest, c))
    case Translate(a, from, to) =>
      VStr(TranslateText(ToStr(t, env, Eval(t, env, a, c)), ToStr(t, env, Eval(t, env, from, c)), ToStr(t, env, Eval(t, env, to, c))))
    case Substring3(a, start, length) =>
      VStr(SubstringOf(ToStr(t, env, Eval(t, env, a, c)), ToNum(t, env, Eval(t, env, start, c)), ToNum(t, env, Eval(t, env, length, c))))
    case OptTranslateTable(a, table) => VStr(TranslateByTable(ToStr(t, env, Eval(t, env, a, c)), table))
    case OptCompareAttribute(name, value) => VBool(FirstAttributeIs(t, c.n, name, ToStr(t, env, Eval(t, env, value, c))))
  }

  ghost function EvalConcat(t: Tree, env: Env, es: Exprs, c: Ctx): string
    requires Wf(t)
    decreases es, 0
  {
    match es
    case ENil => ""
    case ECons(e, rest) => ToStr(t, env, Eval(t, env, e, c)) + EvalConcat(t, env, rest, c)
  }

  function EvalZero(t: Tree, env: Env, f: ZeroFun, c: Ctx): Value
    requires Wf(t)
  {
    match f
    case Last => VNum(Fin(c.size as real))
    case Position => VNum(Fin(c.pos as real))
    case True => VBool(true)
    case False => VBool(false)
    case LocalName0 => VStr(LocalPart(QualifiedName(t, c.n)))
    case Name0 => VStr(QualifiedName(t, c.n))
    case String0 => VStr(StringValue(t, c.n))
    case StringLength0 => VNum(Fin(|StringValue(t, c.n)| as real))
    case Number0 => VNum(NumberOf(t, env, c.n))
    case NamespaceUri0 => VStr(NamespaceUri(t, c.n))
    case NormalizeSpace0 => VStr(NormalizeSpace(StringValue(t, c.n)))
  }

  ghost function EvalOne(t: Tree, env: Env, f: OneFun, x: XNode, v: Value): Value
    requires Wf(t)
  {
    match f
    case Negate => VNum(Neg(ToNum(t, env, v)))
    case Boolean => VBool(ToBool(v))
    case Not => VBool(!ToBool(v))
    case String1 => VStr(ToStr(t, env, v))
    case StringLength1 => VNum(Fin(|ToStr(t, env, v)| as real))
    case Number1 => VNum(ToNum(t, env, v))
    case Floor => VNum(FloorOf(ToNum(t, env, v)))
    case Ceiling => VNum(CeilingOf(ToNum(t, env, v)))
    case Round => VNum(RoundOf(ToNum(t, env, v)))
    case NormalizeSpace1 => VStr(NormalizeSpace(ToStr(t, env, v)))
    case Lang => VBool(LangIs(t, env.quirks.noAttributeLang, x, ToStr(t, env, v)))
  }

  ghost function EvalOfSet(t: Tree, env: Env, f: SetFun, xs: set<XNode>): Value
    requires Wf(t)
  {
    match f
    case Count => VNum(Fin(|xs| as real))
    case Sum => VNum(SumOf(t, env, InOrder(t, xs)))
    case LocalName1 => VStr(LocalPart(QualifiedName(t, FirstOf(t, xs))))
    case Name1 => VStr(QualifiedName(t, FirstOf(t, xs)))
    case NamespaceUri1 => VStr(NamespaceUri(t, FirstOf(t, xs)))
  }

  ghost function EvalTwo(t: Tree, env: Env, f: TwoFun, v: Value, w: Value): Value
    requires Wf(t)
  {
    match f
    case Or => VBool(ToBool(v) || ToBool(w))
    case And => VBool(ToBool(v) && ToBool(w))
    case Equal => VBool(CompareEq(t, env, true, v, w))
    case NotEqual => VBool(CompareEq(t, env, false, v, w))
    case Less => VBool(CompareRel(t, env, true, v, w))
    case Greater => VBool(CompareRel(t, env, true, w, v))
    case LessOrEqual => VBool(CompareRel(t, env, false, v, w))
    case GreaterOrEqual => VBool(CompareRel(t, env, false, w, v))
    case Add => VNum(Plus(ToNum(t, env, v), ToNum(t, env, w)))
    case Subtract => VNum(Plus(ToNum(t, env, v), Neg(ToNum(t, env, w))))
    case Multiply => VNum(Times(ToNum(t, env, v), ToNum(t, env, w)))
    case Divide => VNum(Over(ToNum(t, env, v), ToNum(t, env, w)))
    case Mod => VNum(Remainder(ToNum(t, env, v), ToNum(t, env, w)))
    case StartsWithFun => VBool(ToStr(t, env, w) <= ToStr(t, env, v))
    case Contains => VBool(Find(ToStr(t, env, v), ToStr(t, env, w)) <= |ToStr(t, env, v)|)
    case SubstringBefore => VStr(Before_(ToStr(t, env, v), ToStr(t, env, w)))
    case SubstringAfter => VStr(After_(ToStr(t, env, v), ToStr(t, env, w)))
    case Substring2 => VStr(SubstringFrom(ToStr(t, env, v), ToNum(t, env, w)))
  }

  /** The element n has an attribute of that name, and the first such attribute has that value. */
  predicate FirstAttributeIs(t: Tree, x: XNode, name: string, value: string)
    requires Wf(t)
  {
    && x.XElem? && x.n in t.node && IsXPathAttribute(name)
    && FirstNamedIs(t.node[x.n].attrs, name, value)
  }

  predicate FirstNamedIs(s: seq<Attr>, name: string, value: string) {
    s != [] && if s[0].name == name then s[0].value == value else FirstNamedIs(s[1..], name, value)
  }

  /** Is n the node with one of the IDs that the text lists? */
  predicate Identified(env: Env, text: string, n: Ref) {
    exists w | w in Words(text) :: n in env.ids(w)
  }

  /** id(), section 4.1. */
  ghost function IdNodes(t: Tree, env: Env, v: Value): set<XNode>
    requires Wf(t)
  {
    if v.VSet? then set n, x | n in t.node && x in v.xs && Identified(env, StringValue(t, x), n) :: XElem(n)
    else set n | n in t.node && Identified(env, ToStr(t, env, v), n) :: XElem(n)
  }

  ghost function EvalSet(t: Tree, env: Env, s: SetExpr, c: Ctx): set<XNode>
    requires Wf(t)
    decreases s, 0
  {
    match s
    case Union(l, r) => EvalSet(t, env, l, c) + EvalSet(t, env, r, c)
    case Filter(inner, p, _) =>
      var xs := InOrder(t, EvalSet(t, env, inner, c));
      Elements(Keep(t, env, p, xs, 0, |xs|))
    case IdOf(a) => if env.quirks.noIds then {} else IdNodes(t, env, Eval(t, env, a, c))
    case Step(base, axis, test, preds) =>
      var from := EvalBase(t, env, base, c);
      set x, y | x in from && y in Selected(t, env, axis, test, preds, x) :: y
    case Root => if c.n == XNull then {} else {XElem(t.root)}
    case SetVar(v) => Elements(env.sets(v).items)
  }

  ghost function EvalBase(t: Tree, env: Env, b: Base, c: Ctx): set<XNode>
    requires Wf(t)
    decreases b, 0
  {
    match b
    case FromContext => {c.n}
    case From(s) => EvalSet(t, env, s, c)
  }

  /** What a step reaches from one node before its predicates are applied. */
  function Reached(t: Tree, env: Env, axis: Axis, test: NodeTest, x: XNode): seq<XNode>
    requires Wf(t)
  {
    FirstIf(env.quirks.firstNamed && axis == AttributeAxis && test.NameTest?, StepItems(t, axis, test, x))
  }

  /** What one step selects from one node. */
  ghost function Selected(t: Tree, env: Env, axis: Axis, test: NodeTest, preds: Preds, x: XNode): seq<XNode>
    requires Wf(t)
    decreases preds, 1
  {
    ApplyPreds(t, env, preds, Reached(t, env, axis, test, x))
  }

  ghost function ApplyPreds(t: Tree, env: Env, preds: Preds, s: seq<XNode>): seq<XNode>
    requires Wf(t)
    decreases preds, 0
  {
    match preds
    case PNil => s
    case PCons(p, _, rest) => ApplyPreds(t, env, rest, Keep(t, env, p, s, 0, |s|))
  }

  /** The nodes of s for which p holds; i nodes came before s, size is the size of the whole list. */
  ghost function Keep(t: Tree, env: Env, p: Expr, s: seq<XNode>, i: nat, size: nat): (r: seq<XNode>)
    requires Wf(t)
    ensures |r| <= |s|
    decreases p, 2, |s|
  {
    if s == [] then [] else
      var rest := Keep(t, env, p, s[1..], i + 1, size);
      if Holds(t, env, p, Ctx(s[0], i + 1, size)) then [s[0]] + rest else rest
  }

  /** Section 2.4: a number is compared with the position, anything else is converted to a boolean. */
  ghost predicate Holds(t: Tree, env: Env, p: Expr, c: Ctx)
    requires Wf(t)
    decreases p, 1
  {
    if IsNumber(p) then NumEq(ToNum(t, env, Eval(t, env, p, c)), Fin(c.pos as real))
    else ToBool(Eval(t, env, p, c))
  }
}
