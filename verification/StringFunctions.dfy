/** White space, substrings, languages and namespaces: what the loops compute is what XPath 1.0 defines. */
module StringFunctions {
  import opened Sequences
  import opened XmlTree
  import opened Steps
  import opened DocumentOrder
  import opened XPathSyntax
  import opened XPathSemantics

  // White space, normalised in place.

  predicate EndsBlank(s: string) {
    s == "" || Blank(s[|s| - 1])
  }

  function DropBlank(s: string): string {
    if s != "" && Blank(s[|s| - 1]) then s[..|s| - 1] else s
  }

  /** What comes of rest behind what has been written: a run of white space leaves one space, none at the start and none at the end. */
  function Gathered(out: string, rest: string): string
    decreases |rest|
  {
    if rest == "" then DropBlank(out)
    else if Blank(rest[0]) then Gathered(if EndsBlank(out) then out else out + " ", rest[1..])
    else Gathered(out + [rest[0]], rest[1..])
  }

  function Behind(words: seq<string>): string {
    if words == [] then "" else " " + Spaced(words)
  }

  lemma WordsAt(s: string)
    ensures s == "" ==> Words(s) == []
    ensures s != "" && Blank(s[0]) ==> Words(s) == Words(s[1..])
    ensures s != "" && !Blank(s[0]) ==> Spaced(Words(s)) == s[..WordLength(s)] + Behind(Words(s[WordLength(s)..]))
  {
    if s != "" && !Blank(s[0]) {
      assert SkipBlanks(s) == s;
    }
  }

  /** Gathering gives the words with one space between them. */
  lemma {:induction false} GatheredWords(out: string, rest: string)
    ensures Gathered(out, rest) == Expected(out, rest)
    decreases |rest|
  {
    if rest == "" {
      WordsAt("");
    } else if Blank(rest[0]) {
      GatheredWords(if EndsBlank(out) then out else out + " ", rest[1..]);
      ExpectedBlank(out, rest);
    } else {
      GatheredWords(out + [rest[0]], rest[1..]);
      ExpectedWord(out, rest);
    }
  }

  /** What is to come behind white space, or behind a word that rest may continue. */
  function Expected(out: string, rest: string): string {
    if !EndsBlank(out) then out + rest[..WordLength(rest)] + Behind(Words(rest[WordLength(rest)..]))
    else if Words(rest) == [] then DropBlank(out)
    else out + Spaced(Words(rest))
  }

  lemma ExpectedBlank(out: string, rest: string)
    requires rest != "" && Blank(rest[0])
    ensures Expected(out, rest) == Expected(if EndsBlank(out) then out else out + " ", rest[1..])
  {
    WordsAt(rest);
    if !EndsBlank(out) {
      assert rest[0..] == rest && rest[..0] == "" && DropBlank(out + " ") == out;
      AppendAssociative(out, " ", Spaced(Words(rest)));
    }
  }

  lemma ExpectedWord(out: string, rest: string)
    requires rest != "" && !Blank(rest[0])
    ensures Expected(out, rest) == Expected(out + [rest[0]], rest[1..])
  {
    WordsAt(rest);
    var n, tail := WordLength(rest), rest[1..];
    assert rest[..n] == [rest[0]] + tail[..n - 1] && rest[n..] == tail[n - 1..];
    var more := Behind(Words(rest[n..]));
    AppendAssociative(out, [rest[0]], tail[..n - 1]);
    if EndsBlank(out) {
      assert Words(rest) != [];
      AppendAssociative(out, rest[..n], more);
    }
  }

  /** More white space behind white space changes nothing. */
  lemma SkipsBlank(out: string, s: string, k: nat)
    requires k < |s| && Blank(s[k]) && EndsBlank(out)
    ensures Gathered(out, s[k..]) == Gathered(out, s[k + 1..])
  {
    assert s[k..][0] == s[k] && s[k..][1..] == s[k + 1..];
  }

  lemma GathersNext(out: string, s: string, k: nat)
    requires k < |s|
    ensures Blank(s[k]) ==> Gathered(out, s[k..]) == Gathered(if EndsBlank(out) then out else out + " ", s[k + 1..])
    ensures !Blank(s[k]) ==> Gathered(out, s[k..]) == Gathered(out + [s[k]], s[k + 1..])
  {
    assert s[k..][0] == s[k] && s[k..][1..] == s[k + 1..];
  }

  /** Rewrites the buffer; the result is what lies before the write position that is returned. */
  method NormalizeBuffer(a: array<char>) returns (write: nat)
    modifies a
    ensures write <= a.Length && a[..write] == NormalizeSpace(old(a[..]))
  {
    write := 0;
    var it := 0;
    ghost var s := a[..];
    assert s[0..] == s;
    while it < a.Length
      invariant write <= it <= a.Length && a[it..] == s[it..]
      invariant Gathered(a[..write], s[it..]) == Gathered("", s)
      invariant write > 0 && Blank(a[write - 1]) ==> it == a.Length || !Blank(s[it])
    {
      write, it := NormalizeOne(a, write, it, s);
    }
    assert s[it..] == "";
    GatheredWords("", s);
    ghost var out := a[..write];
    if write != 0 && Blank(a[write - 1]) {
      write := write - 1;
      assert a[..write] == DropBlank(out);
    }
  }

  /** One character that is kept, or one run of white space. */
  method NormalizeOne(a: array<char>, write0: nat, it0: nat, ghost s: string) returns (write: nat, it: nat)
    requires write0 <= it0 < a.Length == |s| && a[it0..] == s[it0..]
    requires write0 > 0 && Blank(a[write0 - 1]) ==> !Blank(s[it0])
    modifies a
    ensures it0 < it && write <= it <= a.Length && a[it..] == s[it..]
    ensures Gathered(a[..write], s[it..]) == Gathered(old(a[..write0]), s[it0..])
    ensures write > 0 && Blank(a[write - 1]) ==> it == a.Length || !Blank(s[it])
  {
    write, it := write0, it0 + 1;
    ghost var out := a[..write];
    SameBehind(a[..], s, it0);
    var ch := a[it0];
    GathersNext(out, s, it0);
    if Blank(ch) {
      it := SkipRun(a, it, if EndsBlank(out) then out else out + " ", s);
      if write != 0 {
        a[write] := ' ';
        write := write + 1;
        assert a[..write] == out + " ";
      }
    } else {
      a[write] := ch;
      write := write + 1;
      assert a[..write] == out + [ch];
    }
    assert a[it..] == s[it..];
  }

  lemma SameBehind(a: string, s: string, i: nat)
    requires |a| == |s| && i <= |s| && a[i..] == s[i..]
    ensures forall k | i <= k < |s| :: a[k] == s[k]
  {
    assert forall k | i <= k < |s| :: a[k] == a[i..][k - i] == s[i..][k - i];
  }

  /** The end of a run of white space. */
  method SkipRun(a: array<char>, from: nat, ghost out: string, ghost s: string) returns (it: nat)
    requires from <= a.Length == |s| && (forall k | from <= k < |s| :: a[k] == s[k]) && EndsBlank(out)
    ensures from <= it <= a.Length && (it == a.Length || !Blank(s[it])) && Gathered(out, s[it..]) == Gathered(out, s[from..])
  {
    it := from;
    while it < a.Length && Blank(a[it])
      invariant from <= it <= a.Length && Gathered(out, s[it..]) == Gathered(out, s[from..])
    {
      SkipsBlank(out, s, it);
      it := it + 1;
    }
  }

  method Normalized(x: string) returns (s: string)
    ensures s == NormalizeSpace(x)
  {
    var a := new char[|x|](i requires 0 <= i < |x| => x[i]);
    assert a[..] == x;
    var k := NormalizeBuffer(a);
    s := a[..k];
  }

  // Substrings.

  /** If exactly the positions from lo to hi are kept, the characters there are what is selected. */
  lemma {:induction false} CharsAre(s: string, keep: nat -> bool, k: nat, lo: nat, hi: nat)
    requires k < lo <= hi <= k + |s| + 1 && forall p | k < p <= k + |s| :: keep(p) <==> lo <= p < hi
    ensures CharsAt(s, keep, k) == s[lo - k - 1..hi - k - 1]
  {
    if s != "" {
      var tail := s[1..];
      var low, high := if lo == k + 1 then k + 2 else lo, if hi == k + 1 then k + 2 else hi;
      CharsAre(tail, keep, k + 1, low, high);
      if lo == k + 1 < hi {
        assert [s[0]] + tail[..high - k - 2] == s[..hi - k - 1];
      } else if lo > k + 1 {
        assert tail[low - k - 2..high - k - 2] == s[lo - k - 1..hi - k - 1];
      }
    }
  }

  /** Rounded numbers, and sums of them, are whole. */
  predicate Integral(x: Num) {
    x.Fin? ==> x.r == x.r.Floor as real
  }

  lemma RoundedIntegral(x: Num, y: Num)
    ensures Integral(RoundOf(x)) && Integral(Plus(RoundOf(x), RoundOf(y)))
  {
    if x.Fin? && y.Fin? {
      WholeSum((x.r + 0.5).Floor, (y.r + 0.5).Floor);
    }
  }

  lemma WholeSum(m: int, n: int)
    ensures m as real + n as real == (m + n) as real && (m as real + n as real).Floor == m + n
  {
  }

  /** The first position from x on. */
  function StartAt(x: Num): (p: nat)
    ensures p >= 1
  {
    if x.Fin? && !NumLess(x, Fin(1.0)) then x.r.Floor else 1
  }

  /** The first position of n characters, or behind them, that is not before x. */
  function EndAt(x: Num, n: nat): (p: nat)
    ensures 1 <= p <= n + 1
  {
    if !NumLess(x, Fin((n + 1) as real)) then n + 1 else StartAt(x)
  }

  lemma StartIs(x: Num, p: nat)
    requires Integral(x) && !x.NaN? && !x.PosInf? && p >= 1
    ensures (NumLess(x, Fin(p as real)) || NumEq(x, Fin(p as real))) <==> StartAt(x) <= p
  {
  }

  lemma EndIs(x: Num, p: nat, n: nat)
    requires Integral(x) && !x.NaN? && 1 <= p <= n
    ensures NumLess(Fin(p as real), x) <==> p < EndAt(x, n)
  {
  }

  lemma RangeIs(first: Num, last: Num, p: nat, n: nat)
    requires Integral(first) && Integral(last) && !first.NaN? && !first.PosInf? && !last.NaN? && 1 <= p <= n
    ensures InRange(p, first, last) <==> StartAt(first) <= p < EndAt(last, n)
  {
    StartIs(first, p);
    EndIs(last, p, n);
  }

  /** A number that is smaller has a position that is not greater. */
  lemma NotTurned(first: Num, last: Num, n: nat)
    requires Integral(first) && Integral(last) && NumLess(first, last) && NumLess(first, Fin((n + 1) as real))
    ensures StartAt(first) <= EndAt(last, n)
  {
  }

  /** The characters selected lie between the two positions. */
  lemma SubstringIs(s: string, first: Num, last: Num)
    requires Integral(first) && Integral(last) && NumLess(first, Fin((|s| + 1) as real)) && !last.NaN?
    ensures CharsBetween(s, first, last) ==
            if StartAt(first) <= EndAt(last, |s|) then s[StartAt(first) - 1..EndAt(last, |s|) - 1] else ""
  {
    var lo, hi := StartAt(first), EndAt(last, |s|);
    forall p: nat | 0 < p <= |s| ensures InRange(p, first, last) <==> lo <= p < hi {
      RangeIs(first, last, p, |s|);
    }
    if lo <= hi {
      CharsAre(s, Within(first, last), 0, lo, hi);
    } else {
      CharsAre(s, Within(first, last), 0, 1, 1);
    }
  }

  lemma NothingBetween(s: string, first: Num, last: Num)
    requires Integral(first) && Integral(last)
    requires first.NaN? || last.NaN? || !NumLess(first, Fin((|s| + 1) as real)) || !NumLess(first, last) || NumLess(last, Fin(1.0))
    ensures CharsBetween(s, first, last) == ""
  {
    forall p: nat | 0 < p <= |s| ensures !InRange(p, first, last) {
    }
    CharsAre(s, Within(first, last), 0, 1, 1);
  }

  method FromPosition(s: string, start: Num) returns (r: string)
    ensures r == SubstringFrom(s, start)
  {
    var first := RoundOf(start);
    RoundedIntegral(start, start);
    if first.NaN? || !NumLess(first, Fin((|s| + 1) as real)) {
      NothingBetween(s, first, PosInf);
      return "";
    }
    SubstringIs(s, first, PosInf);
    r := s[StartAt(first) - 1..];
  }

  method BetweenPositions(s: string, start: Num, length: Num) returns (r: string)
    ensures r == SubstringOf(s, start, length)
  {
    var first := RoundOf(start);
    var last := Plus(first, RoundOf(length));
    RoundedIntegral(start, length);
    var all := Fin((|s| + 1) as real);
    if first.NaN? || last.NaN? || !NumLess(first, all) || !NumLess(first, last) || NumLess(last, Fin(1.0)) {
      NothingBetween(s, first, last);
      return "";
    }
    SubstringIs(s, first, last);
    NotTurned(first, last, |s|);
    r := s[StartAt(first) - 1..EndAt(last, |s|) - 1];
  }

  // Attributes that hold for whatever is below.

  /** The nearest one counts. */
  lemma {:induction false} InheritedNearest(t: Tree, n: Ref, name: string -> bool, v: string)
    requires Wf(t) && n in t.node
    ensures Inherited(t, n, name) == There(v) <==>
            exists m :: NearestAt(t, n, m, name, v)
    decreases t.node[t.root].rank - t.node[n].rank
  {
    var here := FirstValue(t.node[n].attrs, name);
    if here.Nowhere? && n != t.root {
      InheritedNearest(t, Parent(t, n), name, v);
    }
    if Inherited(t, n, name) == There(v) {
      var m := n;
      if here.Nowhere? {
        m :| NearestAt(t, Parent(t, n), m, name, v);
      }
      forall k | k in t.node && Under(t, n, k) && Under(t, k, m) && k != m ensures FirstValue(t.node[k].attrs, name) == Nowhere {
        OnlyAbove(t, n, k);
      }
      assert NearestAt(t, n, m, name, v);
    }
    if m :| NearestAt(t, n, m, name, v) {
      assert n != m ==> here.Nowhere?;
      if here.Nowhere? {
        forall k | k in t.node && Under(t, Parent(t, n), k) && Under(t, k, m) && k != m ensures FirstValue(t.node[k].attrs, name) == Nowhere {
        }
        assert NearestAt(t, Parent(t, n), m, name, v);
      }
    }
  }

  /** m is n or above it and has the value; no node on the way has one. */
  ghost predicate NearestAt(t: Tree, n: Ref, m: Ref, name: string -> bool, v: string)
    requires Wf(t) && n in t.node
  {
    && m in t.node && Under(t, n, m) && FirstValue(t.node[m].attrs, name) == There(v)
    && forall k | k in t.node && Under(t, n, k) && Under(t, k, m) && k != m :: FirstValue(t.node[k].attrs, name) == Nowhere
  }

  /** No two nodes are below each other. */
  lemma OnlyAbove(t: Tree, n: Ref, k: Ref)
    requires Wf(t) && n in t.node && k in t.node && Under(t, n, k)
    ensures Under(t, k, n) ==> k == n
  {
    UnderRank(t, n, k);
    if Under(t, k, n) && k != n {
      UnderRank(t, k, n);
    }
  }

  method FindValue(s: seq<Attr>, name: string -> bool) returns (f: Found)
    ensures f == FirstValue(s, name)
  {
    for i: nat := 0 to |s|
      invariant FirstValue(s, name) == FirstValue(s[i..], name)
    {
      if name(s[i].name) {
        return There(s[i].value);
      }
      assert s[i..][1..] == s[i + 1..];
    }
    assert s[|s|..] == [];
    f := Nowhere;
  }

  /** Climb until an attribute is found. */
  method ClimbFor(t: Tree, n: Ref, name: string -> bool) returns (f: Found)
    requires Wf(t) && n in t.node
    ensures f == Inherited(t, n, name)
  {
    var p := n;
    f := FindValue(t.node[p].attrs, name);
    while f.Nowhere? && Parent(t, p) != 0
      invariant p in t.node && f == FirstValue(t.node[p].attrs, name)
      invariant Inherited(t, n, name) == Inherited(t, p, name)
      decreases t.node[t.root].rank - t.node[p].rank
    {
      p := Parent(t, p);
      f := FindValue(t.node[p].attrs, name);
    }
  }

  method InLanguage(t: Tree, x: XNode, lang: string) returns (b: bool)
    requires Wf(t) && (x == XNull || Has(t, x))
    ensures b == LangIs(t, true, x, lang)
    ensures b == LangIs(t, false, x, lang) <==> !(x.XAttr? && Speaks(t, x.p, lang))
  {
    if !x.XElem? {
      return false;
    }
    var f := ClimbFor(t, x.n, name => name == "xml:lang");
    if f.Nowhere? {
      return false;
    }
    for i: nat := 0 to |lang|
      invariant i <= |f.value| && forall j | 0 <= j < i :: Lower(f.value[j]) == Lower(lang[j])
    {
      if i >= |f.value| || Lower(lang[i]) != Lower(f.value[i]) {
        return false;
      }
    }
    b := |f.value| == |lang| || f.value[|lang|] == '-';
  }

  /** How the declaration is recognised: by its beginning, the character behind that and the rest. */
  predicate IsDeclaration(a: string, prefixed: bool, prefix: string) {
    "xmlns" <= a && if prefixed then |a| > 5 && a[5] == ':' && a[6..] == prefix else |a| == 5
  }

  lemma DeclarationIs(name: string, a: string)
    ensures IsDeclaration(a, ':' in name, if ':' in name then name[..IndexOf(name, ':')] else "") == Declares(name)(a)
  {
    if "xmlns" <= a && |a| > 5 {
      assert a == a[..5] + [a[5]] + a[6..];
    }
  }

  method UriOf(t: Tree, x: XNode) returns (s: string)
    requires Wf(t) && (x == XNull || Has(t, x))
    ensures s == NamespaceUri(t, x)
  {
    if x == XNull {
      return "";
    }
    var name := if x.XElem? then t.node[x.n].info.name else t.node[x.p].attrs[FindAttr(t.node[x.p].attrs, x.a)].name;
    var prefixed := ':' in name;
    if x.XAttr? && !prefixed {
      return "";
    }
    var prefix := if prefixed then name[..IndexOf(name, ':')] else "";
    var f := ClimbFor(t, Owner(x), a => IsDeclaration(a, prefixed, prefix));
    forall a ensures IsDeclaration(a, prefixed, prefix) == Declares(name)(a) {
      DeclarationIs(name, a);
    }
    SameInherited(t, Owner(x), a => IsDeclaration(a, prefixed, prefix), Declares(name));
    s := if f.There? then f.value else "";
  }

  lemma {:induction false} SameInherited(t: Tree, n: Ref, p: string -> bool, q: string -> bool)
    requires Wf(t) && n in t.node && forall a :: p(a) == q(a)
    ensures Inherited(t, n, p) == Inherited(t, n, q)
    decreases t.node[t.root].rank - t.node[n].rank
  {
    SameFirst(t.node[n].attrs, p, q);
    if n != t.root {
      SameInherited(t, Parent(t, n), p, q);
    }
  }

  lemma {:induction false} SameFirst(s: seq<Attr>, p: string -> bool, q: string -> bool)
    requires forall a :: p(a) == q(a)
    ensures FirstValue(s, p) == FirstValue(s, q)
  {
    if s != [] {
      SameFirst(s[1..], p, q);
    }
  }
}
