/** The loops behind the string functions and the comparisons of node sets. */
module TextFunctions {
  import opened Sequences
  import opened XmlTree
  import opened Steps
  import opened XPathSyntax
  import opened XPathSemantics
  import opened Optimizer

  lemma {:induction false} TextAppend(t: Tree, a: seq<Ref>, b: seq<Ref>)
    requires Wf(t)
    ensures TextOf(t, a + b) == TextOf(t, a) + TextOf(t, b)
  {
    if a == [] {
      assert a + b == b;
    } else {
      assert (a + b)[1..] == a[1..] + b;
      TextAppend(t, a[1..], b);
    }
  }

  predicate IsText(t: Tree, n: Ref)
    requires n in t.node
  {
    t.node[n].info.ty in {Pcdata, Cdata}
  }

  /** One more node of the walk. */
  lemma TextNext(t: Tree, seen: seq<Ref>, n: Ref)
    requires Wf(t) && n in t.node
    ensures IsText(t, n) ==> TextOf(t, seen + [n]) == TextOf(t, seen) + t.node[n].info.value
    ensures !IsText(t, n) ==> TextOf(t, seen + [n]) == TextOf(t, seen)
  {
    TextAppend(t, seen, [n]);
    assert TextOf(t, [n][1..]) == "";
  }

  /** The string value, gathered by a stackless walk over the subtree. */
  method StringOf(t: Tree, x: XNode) returns (s: string)
    requires Wf(t) && (x == XNull || Has(t, x))
    ensures s == StringValue(t, x)
  {
    if x == XNull {
      return "";
    }
    if x.XAttr? {
      var k := FindAttr(t.node[x.p].attrs, x.a);
      return t.node[x.p].attrs[k].value;
    }
    var info := t.node[x.n].info;
    if info.ty in {Pcdata, Cdata, Comment, Pi} {
      return info.value;
    }
    if info.ty !in {Document, Element} {
      return "";
    }
    s := WalkText(t, x.n);
  }

  method WalkText(t: Tree, n: Ref) returns (s: string)
    requires Wf(t) && n in t.node
    ensures s == TextOf(t, Forest(t, n, 0))
  {
    s := "";
    var cur := FirstChild(t, n);
    ghost var seen: seq<Ref>, all := [], Forest(t, n, 0);
    while cur != 0
      invariant s == TextOf(t, seen)
      invariant cur == 0 ==> all == seen
      invariant cur != 0 ==> cur in t.node && cur != n && Under(t, cur, n)
      invariant cur != 0 ==> all == seen + (Pre(t, cur) + Rest(t, cur, n))
      decreases |all| - |seen|
    {
      TextNext(t, seen, cur);
      if IsText(t, cur) {
        s := s + t.node[cur].info.value;
      }
      AppendRegroup(seen, [cur], Forest(t, cur, 0), Rest(t, cur, n));
      seen := seen + [cur];
      var down := FirstChild(t, cur);
      if down != 0 {
        Descend(t, cur, n);
        cur := down;
      } else {
        assert Forest(t, cur, 0) + Rest(t, cur, n) == Rest(t, cur, n);
        cur := ClimbToNext(t, cur, n, n);
      }
    }
  }

  // Translation in place: the write position never passes the read position.

  lemma {:induction false} TranslateAppend(a: string, b: string, from: string, to: string)
    ensures TranslateText(a + b, from, to) == TranslateText(a, from, to) + TranslateText(b, from, to)
  {
    if a == "" {
      assert a + b == b;
    } else {
      assert (a + b)[1..] == a[1..] + b;
      TranslateAppend(a[1..], b, from, to);
    }
  }

  lemma TranslateNext(s: string, k: nat, from: string, to: string)
    requires k < |s|
    ensures s[k] !in from ==> TranslateText(s[..k + 1], from, to) == TranslateText(s[..k], from, to) + [s[k]]
    ensures s[k] in from && IndexOf(from, s[k]) < |to| ==>
      TranslateText(s[..k + 1], from, to) == TranslateText(s[..k], from, to) + [to[IndexOf(from, s[k])]]
    ensures s[k] in from && IndexOf(from, s[k]) >= |to| ==> TranslateText(s[..k + 1], from, to) == TranslateText(s[..k], from, to)
  {
    assert s[..k + 1] == s[..k] + [s[k]];
    TranslateAppend(s[..k], [s[k]], from, to);
    assert TranslateText([s[k]][1..], from, to) == "";
  }

  /** Rewrites the buffer; the result is what lies before the write position that is returned. */
  method TranslateBuffer(a: array<char>, from: string, to: string) returns (write: nat)
    modifies a
    ensures write <= a.Length
    ensures a[..write] == TranslateText(old(a[..]), from, to)
  {
    write := 0;
    ghost var s := a[..];
    for read: nat := 0 to a.Length
      invariant write <= read && a[read..] == s[read..]
      invariant a[..write] == TranslateText(s[..read], from, to)
    {
      TranslateNext(s, read, from, to);
      var ch := a[read];
      assert ch == a[read..][0] == s[read];
      ghost var done := a[..write];
      if ch !in from {
        a[write] := ch;
        assert a[..write + 1] == done + [ch];
        write := write + 1;
      } else if IndexOf(from, ch) < |to| {
        a[write] := to[IndexOf(from, ch)];
        assert a[..write + 1] == done + [to[IndexOf(from, ch)]];
        write := write + 1;
      }
      assert a[read + 1..] == s[read + 1..];
    }
    assert s[..a.Length] == s;
  }

  lemma {:induction false} ByTableAppend(a: string, b: string, table: seq<nat>)
    ensures TranslateByTable(a + b, table) == TranslateByTable(a, table) + TranslateByTable(b, table)
  {
    if a == "" {
      assert a + b == b;
    } else {
      assert (a + b)[1..] == a[1..] + b;
      ByTableAppend(a[1..], b, table);
    }
  }

  lemma ByTableOne(c: char, table: seq<nat>)
    ensures c as int >= |table| ==> TranslateByTable([c], table) == [c]
    ensures (c as int) < |table| && table[c as int] >= 128 ==> TranslateByTable([c], table) == ""
    ensures (c as int) < |table| && table[c as int] < 128 ==> TranslateByTable([c], table) == [table[c as int] as char]
  {
    assert TranslateByTable([c][1..], table) == "";
  }

  lemma ByTableNext(s: string, k: nat, table: seq<nat>)
    requires k < |s|
    ensures TranslateByTable(s[..k + 1], table) == TranslateByTable(s[..k], table) + TranslateByTable([s[k]], table)
  {
    assert s[..k + 1] == s[..k] + [s[k]];
    ByTableAppend(s[..k], [s[k]], table);
  }

  /** The branch-free form: a code is always written, but 128 does not move the write position. */
  method TranslateTableBuffer(a: array<char>, table: seq<nat>) returns (write: nat)
    requires TableOk(table)
    modifies a
    ensures write <= a.Length
    ensures a[..write] == TranslateByTable(old(a[..]), table)
  {
    write := 0;
    ghost var s := a[..];
    for read: nat := 0 to a.Length
      invariant write <= read && a[read..] == s[read..]
      invariant a[..write] == TranslateByTable(s[..read], table)
    {
      ByTableNext(s, read, table);
      ByTableOne(s[read], table);
      var ch := a[read];
      assert ch == a[read..][0] == s[read];
      ghost var done := a[..write];
      if (ch as int) < 128 {
        var code := table[ch as int];
        a[write] := code as char;
        assert a[..write + 1] == done + [code as char];
        assert a[..write] == done;
        write := write + (1 - code / 128);
      } else {
        a[write] := ch;
        assert a[..write + 1] == done + [ch];
        write := write + 1;
      }
      assert a[read + 1..] == s[read + 1..];
    }
    assert s[..a.Length] == s;
  }

  // Building the table.

  /** The table after the first i characters of from; 0 stands for a character not met so far. */
  ghost predicate Filled(table: seq<nat>, from: string, to: string, i: nat)
    requires i <= |from|
  {
    && |table| == 128
    && forall c: nat {:trigger table[c]} | c < 128 :: table[c] == FilledEntry(c, from[..i], to)
  }

  function FilledEntry(c: nat, from: string, to: string): nat
    requires c < 128
  {
    if (c as char) in from then TableEntry(c, from, to) else 0
  }

  lemma {:induction false} IndexOfMore(s: string, k: nat, c: char)
    requires k < |s|
    ensures c in s[..k] ==> c in s[..k + 1] && IndexOf(s[..k + 1], c) == IndexOf(s[..k], c)
    ensures c !in s[..k] && s[k] == c ==> c in s[..k + 1] && IndexOf(s[..k + 1], c) == k
    ensures c !in s[..k] && s[k] != c ==> c !in s[..k + 1]
  {
    assert s[..k + 1] == s[..k] + [s[k]];
    if k > 0 && s[0] != c {
      IndexOfMore(s[1..], k - 1, c);
      assert s[1..][..k - 1] == s[..k][1..] && s[1..][..k] == s[..k + 1][1..];
    }
  }

  lemma FilledNext(c: nat, from: string, to: string, i: nat)
    requires c < 128 && i < |from|
    ensures from[i] as int != c || (c as char) in from[..i] ==> FilledEntry(c, from[..i + 1], to) == FilledEntry(c, from[..i], to)
    ensures from[i] as int == c && (c as char) !in from[..i] ==>
      FilledEntry(c, from[..i + 1], to) == if i < |to| then to[i] as nat else 128
  {
    IndexOfMore(from, i, c as char);
  }

  lemma FilledZero(c: nat, from: string, to: string)
    requires c < 128 && '\0' !in to
    ensures FilledEntry(c, from, to) == 0 <==> (c as char) !in from
  {
  }

  /** The code for the i-th character of from. */
  function CodeAt(to: string, i: nat): nat {
    if i < |to| then to[i] as nat else 128
  }

  /** No table if a character is outside ASCII. Strings are zero-terminated, so they do not contain zero. */
  method TableGenerate(from: string, to: string) returns (ok: bool, table: seq<nat>)
    requires '\0' !in from && '\0' !in to
    ensures ok == TableFits(from, to)
    ensures ok ==> table == TableFor(from, to)
  {
    table := seq(128, _ => 0);
    for i: nat := 0 to |from|
      invariant Filled(table, from, to, i)
      invariant forall k | 0 <= k < i :: from[k] as int < 128
      invariant forall k | 0 <= k < i && k < |to| :: to[k] as int < 128
    {
      if from[i] as int >= 128 || (i < |to| && to[i] as int >= 128) {
        return false, [];
      }
      var fc := from[i] as nat;
      FilledZero(fc, from[..i], to);
      ghost var was := table;
      if table[fc] == 0 {
        table := table[fc := CodeAt(to, i)];
      }
      forall c: nat | c < 128 ensures table[c] == FilledEntry(c, from[..i + 1], to) {
        assert was[c] == FilledEntry(c, from[..i], to);
        FilledNext(c, from, to, i);
      }
    }
    assert from[..|from|] == from;
    ghost var filled := table;
    for c: nat := 0 to 128
      invariant |table| == 128
      invariant forall d: nat | d < c :: table[d] == TableEntry(d, from, to)
      invariant forall d: nat | c <= d < 128 :: table[d] == filled[d]
    {
      FilledZero(c, from, to);
      assert filled[c] == FilledEntry(c, from, to);
      if table[c] == 0 {
        table := table[c := c];
      }
    }
    ok := true;
  }

  // Comparisons with node sets: is there a pair that compares?

  ghost predicate AllIn(t: Tree, s: seq<XNode>)
    requires Wf(t)
  {
    forall x | x in s :: Has(t, x)
  }

  method AnyString(t: Tree, cmp: (string, string) -> bool, l: string, rs: seq<XNode>) returns (b: bool)
    requires Wf(t) && AllIn(t, rs)
    ensures b == exists y | y in rs :: cmp(l, StringValue(t, y))
  {
    for i := 0 to |rs|
      invariant forall j | 0 <= j < i :: !cmp(l, StringValue(t, rs[j]))
    {
      var r := StringOf(t, rs[i]);
      if cmp(l, r) {
        return true;
      }
    }
    b := false;
  }

  method AnyPairOfStrings(t: Tree, cmp: (string, string) -> bool, ls: seq<XNode>, rs: seq<XNode>) returns (b: bool)
    requires Wf(t) && AllIn(t, ls) && AllIn(t, rs)
    ensures b == exists x, y | x in ls && y in rs :: cmp(StringValue(t, x), StringValue(t, y))
  {
    for i := 0 to |ls|
      invariant forall j, y | 0 <= j < i && y in rs :: !cmp(StringValue(t, ls[j]), StringValue(t, y))
    {
      var l := StringOf(t, ls[i]);
      var found := AnyString(t, cmp, l, rs);
      if found {
        assert ls[i] in ls;
        return true;
      }
    }
    b := false;
  }

  method AnyNumber(t: Tree, env: Env, cmp: (Num, Num) -> bool, l: Num, rs: seq<XNode>) returns (b: bool)
    requires Wf(t) && AllIn(t, rs)
    ensures b == exists y | y in rs :: cmp(l, NumberOf(t, env, y))
  {
    for i := 0 to |rs|
      invariant forall j | 0 <= j < i :: !cmp(l, NumberOf(t, env, rs[j]))
    {
      var r := StringOf(t, rs[i]);
      if cmp(l, env.parse(r)) {
        assert cmp(l, NumberOf(t, env, rs[i]));
        return true;
      }
    }
    b := false;
  }

  method AnyPairOfNumbers(t: Tree, env: Env, cmp: (Num, Num) -> bool, ls: seq<XNode>, rs: seq<XNode>) returns (b: bool)
    requires Wf(t) && AllIn(t, ls) && AllIn(t, rs)
    ensures b == exists x, y | x in ls && y in rs :: cmp(NumberOf(t, env, x), NumberOf(t, env, y))
  {
    for i := 0 to |ls|
      invariant forall j, y | 0 <= j < i && y in rs :: !cmp(NumberOf(t, env, ls[j]), NumberOf(t, env, y))
    {
      var l := StringOf(t, ls[i]);
      var found := AnyNumber(t, env, cmp, env.parse(l), rs);
      if found {
        assert ls[i] in ls;
        return true;
      }
    }
    b := false;
  }

  method SumItems(t: Tree, env: Env, s: seq<XNode>) returns (r: Num)
    requires Wf(t) && AllIn(t, s)
    ensures r == SumOf(t, env, s)
  {
    r := Fin(0.0);
    for i: nat := 0 to |s|
      invariant Plus(r, SumOf(t, env, s[i..])) == SumOf(t, env, s)
    {
      assert s[i..][0] == s[i] && s[i..][1..] == s[i + 1..];
      var text := StringOf(t, s[i]);
      SumStep(r, env.parse(text), SumOf(t, env, s[i + 1..]));
      r := Plus(r, env.parse(text));
    }
    assert s[|s|..] == [];
    SumStep(r, Fin(0.0), Fin(0.0));
  }

  lemma SumStep(x: Num, y: Num, z: Num)
    ensures Plus(Plus(x, y), z) == Plus(x, Plus(y, z))
    ensures Plus(x, Fin(0.0)) == x
    ensures Plus(Fin(0.0), x) == x
  {
  }
}
