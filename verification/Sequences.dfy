/** Facts about finite sequences that the other modules share. */
module Sequences {

  ghost predicate Distinct<T>(s: seq<T>) {
    forall i, j | 0 <= i < j < |s| :: s[i] != s[j]
  }

  /** The position of an element, the first one if it occurs twice. */
  function IndexOf<T(==)>(s: seq<T>, x: T): (i: nat)
    requires x in s
    ensures i < |s| && s[i] == x
  {
    if s[0] == x then 0 else IndexOf(s[1..], x) + 1
  }

  /** Keep the elements that satisfy a condition, in their order. */
  function Filter<T>(s: seq<T>, keep: T -> bool): (r: seq<T>)
    ensures |r| <= |s|
  {
    if s == [] then []
    else if keep(s[0]) then [s[0]] + Filter(s[1..], keep)
    else Filter(s[1..], keep)
  }

  lemma {:induction false} FilterMembers<T>(s: seq<T>, keep: T -> bool, x: T)
    ensures x in Filter(s, keep) <==> x in s && keep(x)
  {
    if s != [] {
      FilterMembers(s[1..], keep, x);
      assert s == [s[0]] + s[1..];
    }
  }

  function Reverse<T>(s: seq<T>): (r: seq<T>)
    ensures |r| == |s|
  {
    if s == [] then [] else Reverse(s[1..]) + [s[0]]
  }

  lemma {:induction false} ReverseAt<T>(s: seq<T>, k: nat)
    requires k < |s|
    ensures Reverse(s)[k] == s[|s| - 1 - k]
  {
    if k < |s| - 1 {
      ReverseAt(s[1..], k);
    }
  }

  lemma {:induction false} ReverseMembers<T>(s: seq<T>, x: T)
    ensures x in Reverse(s) <==> x in s
  {
    if s != [] {
      ReverseMembers(s[1..], x);
      assert s == [s[0]] + s[1..];
    }
  }

  /** What is left of a scan that may stop at its first hit. */
  function FirstIf<T>(once: bool, s: seq<T>): seq<T> {
    if once && s != [] then s[..1] else s
  }

  /** A scan of a and then b, where a holds at most one hit if the scan may stop. */
  lemma FirstIfAppend<T>(once: bool, s: seq<T>, a: seq<T>, b: seq<T>)
    requires once ==> |a| <= 1
    ensures once && a != [] ==> s + a == s + FirstIf(once, a + b)
    ensures !once || a == [] ==> s + a + FirstIf(once, b) == s + FirstIf(once, a + b)
  {
    if once && a == [] {
      assert a + b == b && s + a == s;
    }
  }

  lemma AppendAssociative<T>(a: seq<T>, b: seq<T>, c: seq<T>)
    ensures (a + b) + c == a + (b + c)
  {
  }

  lemma AppendRegroup<T>(a: seq<T>, b: seq<T>, c: seq<T>, d: seq<T>)
    ensures a + ((b + c) + d) == a + b + (c + d)
    ensures a + (b + (c + d)) == (a + b + c) + d
  {
  }

  lemma SplitOne<T>(s: seq<T>, k: nat)
    requires k < |s|
    ensures s == s[..k] + [s[k]] + s[k + 1..] && s[..k + 1] == s[..k] + [s[k]]
  {
  }

  lemma IndexOfDistinct<T>(s: seq<T>, i: nat)
    requires Distinct(s) && i < |s|
    ensures IndexOf(s, s[i]) == i
  {
    var k := IndexOf(s, s[i]);
    if k < i || i < k {
      assert s[k] == s[i];
    }
  }

  lemma DistinctAppend<T>(a: seq<T>, b: seq<T>)
    requires Distinct(a) && Distinct(b)
    requires forall x | x in a :: x !in b
    ensures Distinct(a + b)
  {
    var s := a + b;
    forall i, j | 0 <= i < j < |s| ensures s[i] != s[j] {
      if i < |a| <= j {
        assert s[i] in a && s[j] in b;
      }
    }
  }

  lemma {:induction false} FilterAppend<T>(a: seq<T>, b: seq<T>, keep: T -> bool)
    ensures Filter(a + b, keep) == Filter(a, keep) + Filter(b, keep)
  {
    if a == [] {
      assert a + b == b;
    } else {
      var rest := a[1..];
      assert a + b == [a[0]] + (rest + b);
      FilterAppend(rest, b, keep);
      assert [a[0]] + (Filter(rest, keep) + Filter(b, keep)) == ([a[0]] + Filter(rest, keep)) + Filter(b, keep);
    }
  }

  lemma {:induction false} ReverseAppend<T>(a: seq<T>, b: seq<T>)
    ensures Reverse(a + b) == Reverse(b) + Reverse(a)
  {
    if a == [] {
      assert a + b == b;
    } else {
      assert (a + b)[1..] == a[1..] + b;
      ReverseAppend(a[1..], b);
    }
  }

  lemma {:induction false} ReverseTwice<T>(s: seq<T>)
    ensures Reverse(Reverse(s)) == s
  {
    if s != [] {
      ReverseAppend(Reverse(s[1..]), [s[0]]);
      ReverseTwice(s[1..]);
    }
  }

  /** Which part of a split holds the k-th element. */
  lemma SplitMembers<T>(a: seq<T>, b: seq<T>, c: seq<T>, k: nat)
    requires Distinct(a + b + c) && k < |a + b + c|
    ensures var x := (a + b + c)[k];
            && (x in a <==> k < |a|)
            && (x in b <==> |a| <= k < |a| + |b|)
            && (x in c <==> |a| + |b| <= k)
  {
    var s := a + b + c;
    var x := s[k];
    if x in a { var j :| 0 <= j < |a| && a[j] == x; assert s[j] == x; }
    if x in b { var j :| 0 <= j < |b| && b[j] == x; assert s[|a| + j] == x; }
    if x in c { var j :| 0 <= j < |c| && c[j] == x; assert s[|a| + |b| + j] == x; }
  }

  // Sequences that ascend under a numbering of their elements.

  ghost predicate Ascends<T>(key: map<T, int>, s: seq<T>) {
    && (forall i | 0 <= i < |s| :: s[i] in key)
    && forall i, j | 0 <= i < j < |s| :: key[s[i]] < key[s[j]]
  }

  lemma AscendsTail<T>(key: map<T, int>, s: seq<T>)
    requires Ascends(key, s) && s != []
    ensures Ascends(key, s[1..])
    ensures forall x | x in s[1..] :: x in s && key[s[0]] < key[x]
  {
  }

  lemma AscendsSlice<T>(key: map<T, int>, s: seq<T>, i: nat, j: nat)
    requires Ascends(key, s) && i <= j <= |s|
    ensures Ascends(key, s[i..j])
  {
  }

  lemma AscendsAppend<T>(key: map<T, int>, a: seq<T>, b: seq<T>)
    requires Ascends(key, a) && Ascends(key, b)
    requires a != [] && b != [] ==> key[a[|a| - 1]] < key[b[0]]
    ensures Ascends(key, a + b)
  {
  }

  /** Members and numbering determine an ascending sequence. */
  lemma {:induction false} AscendsUnique<T>(key: map<T, int>, a: seq<T>, b: seq<T>)
    requires Ascends(key, a) && Ascends(key, b)
    requires forall x :: x in a <==> x in b
    ensures a == b
  {
    assert a != [] ==> a[0] in b;
    assert b != [] ==> b[0] in a;
    if a != [] {
      AscendsTail(key, a);
      AscendsTail(key, b);
      assert a == [a[0]] + a[1..] && b == [b[0]] + b[1..];
      assert a[0] in b && b[0] in a;
      assert a[0] == b[0];
      AscendsUnique(key, a[1..], b[1..]);
    }
  }

  lemma {:induction false} FilterAscends<T>(key: map<T, int>, s: seq<T>, keep: T -> bool)
    requires Ascends(key, s)
    ensures Ascends(key, Filter(s, keep))
  {
    if s != [] {
      AscendsTail(key, s);
      FilterAscends(key, s[1..], keep);
      if keep(s[0]) {
        if Filter(s[1..], keep) != [] {
          FilterMembers(s[1..], keep, Filter(s[1..], keep)[0]);
        }
        AscendsAppend(key, [s[0]], Filter(s[1..], keep));
      }
    }
  }

  /** s with x put in at position i. */
  function InsertAt<T>(s: seq<T>, i: nat, x: T): (r: seq<T>)
    requires i <= |s|
    ensures |r| == |s| + 1
  {
    s[..i] + [x] + s[i..]
  }

  function RemoveAt<T>(s: seq<T>, i: nat): (r: seq<T>)
    requires i < |s|
    ensures |r| == |s| - 1
  {
    s[..i] + s[i + 1..]
  }
}
