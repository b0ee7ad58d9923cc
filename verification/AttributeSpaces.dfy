/**
 * Normalised attribute values. Section 3.3.3 of XML 1.0 turns each white space into a space, drops spaces at the ends of the value
 * and makes each run of spaces one, those that come from character references included. The parser does all this in one pass over the
 * buffer, in which it does not look at what references have brought. Here is when the two give the same value.
 */
module AttributeSpaces {
  import opened Sequences
  import opened Utf
  import opened TextSpec
  import opened TextInPlace

  // The standard.

  /** Runs of spaces become one; after says that a space came before. */
  function Squeezed(after: bool, s: seq<Byte>): seq<Byte>
    decreases |s|
  {
    if s == [] then []
    else if s[0] == SPACE then (if after then [] else [SPACE]) + Squeezed(true, s[1..])
    else [s[0]] + Squeezed(false, s[1..])
  }

  function TrimSpaces(s: seq<Byte>): seq<Byte> {
    if s != [] && s[|s| - 1] == SPACE then TrimSpaces(s[..|s| - 1]) else s
  }

  /** The conversion of each white space, with spaces at the start and in runs gone, and those at the end. */
  function StandardValue(b: seq<Byte>, start: nat, escape: bool, quote: Byte): seq<Byte>
    requires start <= |b| && quote in {QUOT, APOS}
  {
    TrimSpaces(Squeezed(true, Convert(b, start, Options(escape, true, EachSpace), StopChar(quote))))
  }

  // White space in the text itself is treated as the standard says.

  /** What follows s is squeezed as if it came after s. */
  lemma {:induction false} SqueezedAppend(after: bool, a: seq<Byte>, b: seq<Byte>)
    ensures Squeezed(after, a + b) == Squeezed(after, a) + Squeezed(if a == [] then after else a[|a| - 1] == SPACE, b)
    decreases |a|
  {
    if a == [] {
      assert a + b == b;
    } else {
      assert (a + b)[1..] == a[1..] + b;
      SqueezedAppend(a[0] == SPACE, a[1..], b);
    }
  }

  lemma {:induction false} SqueezedSpace(after: bool, s: seq<Byte>)
    ensures Squeezed(after, [SPACE] + s) == (if after then [] else [SPACE]) + Squeezed(true, s)
  {
    assert ([SPACE] + s)[1..] == s;
  }

  /** A single white space is converted. */
  lemma {:induction false} SpaceStep(b: seq<Byte>, i: nat, o: Options, stop: Stop) returns (n: nat)
    requires i < |b| && IsSpace(b[i]) && o.spaces == EachSpace && Suits(stop, o) && stop.StopChar? && stop.c in {QUOT, APOS}
    ensures 0 < n <= SpaceRun(b, i) && i + n <= |b| && Convert(b, i, o, stop) == [SPACE] + Convert(b, i + n, o, stop)
  {
    n := NextPiece(b, i, o).used;
    ConvertStep(b, i, o, stop);
  }

  /** Within a run of white space that a space came before, converting one by one adds nothing. */
  lemma {:induction false} RunSwallowed(b: seq<Byte>, i: nat, o: Options, stop: Stop)
    requires i <= |b| && o.spaces == EachSpace && Suits(stop, o) && stop.StopChar? && stop.c in {QUOT, APOS}
    ensures Squeezed(true, Convert(b, i, o, stop)) == Squeezed(true, Convert(b, i + SpaceRun(b, i), o, stop))
    decreases |b| - i
  {
    if i < |b| && IsSpace(b[i]) {
      var n := SpaceStep(b, i, o, stop);
      SqueezedSpace(true, Convert(b, i + n, o, stop));
      RunSwallowed(b, i + n, o, stop);
      RunFrom(b, i, n);
    }
  }

  lemma {:induction false} RunFrom(b: seq<Byte>, i: nat, n: nat)
    requires n <= SpaceRun(b, i)
    ensures i + SpaceRun(b, i) == i + n + SpaceRun(b, i + n)
    decreases n
  {
    if n > 0 {
      RunFrom(b, i + 1, n - 1);
    }
  }

  /** Converting run by run gives the same as converting one by one, once runs of spaces are squeezed. */
  lemma {:induction false} RunsSqueezed(b: seq<Byte>, i: nat, after: bool, escape: bool, stop: Stop)
    requires i <= |b| && stop.StopChar? && stop.c in {QUOT, APOS}
    ensures Squeezed(after, Convert(b, i, Options(escape, true, EachRun), stop)) == Squeezed(after, Convert(b, i, Options(escape, true, EachSpace), stop))
    decreases |b| - i, 1
  {
    if i < |b| && b[i] != 0 && !EndsAt(b, i, stop) {
      if IsSpace(b[i]) {
        RunsAtSpace(b, i, after, escape, stop);
      } else {
        RunsElsewhere(b, i, after, escape, stop);
      }
    }
  }

  lemma {:induction false} RunsAtSpace(b: seq<Byte>, i: nat, after: bool, escape: bool, stop: Stop)
    requires i < |b| && IsSpace(b[i]) && stop.StopChar? && stop.c in {QUOT, APOS}
    ensures Squeezed(after, Convert(b, i, Options(escape, true, EachRun), stop)) == Squeezed(after, Convert(b, i, Options(escape, true, EachSpace), stop))
    decreases |b| - i, 0
  {
    var o, p, n := Options(escape, true, EachRun), Options(escape, true, EachSpace), SpaceRun(b, i);
    var x, y := Convert(b, i + n, o, stop), Convert(b, i + n, p, stop);
    assert Squeezed(after, Convert(b, i, o, stop)) == (if after then [] else [SPACE]) + Squeezed(true, x) by {
      ConvertStep(b, i, o, stop);
      SqueezedSpace(after, x);
    }
    assert Squeezed(after, Convert(b, i, p, stop)) == (if after then [] else [SPACE]) + Squeezed(true, y) by {
      SpaceSwallowed(b, i, after, p, stop);
    }
    assert Squeezed(true, x) == Squeezed(true, y) by {
      RunsSqueezed(b, i + n, true, escape, stop);
    }
  }

  /** One white space and the rest of its run. */
  lemma {:induction false} SpaceSwallowed(b: seq<Byte>, i: nat, after: bool, o: Options, stop: Stop)
    requires i < |b| && IsSpace(b[i]) && o.spaces == EachSpace && Suits(stop, o) && stop.StopChar? && stop.c in {QUOT, APOS}
    ensures Squeezed(after, Convert(b, i, o, stop)) == (if after then [] else [SPACE]) + Squeezed(true, Convert(b, i + SpaceRun(b, i), o, stop))
  {
    var n := SpaceStep(b, i, o, stop);
    SqueezedSpace(after, Convert(b, i + n, o, stop));
    assert Squeezed(true, Convert(b, i + n, o, stop)) == Squeezed(true, Convert(b, i + SpaceRun(b, i), o, stop)) by {
      RunSwallowed(b, i + n, o, stop);
      RunFrom(b, i, n);
    }
  }

  lemma {:induction false} RunsElsewhere(b: seq<Byte>, i: nat, after: bool, escape: bool, stop: Stop)
    requires i < |b| && b[i] != 0 && !EndsAt(b, i, stop) && !IsSpace(b[i]) && stop.StopChar? && stop.c in {QUOT, APOS}
    ensures Squeezed(after, Convert(b, i, Options(escape, true, EachRun), stop)) == Squeezed(after, Convert(b, i, Options(escape, true, EachSpace), stop))
    decreases |b| - i, 0
  {
    var o, p := Options(escape, true, EachRun), Options(escape, true, EachSpace);
    var n, out := SameStep(b, i, o, p, stop);
    var next := if out == [] then after else out[|out| - 1] == SPACE;
    RunsSqueezed(b, i + n, next, escape, stop);
    PrefixSqueezed(after, out, Convert(b, i + n, o, stop), Convert(b, i + n, p, stop));
  }

  /** Apart from white space the two conversions take the same steps. */
  lemma {:induction false} SameStep(b: seq<Byte>, i: nat, o: Options, p: Options, stop: Stop) returns (n: nat, out: seq<Byte>)
    requires i < |b| && b[i] != 0 && !EndsAt(b, i, stop) && !IsSpace(b[i]) && Suits(stop, o) && Suits(stop, p)
    requires o.escape == p.escape && o.eol == p.eol
    ensures 0 < n && i + n <= |b|
    ensures Convert(b, i, o, stop) == out + Convert(b, i + n, o, stop) && Convert(b, i, p, stop) == out + Convert(b, i + n, p, stop)
  {
    var r := NextPiece(b, i, o);
    n, out := r.used, r.out;
    SamePiece(b, i, o, p);
    ConvertNext(b, i, o, stop, r);
    ConvertNext(b, i, p, stop, r);
  }

  lemma {:induction false} SamePiece(b: seq<Byte>, i: nat, o: Options, p: Options)
    requires i < |b| && !IsSpace(b[i]) && o.escape == p.escape && o.eol == p.eol
    ensures NextPiece(b, i, p) == NextPiece(b, i, o)
  {
  }

  lemma {:induction false} ConvertNext(b: seq<Byte>, i: nat, o: Options, stop: Stop, r: Rewrite)
    requires i < |b| && b[i] != 0 && !EndsAt(b, i, stop) && Suits(stop, o) && NextPiece(b, i, o) == r
    ensures 0 < r.used && i + r.used <= |b| && Convert(b, i, o, stop) == r.out + Convert(b, i + r.used, o, stop)
  {
    PieceInside(b, i, o);
  }

  lemma {:induction false} PrefixSqueezed(after: bool, out: seq<Byte>, x: seq<Byte>, y: seq<Byte>)
    requires var next := if out == [] then after else out[|out| - 1] == SPACE; Squeezed(next, x) == Squeezed(next, y)
    ensures Squeezed(after, out + x) == Squeezed(after, out + y)
  {
    SqueezedAppend(after, out, x);
    SqueezedAppend(after, out, y);
  }

  /** The value of the standard, from what the parser has before it trims the end. */
  lemma {:induction false} StandardFromRuns(b: seq<Byte>, start: nat, escape: bool, quote: Byte)
    requires start <= |b| && quote in {QUOT, APOS}
    ensures StandardValue(b, start, escape, quote) ==
            TrimSpaces(Squeezed(true, Convert(b, start + SpaceRun(b, start), Options(escape, true, EachRun), StopChar(quote))))
  {
    var stop, i := StopChar(quote), start + SpaceRun(b, start);
    var x := Squeezed(true, Convert(b, i, Options(escape, true, EachSpace), stop));
    assert Squeezed(true, Convert(b, start, Options(escape, true, EachSpace), stop)) == x by {
      RunSwallowed(b, start, Options(escape, true, EachSpace), stop);
    }
    assert Squeezed(true, Convert(b, i, Options(escape, true, EachRun), stop)) == x by {
      RunsSqueezed(b, i, true, escape, stop);
    }
  }

  // What references bring.

  /** No space at the start, and no two in a row. */
  predicate Tidy(after: bool, s: seq<Byte>)
    decreases |s|
  {
    s != [] ==> !(after && s[0] == SPACE) && Tidy(s[0] == SPACE, s[1..])
  }

  predicate AllSpaces(s: seq<Byte>) {
    forall i | 0 <= i < |s| :: s[i] == SPACE
  }

  lemma {:induction false} TidyKept(after: bool, s: seq<Byte>)
    ensures Tidy(after, s) ==> Squeezed(after, s) == s
    decreases |s|
  {
    if s != [] {
      TidyKept(s[0] == SPACE, s[1..]);
      assert s == [s[0]] + s[1..];
    }
  }

  lemma {:induction false} SqueezedTidy(after: bool, s: seq<Byte>)
    ensures Tidy(after, Squeezed(after, s))
    decreases |s|
  {
    if s != [] {
      SqueezedTidy(s[0] == SPACE, s[1..]);
      var r := Squeezed(s[0] == SPACE, s[1..]);
      if s[0] == SPACE && after {
        assert [] + r == r;
      } else {
        assert ([s[0]] + r)[1..] == r;
      }
    }
  }

  lemma {:induction false} TidyPrefix(after: bool, s: seq<Byte>, n: nat)
    requires n <= |s| && Tidy(after, s)
    ensures Tidy(after, s[..n])
    decreases n
  {
    if n > 0 {
      assert s[..n][1..] == s[1..][..n - 1];
      TidyPrefix(s[0] == SPACE, s[1..], n - 1);
    }
  }

  lemma {:induction false} SpacesSqueezed(after: bool, s: seq<Byte>)
    requires AllSpaces(s)
    ensures Squeezed(after, s) == if s == [] || after then [] else [SPACE]
    decreases |s|
  {
    if s != [] {
      SpacesSqueezed(true, s[1..]);
    }
  }

  lemma {:induction false} TrimIs(s: seq<Byte>)
    ensures |TrimSpaces(s)| <= |s| && TrimSpaces(s) == s[..|TrimSpaces(s)|] && AllSpaces(s[|TrimSpaces(s)|..])
    ensures TrimSpaces(s) != [] ==> TrimSpaces(s)[|TrimSpaces(s)| - 1] != SPACE
  {
    if s != [] && s[|s| - 1] == SPACE {
      var r := s[..|s| - 1];
      TrimIs(r);
      var n := |TrimSpaces(r)|;
      assert s[n..] == r[n..] + [SPACE];
    }
  }

  lemma {:induction false} TrimEndIs(s: seq<Byte>)
    ensures forall k | |TrimEnd(s)| <= k < |s| :: IsSpace(s[k])
    ensures TrimEnd(s) != [] ==> !IsSpace(TrimEnd(s)[|TrimEnd(s)| - 1])
  {
    if s != [] && IsSpace(s[|s| - 1]) {
      TrimEndIs(s[..|s| - 1]);
    }
  }

  lemma {:induction false} TrimSpacesOff(t: seq<Byte>, n: seq<Byte>)
    requires AllSpaces(n) && (t != [] ==> t[|t| - 1] != SPACE)
    ensures TrimSpaces(t + n) == t
  {
    if n == [] {
      assert t + n == t;
    } else {
      assert (t + n)[..|t + n| - 1] == t + n[..|n| - 1];
      TrimSpacesOff(t, n[..|n| - 1]);
    }
  }

  /** Trimming the end alone gives what squeezing and trimming spaces gives exactly if what is left is tidy and only spaces are dropped. */
  lemma {:induction false} TrimExact(s: seq<Byte>)
    ensures TrimEnd(s) == TrimSpaces(Squeezed(true, s)) <==> Tidy(true, TrimEnd(s)) && AllSpaces(s[|TrimEnd(s)|..])
  {
    var t := TrimEnd(s);
    var n := s[|t|..];
    TrimEndIs(s);
    assert s == t + n;
    SqueezedAppend(true, t, n);
    if Tidy(true, t) && AllSpaces(n) {
      TidyKept(true, t);
      SpacesSqueezed(if t == [] then true else t[|t| - 1] == SPACE, n);
      TrimSpacesOff(t, Squeezed(if t == [] then true else t[|t| - 1] == SPACE, n));
    }
    if t == TrimSpaces(Squeezed(true, s)) {
      var r := Squeezed(true, s);
      TrimIs(r);
      SqueezedTidy(true, s);
      TidyPrefix(true, r, |t|);
      TailSpaces(true, t, n, r);
    }
  }

  /** If only spaces are left behind t after squeezing, only spaces were there. */
  lemma {:induction false} TailSpaces(after: bool, t: seq<Byte>, n: seq<Byte>, r: seq<Byte>)
    requires r == Squeezed(after, t + n) && |t| <= |r| && AllSpaces(r[|t|..]) && r[..|t|] == t && Tidy(after, t)
    requires forall k | 0 <= k < |n| :: IsSpace(n[k])
    ensures AllSpaces(n)
  {
    SqueezedAppend(after, t, n);
    TidyKept(after, t);
    var a := if t == [] then after else t[|t| - 1] == SPACE;
    assert r[|t|..] == Squeezed(a, n);
    SpacesBack(a, n);
  }

  lemma {:induction false} SpacesBack(after: bool, s: seq<Byte>)
    requires AllSpaces(Squeezed(after, s))
    ensures AllSpaces(s)
    decreases |s|
  {
    if s != [] {
      FirstSpace(after, s);
      var r := Squeezed(true, s[1..]);
      assert Squeezed(after, s) == (if after then [] else [SPACE]) + r;
      assert forall i | 0 <= i < |r| :: r[i] == Squeezed(after, s)[if after then i else i + 1];
      SpacesBack(true, s[1..]);
    }
  }

  lemma {:induction false} FirstSpace(after: bool, s: seq<Byte>)
    requires s != []
    ensures s[0] == SPACE || (Squeezed(after, s) != [] && Squeezed(after, s)[0] == s[0])
  {
  }

  /**
   * The normalised value is the standard's exactly if the value converted run by run has, up to the white space at its end,
   * no space at its start and no two in a row, and that white space is spaces: what breaks this are references to white space.
   */
  lemma {:induction false} NormalizedExact(b: seq<Byte>, start: nat, escape: bool, quote: Byte)
    requires start <= |b| && quote in {QUOT, APOS}
    ensures var s := Convert(b, start + SpaceRun(b, start), Options(escape, true, EachRun), StopChar(quote));
      Normalized(b, start, escape, quote) == StandardValue(b, start, escape, quote) <==> Tidy(true, TrimEnd(s)) && AllSpaces(s[|TrimEnd(s)|..])
  {
    StandardFromRuns(b, start, escape, quote);
    TrimExact(Convert(b, start + SpaceRun(b, start), Options(escape, true, EachRun), StopChar(quote)));
  }

  /** Without references the value is always the standard's. */
  lemma {:induction false} PlainNormalized(b: seq<Byte>, start: nat, escape: bool, quote: Byte)
    requires start <= |b| && quote in {QUOT, APOS}
    requires escape ==> forall k | start <= k < StopAt(b, start, StopChar(quote)) :: b[k] != AMP
    ensures Normalized(b, start, escape, quote) == StandardValue(b, start, escape, quote)
  {
    var i, stop := start + SpaceRun(b, start), StopChar(quote);
    var s := Convert(b, i, Options(escape, true, EachRun), stop);
    SpacesClear(b, start, stop);
    StopLater(b, start, i, stop);
    PlainTidy(b, i, true, escape, stop);
    TidyPrefix(true, s, |TrimEnd(s)|);
    TrimEndIs(s);
    NormalizedExact(b, start, escape, quote);
  }

  lemma {:induction false} PlainTidy(b: seq<Byte>, i: nat, after: bool, escape: bool, stop: Stop)
    requires i <= |b| && stop.StopChar? && stop.c in {QUOT, APOS} && (after ==> !IsSpace(At(b, i)))
    requires escape ==> forall k | i <= k < StopAt(b, i, stop) :: b[k] != AMP
    ensures var s := Convert(b, i, Options(escape, true, EachRun), stop); Tidy(after, s) && forall k | 0 <= k < |s| && IsSpace(s[k]) :: s[k] == SPACE
    decreases |b| - i
  {
    var o := Options(escape, true, EachRun);
    if i < |b| && b[i] != 0 && !EndsAt(b, i, stop) {
      var n, c := NextPiece(b, i, o).used, if IsSpace(b[i]) then SPACE else b[i];
      assert 0 < n && i + n <= StopAt(b, i, stop) && StopAt(b, i + n, stop) == StopAt(b, i, stop)
             && Convert(b, i, o, stop) == [c] + Convert(b, i + n, o, stop) by {
        ConvertStep(b, i, o, stop);
      }
      PlainTidy(b, i + n, c == SPACE, escape, stop);
      assert ([c] + Convert(b, i + n, o, stop))[1..] == Convert(b, i + n, o, stop);
    }
  }

  /** A reference to a space keeps it where the standard drops it: the value &#32;x" is read as a space and an x. */
  lemma {:induction false} ReferenceExample()
    ensures var b: seq<Byte> := [AMP, HASH, 51, 50, SEMI, LOWX, QUOT, 0];
      Normalized(b, 0, true, QUOT) == [SPACE, LOWX] && StandardValue(b, 0, true, QUOT) == [LOWX]
  {
    var b: seq<Byte> := [AMP, HASH, 51, 50, SEMI, LOWX, QUOT, 0];
    ReferenceRead(b, EachRun);
    ReferenceRead(b, EachSpace);
    var r: seq<Byte> := [SPACE, LOWX];
    assert r[1..] == [LOWX];
    assert Squeezed(true, r) == Squeezed(true, [LOWX]) == [LOWX];
  }

  lemma {:induction false} ReferenceRead(b: seq<Byte>, spaces: Spaces)
    requires b == [AMP, HASH, 51, 50, SEMI, LOWX, QUOT, 0] && spaces != Kept
    ensures Convert(b, 0, Options(true, true, spaces), StopChar(QUOT)) == [SPACE, LOWX]
  {
    var o, stop := Options(true, true, spaces), StopChar(QUOT);
    assert DigitRun(b, 4, false) == 0 && DigitRun(b, 3, false) == 1 && DigitRun(b, 2, false) == 2;
    assert RunValue(b, 2, 0, false) == 0 && RunValue(b, 2, 1, false) == 3 && RunValue(b, 2, 2, false) == 32;
    assert NextPiece(b, 0, o) == Rewrite(5, [SPACE]) && NextPiece(b, 5, o) == Rewrite(1, [LOWX]);
    assert Convert(b, 6, o, stop) == [];
    ConvertStep(b, 5, o, stop);
    ConvertStep(b, 0, o, stop);
  }
}
