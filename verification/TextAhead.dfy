/** What a conversion does is decided by the text ahead of it. */
module TextAhead {
  import opened Utf
  import opened TextSpec

  predicate Same(a: seq<Byte>, b: seq<Byte>, i: nat) {
    |a| == |b| && forall k | i <= k < |a| :: a[k] == b[k]
  }

  lemma {:induction false} DigitRunSame(a: seq<Byte>, b: seq<Byte>, i: nat, hex: bool)
    requires Same(a, b, i)
    ensures DigitRun(a, i, hex) == DigitRun(b, i, hex)
    decreases |a| - i
  {
    if i < |a| {
      DigitRunSame(a, b, i + 1, hex);
    }
  }

  lemma {:induction false} RunValueSame(a: seq<Byte>, b: seq<Byte>, i: nat, n: nat, hex: bool)
    requires Same(a, b, i)
    ensures RunValue(a, i, n, hex) == RunValue(b, i, n, hex)
  {
    if n > 0 {
      RunValueSame(a, b, i, n - 1, hex);
    }
  }

  lemma {:induction false} CommonSame(a: seq<Byte>, b: seq<Byte>, i: nat, name: seq<Byte>)
    requires Same(a, b, i)
    ensures Common(a, i, name) == Common(b, i, name)
    decreases |name|
  {
    if name != [] {
      CommonSame(a, b, i + 1, name[1..]);
    }
  }

  lemma PlainSame(a: seq<Byte>, b: seq<Byte>, i: nat, n: nat)
    requires Same(a, b, i) && i + n <= |a|
    ensures Plain(a, i, n) == Plain(b, i, n)
  {
    assert a[i..i + n] == b[i..i + n];
  }

  lemma NumberSame(a: seq<Byte>, b: seq<Byte>, i: nat)
    requires Same(a, b, i) && i < |b| && b[i] == AMP && At(b, i + 1) == HASH
    ensures NumberPiece(a, i) == NumberPiece(b, i)
  {
    var hex, d := At(b, i + 2) == LOWX, DigitsAt(b, i);
    var n := DigitRun(b, d, hex);
    DigitRunSame(a, b, d, hex);
    RunValueSame(a, b, d, n, hex);
    DigitsInside(b, d, hex);
    PlainSame(a, b, i, d + n - i);
    assert DigitsAt(a, i) == d && DigitRun(a, d, hex) == n && At(a, d + n) == At(b, d + n);
    assert RunValue(a, d, n, hex) == RunValue(b, d, n, hex);
  }

  lemma DigitsInside(b: seq<Byte>, i: nat, hex: bool)
    requires i <= |b|
    ensures i + DigitRun(b, i, hex) <= |b|
  {
    RunInside(b, i, hex);
  }

  lemma NameSame(a: seq<Byte>, b: seq<Byte>, i: nat)
    requires Same(a, b, i) && i < |b| && b[i] == AMP
    ensures NamePiece(a, i) == NamePiece(b, i)
  {
    var k := BestName(b, i + 1);
    assert BestName(a, i + 1) == k;
    CommonSame(a, b, i + 1, NameOf(k));
    NameInside(b, i + 1, k);
    PlainSame(a, b, i, Common(b, i + 1, NameOf(k)) + 1);
  }

  lemma NameInside(b: seq<Byte>, i: nat, k: nat)
    requires i <= |b|
    ensures i + Common(b, i, NameOf(k)) <= |b|
  {
    CommonInside(b, i, NameOf(k));
  }

  lemma PieceSame(a: seq<Byte>, b: seq<Byte>, i: nat, o: Options)
    requires Same(a, b, i) && i < |b|
    ensures NextPiece(a, i, o) == NextPiece(b, i, o)
  {
    if b[i] == AMP {
      if At(b, i + 1) == HASH {
        NumberSame(a, b, i);
      } else {
        NameSame(a, b, i);
      }
    }
    if IsSpace(b[i]) {
      SpaceRunSame(a, b, i);
    }
    PlainSame(a, b, i, 1);
  }

  lemma {:induction false} SpaceRunSame(a: seq<Byte>, b: seq<Byte>, i: nat)
    requires Same(a, b, i)
    ensures SpaceRun(a, i) == SpaceRun(b, i)
    decreases |a| - i
  {
    if i < |a| {
      SpaceRunSame(a, b, i + 1);
    }
  }

  lemma EndSame(a: seq<Byte>, b: seq<Byte>, i: nat, stop: Stop)
    requires Same(a, b, i)
    ensures EndsAt(a, i, stop) == EndsAt(b, i, stop)
  {
  }

  lemma {:induction false} StopSame(a: seq<Byte>, b: seq<Byte>, i: nat, stop: Stop)
    requires Same(a, b, i) && i <= |b|
    ensures StopAt(a, i, stop) == StopAt(b, i, stop)
    decreases |b| - i
  {
    if i < |b| {
      EndSame(a, b, i, stop);
      StopSame(a, b, i + 1, stop);
    }
  }

  lemma {:induction false} ConvertSame(a: seq<Byte>, b: seq<Byte>, i: nat, o: Options, stop: Stop)
    requires Same(a, b, i) && i <= |b| && Suits(stop, o)
    ensures Convert(a, i, o, stop) == Convert(b, i, o, stop)
    decreases |b| - i
  {
    if i < |b| {
      PieceSame(a, b, i, o);
      EndSame(a, b, i, stop);
      PieceInside(b, i, o);
      var n := NextPiece(b, i, o).used;
      ConvertSame(a, b, i + n, o, stop);
      ConvertSameOn(a, b, i, n, o, stop);
    }
  }

  lemma ConvertSameOn(a: seq<Byte>, b: seq<Byte>, i: nat, n: nat, o: Options, stop: Stop)
    requires i < |a| == |b| && a[i] == b[i] && Suits(stop, o) && EndsAt(a, i, stop) == EndsAt(b, i, stop)
    requires NextPiece(a, i, o) == NextPiece(b, i, o) && n == NextPiece(b, i, o).used && i + n <= |b|
    requires Convert(a, i + n, o, stop) == Convert(b, i + n, o, stop)
    ensures Convert(a, i, o, stop) == Convert(b, i, o, stop)
  {
  }
}
