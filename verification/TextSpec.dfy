/** What the parser makes of text: references are expanded and line ends normalised, from left to right. */
module TextSpec {
  import opened Sequences
  import opened Utf

  const TAB: Byte := 9
  const LF: Byte := 10
  const CR: Byte := 13
  const SPACE: Byte := 32
  const QUOT: Byte := 34
  const HASH: Byte := 35
  const AMP: Byte := 38
  const APOS: Byte := 39
  const DASH: Byte := 45
  const SEMI: Byte := 59
  const LT: Byte := 60
  const GT: Byte := 62
  const BRACKET: Byte := 93
  const LOWX: Byte := 120

  /** Reading past the end finds the terminator. */
  function At(b: seq<Byte>, i: nat): Byte {
    if i < |b| then b[i] else 0
  }

  predicate IsSpace(c: Byte) {
    c == SPACE || c == TAB || c == LF || c == CR
  }

  // References.

  /** The five names, each with its semicolon. */
  function NameOf(k: nat): seq<Byte> {
    match k
    case 0 => [97, 109, 112, SEMI]
    case 1 => [97, 112, 111, 115, SEMI]
    case 2 => [103, 116, SEMI]
    case 3 => [108, 116, SEMI]
    case _ => [113, 117, 111, 116, SEMI]
  }

  function CharOf(k: nat): Byte {
    match k
    case 0 => AMP
    case 1 => APOS
    case 2 => GT
    case 3 => LT
    case _ => QUOT
  }

  /** How far the text at i agrees with a name. */
  function Common(b: seq<Byte>, i: nat, name: seq<Byte>): (n: nat)
    ensures n <= |name|
    decreases |name|
  {
    if name == [] || At(b, i) != name[0] then 0 else 1 + Common(b, i + 1, name[1..])
  }

  /** The name that agrees best; the names part ways early enough for this to be clear. */
  function BestName(b: seq<Byte>, i: nat): (k: nat)
    ensures k < 5
  {
    var c := At(b, i);
    if c == 97 then (if At(b, i + 1) == 112 then 1 else 0)
    else if c == 103 then 2
    else if c == 108 then 3
    else 4
  }

  predicate IsDigitOf(c: Byte, hex: bool) {
    48 <= c <= 57 || (hex && (97 <= c <= 102 || 65 <= c <= 70))
  }

  function DigitValue(c: Byte): nat {
    if 48 <= c <= 57 then c - 48 else if 97 <= c <= 102 then c - 87 else if 65 <= c <= 70 then c - 55 else 0
  }

  /** Number of digits at i. */
  function DigitRun(b: seq<Byte>, i: nat, hex: bool): nat
    decreases |b| - i
  {
    if i < |b| && IsDigitOf(b[i], hex) then 1 + DigitRun(b, i + 1, hex) else 0
  }

  /** The value of n digits at i, in 32 bits. */
  function RunValue(b: seq<Byte>, i: nat, n: nat, hex: bool): (v: nat)
    ensures v < 0x1_0000_0000
  {
    if n == 0 then 0 else
      ((if hex then 16 else 10) * RunValue(b, i, n - 1, hex) + DigitValue(At(b, i + n - 1))) % 0x1_0000_0000
  }

  /** What becomes of the text at a position: this much is read, that is written. */
  datatype Rewrite = Rewrite(used: nat, out: seq<Byte>)

  /** Text that is read as it is. */
  function Plain(b: seq<Byte>, i: nat, n: nat): Rewrite
    requires i + n <= |b|
  {
    Rewrite(n, b[i..i + n])
  }

  function DigitsAt(b: seq<Byte>, i: nat): nat {
    if At(b, i + 2) == LOWX then i + 3 else i + 2
  }

  /** A numeric reference: digits and a semicolon. Otherwise what was looked at stays as it is. */
  function NumberPiece(b: seq<Byte>, i: nat): Rewrite
    requires i < |b| && b[i] == AMP && At(b, i + 1) == HASH
  {
    var hex := At(b, i + 2) == LOWX;
    var d := DigitsAt(b, i);
    var n := DigitRun(b, d, hex);
    RunInside(b, d, hex);
    if n > 0 && At(b, d + n) == SEMI then Rewrite(d + n + 1 - i, Utf8Any(RunValue(b, d, n, hex)))
    else Plain(b, i, d + n - i)
  }

  lemma {:induction false} RunInside(b: seq<Byte>, i: nat, hex: bool)
    requires i <= |b|
    ensures i + DigitRun(b, i, hex) <= |b|
    ensures forall k | i <= k < i + DigitRun(b, i, hex) :: IsDigitOf(b[k], hex)
    ensures !IsDigitOf(At(b, i + DigitRun(b, i, hex)), hex)
    decreases |b| - i
  {
    if i < |b| && IsDigitOf(b[i], hex) {
      RunInside(b, i + 1, hex);
    }
  }

  function NamePiece(b: seq<Byte>, i: nat): Rewrite
    requires i < |b| && b[i] == AMP
  {
    var k := BestName(b, i + 1);
    var n := Common(b, i + 1, NameOf(k));
    CommonInside(b, i + 1, NameOf(k));
    if n == |NameOf(k)| then Rewrite(n + 1, [CharOf(k)]) else Plain(b, i, n + 1)
  }

  lemma {:induction false} CommonInside(b: seq<Byte>, i: nat, name: seq<Byte>)
    requires i <= |b| && 0 !in name
    ensures i + Common(b, i, name) <= |b|
    ensures forall k | 0 <= k < Common(b, i, name) :: b[i + k] == name[k]
    decreases |name|
  {
    if name != [] && At(b, i) == name[0] {
      assert 0 !in name[1..];
      CommonInside(b, i + 1, name[1..]);
    }
  }

  /** Sections 4.1 and 4.6 of XML 1.0. */
  function ReferencePiece(b: seq<Byte>, i: nat): Rewrite
    requires i < |b| && b[i] == AMP
  {
    if At(b, i + 1) == HASH then NumberPiece(b, i) else NamePiece(b, i)
  }

  // Options and delimiters.

  /** White space stays, or each becomes a space, or each run of it. */
  datatype Spaces = Kept | EachSpace | EachRun

  datatype Options = Options(escape: bool, eol: bool, spaces: Spaces)

  /** What ends the text: a character, or a sequence of three. */
  datatype Stop = StopChar(c: Byte) | StopComment | StopCdata

  predicate EndsAt(b: seq<Byte>, i: nat, stop: Stop) {
    match stop
    case StopChar(c) => At(b, i) == c
    case StopComment => At(b, i) == DASH && At(b, i + 1) == DASH && At(b, i + 2) == GT
    case StopCdata => At(b, i) == BRACKET && At(b, i + 1) == BRACKET && At(b, i + 2) == GT
  }

  /** The delimiters that are used, and the conversions that go with them. */
  predicate Suits(stop: Stop, o: Options) {
    if stop.StopChar? then stop.c in {LT, QUOT, APOS} else !o.escape && o.spaces == Kept
  }

  /** A line end is one character, however it is written. */
  function LineEnd(b: seq<Byte>, i: nat, c: Byte): Rewrite {
    Rewrite(if At(b, i + 1) == LF then 2 else 1, [c])
  }

  function SpaceRun(b: seq<Byte>, i: nat): (n: nat)
    ensures i <= |b| ==> i + n <= |b|
    ensures forall k | i <= k < i + n :: k < |b| && IsSpace(b[k])
    ensures !IsSpace(At(b, i + n))
    decreases |b| - i
  {
    if i < |b| && IsSpace(b[i]) then 1 + SpaceRun(b, i + 1) else 0
  }

  /** White space at i. */
  function SpacePiece(b: seq<Byte>, i: nat, runs: bool): Rewrite
    requires i < |b| && IsSpace(b[i])
  {
    if runs then Rewrite(SpaceRun(b, i), [SPACE]) else if b[i] == CR then LineEnd(b, i, SPACE) else Rewrite(1, [SPACE])
  }

  /** One step of the conversion. */
  function NextPiece(b: seq<Byte>, i: nat, o: Options): Rewrite
    requires i < |b|
  {
    if o.spaces != Kept && IsSpace(b[i]) then SpacePiece(b, i, o.spaces == EachRun)
    else if o.eol && b[i] == CR then LineEnd(b, i, LF)
    else if o.escape && b[i] == AMP then ReferencePiece(b, i)
    else Rewrite(1, [b[i]])
  }

  /** The first delimiter or terminator. */
  function StopAt(b: seq<Byte>, i: nat, stop: Stop): (j: nat)
    requires i <= |b|
    ensures i <= j <= |b| && (j == |b| || b[j] == 0 || EndsAt(b, j, stop))
    decreases |b| - i
  {
    if i == |b| || b[i] == 0 || EndsAt(b, i, stop) then i else StopAt(b, i + 1, stop)
  }

  /** Nothing before it ends the text. */
  lemma {:induction false} StopFirst(b: seq<Byte>, i: nat, k: nat, stop: Stop)
    requires i <= k < |b| && (b[k] == 0 || EndsAt(b, k, stop))
    ensures StopAt(b, i, stop) <= k
    decreases k - i
  {
    if i < k {
      StopFirst(b, i + 1, k, stop);
    }
  }

  lemma PieceInside(b: seq<Byte>, i: nat, o: Options)
    requires i < |b|
    ensures 1 <= NextPiece(b, i, o).used && i + NextPiece(b, i, o).used <= |b|
  {
    var p := NextPiece(b, i, o);
    if o.escape && b[i] == AMP && !(o.spaces != Kept && IsSpace(b[i])) {
      if At(b, i + 1) == HASH {
        RunInside(b, DigitsAt(b, i), At(b, i + 2) == LOWX);
      } else {
        CommonInside(b, i + 1, NameOf(BestName(b, i + 1)));
      }
    }
  }

  /** Nothing in this stretch can end text. */
  predicate Harmless(b: seq<Byte>, i: nat, j: nat) {
    i <= j <= |b| && forall k | i <= k < j :: b[k] !in {0, LT, QUOT, APOS}
  }

  lemma NumberHarmless(b: seq<Byte>, i: nat)
    requires i < |b| && b[i] == AMP && At(b, i + 1) == HASH
    ensures Harmless(b, i, i + NumberPiece(b, i).used)
  {
    RunInside(b, DigitsAt(b, i), At(b, i + 2) == LOWX);
  }

  lemma SpellsHarmless(b: seq<Byte>, i: nat, name: seq<Byte>, n: nat)
    requires i < |b| && b[i] == AMP && 0 < n <= |name| + 1 && i + n <= |b|
    requires forall j | 0 <= j < n - 1 :: b[i + 1 + j] == name[j]
    requires forall j | 0 <= j < |name| :: name[j] !in {0, LT, QUOT, APOS}
    ensures Harmless(b, i, i + n)
  {
    forall k | i < k < i + n ensures b[k] == name[k - i - 1] {
      assert b[i + 1 + (k - i - 1)] == name[k - i - 1];
    }
  }

  lemma NameHarmless(b: seq<Byte>, i: nat)
    requires i < |b| && b[i] == AMP
    ensures Harmless(b, i, i + NamePiece(b, i).used)
  {
    var k := BestName(b, i + 1);
    CommonInside(b, i + 1, NameOf(k));
    NameLetters(k);
    SpellsHarmless(b, i, NameOf(k), NamePiece(b, i).used);
  }

  /** A step never runs over a delimiter or the terminator. */
  lemma PieceClear(b: seq<Byte>, i: nat, o: Options, stop: Stop)
    requires i < |b| && b[i] != 0 && !EndsAt(b, i, stop) && Suits(stop, o)
    ensures i + NextPiece(b, i, o).used <= StopAt(b, i, stop)
  {
    var n := NextPiece(b, i, o).used;
    if o.escape && b[i] == AMP && !(o.spaces != Kept && IsSpace(b[i])) {
      if At(b, i + 1) == HASH {
        NumberHarmless(b, i);
      } else {
        NameHarmless(b, i);
      }
      assert Harmless(b, i, i + n);
    } else if o.spaces == EachRun && IsSpace(b[i]) {
      assert Harmless(b, i, i + n);
    } else {
      assert n == 1 || (n == 2 && i + 1 < |b| && b[i + 1] == LF);
    }
  }

  lemma NameLetters(k: nat)
    ensures forall j | 0 <= j < |NameOf(k)| :: NameOf(k)[j] !in {0, LT, QUOT, APOS}
  {
  }

  /** The whole conversion from i to the delimiter. */
  function Convert(b: seq<Byte>, i: nat, o: Options, stop: Stop): seq<Byte>
    requires i <= |b| && Suits(stop, o)
    decreases |b| - i
  {
    if i == |b| || b[i] == 0 || EndsAt(b, i, stop) then [] else
      PieceInside(b, i, o);
      var p := NextPiece(b, i, o);
      p.out + Convert(b, i + p.used, o, stop)
  }

  /** No step writes more than it reads. */
  lemma PieceShrinks(b: seq<Byte>, i: nat, o: Options)
    requires i < |b|
    ensures |NextPiece(b, i, o).out| <= NextPiece(b, i, o).used
  {
    PieceInside(b, i, o);
    if o.escape && b[i] == AMP && !(o.spaces != Kept && IsSpace(b[i])) {
      if At(b, i + 1) == HASH {
        var hex, d := At(b, i + 2) == LOWX, DigitsAt(b, i);
        RunInside(b, d, hex);
        if DigitRun(b, d, hex) == 1 {
          OneDigit(b, d, hex);
        }
      } else {
        CommonInside(b, i + 1, NameOf(BestName(b, i + 1)));
      }
    }
  }

  lemma OneDigit(b: seq<Byte>, d: nat, hex: bool)
    ensures RunValue(b, d, 1, hex) < 16
  {
    assert RunValue(b, d, 0, hex) == 0;
  }

  /** The delimiter that is found does not depend on where before it the search begins. */
  lemma {:induction false} StopLater(b: seq<Byte>, i: nat, k: nat, stop: Stop)
    requires i <= |b| && i <= k <= StopAt(b, i, stop)
    ensures StopAt(b, k, stop) == StopAt(b, i, stop)
    decreases k - i
  {
    if i < k {
      StopLater(b, i + 1, k, stop);
    }
  }

  lemma ConvertStep(b: seq<Byte>, i: nat, o: Options, stop: Stop)
    requires i < |b| && b[i] != 0 && !EndsAt(b, i, stop) && Suits(stop, o)
    ensures var n := NextPiece(b, i, o).used;
      && 1 <= n && i + n <= StopAt(b, i, stop) && StopAt(b, i + n, stop) == StopAt(b, i, stop)
      && Convert(b, i, o, stop) == NextPiece(b, i, o).out + Convert(b, i + n, o, stop)
  {
    PieceInside(b, i, o);
    PieceClear(b, i, o, stop);
    StopLater(b, i, i + NextPiece(b, i, o).used, stop);
  }

  /** White space at the end goes. */
  function TrimEnd(s: seq<Byte>): (r: seq<Byte>)
    ensures |r| <= |s| && r == s[..|r|]
  {
    if s != [] && IsSpace(s[|s| - 1]) then TrimEnd(s[..|s| - 1]) else s
  }
}
