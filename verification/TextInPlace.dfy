/** Text conversion inside the parse buffer: what is dropped leaves a gap that moves along behind the reader. */
module TextInPlace {
  import opened Sequences
  import opened Utf
  import opened TextSpec

  /** The gap: size bytes before end are void. */
  class Gap {
    var open: bool
    var end: nat
    var size: nat

    constructor ()
      ensures !open && end == 0 && size == 0
    {
      open, end, size := false, 0, 0;
    }

    ghost predicate Fits(start: nat, s: nat)
      reads this
    {
      start <= s && (open ==> size <= end && start <= end - size && end <= s) && (!open ==> size == 0)
    }

    /** The text from start to s, without the gap. */
    ghost function Text(a: seq<Byte>, start: nat, s: nat): seq<Byte>
      requires Fits(start, s) && s <= |a|
      reads this
    {
      if open then a[start..end - size] + a[end..s] else a[start..s]
    }

    /** Move what follows the gap down over it; t is where the text now ends. */
    method Collapse(a: array<Byte>, s: nat, ghost start: nat) returns (t: nat)
      requires Fits(start, s) && s <= a.Length
      modifies a
      ensures start <= t <= s && t == s - size && a[..][start..t] == old(Text(a[..], start, s))
      ensures a[..][s..] == old(a[..][s..]) && a[..][..start] == old(a[..][..start])
    {
      if open {
        MoveDown(a, end - size, end, s - end);
      }
      t := s - size;
      CollapsedText(old(a[..]), a[..], start, if open then end - size else s, if open then end else s, s);
    }

    /** Close the old gap and open one of count more bytes at s. */
    method Push(a: array<Byte>, s: nat, count: nat, ghost start: nat) returns (t: nat)
      requires Fits(start, s) && s + count <= a.Length
      modifies this, a
      ensures t == s + count && Fits(start, t)
      ensures Text(a[..], start, t) == old(Text(a[..], start, s))
      ensures a[..][s..] == old(a[..][s..]) && a[..][..start] == old(a[..][..start])
    {
      ghost var e := Collapse(a, s, start);
      t := s + count;
      open, end, size := true, t, size + count;
      assert a[..][t..t] == [];
    }

    /** Close the gap; the text ends where it says. */
    method Flush(a: array<Byte>, s: nat, ghost start: nat) returns (t: nat)
      requires Fits(start, s) && s <= a.Length
      modifies a
      ensures start <= t <= s && a[..][start..t] == old(Text(a[..], start, s))
      ensures a[..][s..] == old(a[..][s..]) && a[..][..start] == old(a[..][..start])
    {
      t := Collapse(a, s, start);
    }
  }

  /** After a[end..s] has been moved down to dst. */
  lemma CollapsedText(was: seq<Byte>, a: seq<Byte>, start: nat, dst: nat, end: nat, s: nat)
    requires start <= dst <= end <= s <= |was| && a == was[..dst] + was[end..s] + was[dst + (s - end)..]
    ensures a[start..dst + (s - end)] == was[start..dst] + was[end..s]
    ensures a[s..] == was[s..] && a[..start] == was[..start]
  {
  }

  /** Move n bytes down; the regions may overlap. */
  method MoveDown(a: array<Byte>, dst: nat, src: nat, n: nat)
    requires dst <= src && src + n <= a.Length
    modifies a
    ensures a[..] == old(a[..])[..dst] + old(a[..])[src..src + n] + old(a[..])[dst + n..]
  {
    ghost var was := a[..];
    ghost var moved := was[..dst] + was[src..src + n] + was[dst + n..];
    for i := 0 to n
      invariant forall k | 0 <= k < dst + i :: a[k] == moved[k]
      invariant forall k | dst + i <= k < a.Length :: a[k] == was[k]
    {
      a[dst + i] := a[src + i];
    }
  }

  /** Of the original text b, the part up to s has been read and has become out; the rest is untouched. */
  ghost predicate Held(a: seq<Byte>, b: seq<Byte>, start: nat, g: Gap, s: nat, out: seq<Byte>)
    reads g
  {
    && |a| == |b| && g.Fits(start, s) && s <= |a|
    && a[s..] == b[s..] && a[..start] == b[..start] && g.Text(a, start, s) == out
  }

  /** n bytes are kept as they are. */
  lemma HeldOn(a: seq<Byte>, b: seq<Byte>, start: nat, g: Gap, s: nat, out: seq<Byte>, n: nat)
    requires Held(a, b, start, g, s, out) && s + n <= |a|
    ensures Held(a, b, start, g, s + n, out + b[s..s + n])
    ensures forall k | s <= k < |a| :: a[k] == b[k]
  {
    assert forall k | s <= k < |a| :: a[k] == a[s..][k - s] == b[s..][k - s] == b[k];
    assert b[s..s + n] == a[s..s + n];
    var from := if g.open then g.end else start;
    assert a[from..s + n] == a[from..s] + a[s..s + n];
    assert a[s + n..] == a[s..][n..] && b[s + n..] == b[s..][n..];
  }

  /** Bytes are written at the reading position, over text that has been looked at. */
  method Overwrite(a: array<Byte>, ghost b: seq<Byte>, g: Gap, s: nat, text: seq<Byte>, ghost start: nat, ghost out: seq<Byte>)
    requires Held(a[..], b, start, g, s, out) && s + |text| <= a.Length
    modifies a
    ensures Held(a[..], b, start, g, s + |text|, out + text)
  {
    ghost var was := a[..];
    HeldOn(was, b, start, g, s, out, |text|);
    for i := 0 to |text|
      invariant forall k | 0 <= k < i :: a[s + k] == text[k]
      invariant forall k | 0 <= k < s || s + i <= k < a.Length :: a[k] == was[k]
    {
      a[s + i] := text[i];
    }
    Overwritten(was, a[..], b, start, g, s, out, text);
  }

  /** Text written over the end of a slice. */
  lemma WrittenSlice(was: seq<Byte>, a: seq<Byte>, from: nat, s: nat, text: seq<Byte>)
    requires |a| == |was| && from <= s && s + |text| <= |a|
    requires forall k | 0 <= k < |text| :: a[s + k] == text[k]
    requires forall k | 0 <= k < s || s + |text| <= k < |a| :: a[k] == was[k]
    ensures a[from..s + |text|] == was[from..s] + text
    ensures a[s + |text|..] == was[s + |text|..] && a[..from] == was[..from]
  {
  }

  lemma Overwritten(was: seq<Byte>, a: seq<Byte>, b: seq<Byte>, start: nat, g: Gap, s: nat, out: seq<Byte>, text: seq<Byte>)
    requires Held(was, b, start, g, s, out) && |a| == |was| && s + |text| <= |a|
    requires forall k | 0 <= k < |text| :: a[s + k] == text[k]
    requires forall k | 0 <= k < s || s + |text| <= k < |a| :: a[k] == was[k]
    ensures Held(a, b, start, g, s + |text|, out + text)
  {
    assert Held(was, b, start, g, s + |text|, out + b[s..s + |text|]) by {
      HeldOn(was, b, start, g, s, out, |text|);
    }
    var from := if g.open then g.end else start;
    WrittenSlice(was, a, from, s, text);
    assert a[..start] == a[..from][..start] == was[..from][..start] == was[..start];
    if g.open {
      WrittenText(was, a, start, g.end - g.size, g.end, s, text);
    }
  }

  lemma WrittenText(was: seq<Byte>, a: seq<Byte>, start: nat, dst: nat, end: nat, s: nat, text: seq<Byte>)
    requires |a| == |was| && start <= dst <= end <= s && s + |text| <= |a|
    requires a[..end] == was[..end] && a[end..s + |text|] == was[end..s] + text
    ensures a[start..dst] + a[end..s + |text|] == (was[start..dst] + was[end..s]) + text
  {
    assert a[start..dst] == a[..end][start..dst] == was[..end][start..dst] == was[start..dst];
  }

  /** The next n bytes are dropped. */
  method Skip(a: array<Byte>, ghost b: seq<Byte>, g: Gap, s: nat, n: nat, ghost start: nat, ghost out: seq<Byte>) returns (t: nat)
    requires Held(a[..], b, start, g, s, out) && s + n <= a.Length
    modifies a, g
    ensures t == s + n && Held(a[..], b, start, g, t, out)
  {
    t := g.Push(a, s, n, start);
    assert a[..][t..] == a[..][s..][n..] && b[t..] == b[s..][n..];
  }

  /** A piece of text is replaced by one that is no longer. */
  method Replace(a: array<Byte>, g: Gap, s: nat, used: nat, text: seq<Byte>, ghost b: seq<Byte>, ghost start: nat, ghost out: seq<Byte>) returns (t: nat)
    requires Held(a[..], b, start, g, s, out) && |text| <= used && s + used <= a.Length
    modifies a, g
    ensures t == s + used && Held(a[..], b, start, g, t, out + text)
  {
    Overwrite(a, b, g, s, text, start, out);
    t := Skip(a, b, g, s + |text|, used - |text|, start, out + text);
  }

  // References.

  /** The zero at the end. */
  ghost predicate Ends(b: seq<Byte>, s: nat, term: nat) {
    s <= term < |b| && b[term] == 0
  }

  lemma {:induction false} RunIs(b: seq<Byte>, i: nat, n: nat, hex: bool)
    requires i + n <= |b| && (forall k | i <= k < i + n :: IsDigitOf(b[k], hex)) && !IsDigitOf(At(b, i + n), hex)
    ensures DigitRun(b, i, hex) == n
    decreases n
  {
    if n > 0 {
      RunIs(b, i + 1, n - 1, hex);
    }
  }

  /** Read the digits at d. */
  method ReadDigits(a: array<Byte>, ghost b: seq<Byte>, d: nat, hex: bool, ghost term: nat) returns (n: nat, ucsc: nat)
    requires a.Length == |b| && d <= |b| && (forall k | d <= k < |b| :: a[k] == b[k]) && Ends(b, d, term)
    ensures n == DigitRun(b, d, hex) && d + n <= term && ucsc == RunValue(b, d, n, hex)
  {
    n, ucsc := 0, 0;
    while IsDigitOf(a[d + n], hex)
      invariant d + n <= term && ucsc == RunValue(b, d, n, hex)
      invariant forall k | d <= k < d + n :: IsDigitOf(b[k], hex)
      decreases term - (d + n)
    {
      ucsc := ((if hex then 16 else 10) * ucsc + DigitValue(a[d + n])) % 0x1_0000_0000;
      n := n + 1;
    }
    RunIs(b, d, n, hex);
  }

  /** Scan a numeric reference: its value if there is one, and how far the scan went. */
  method ScanNumber(a: array<Byte>, ghost b: seq<Byte>, s: nat, ghost term: nat) returns (found: bool, used: nat, ucsc: nat)
    requires a.Length == |b| && (forall k | s <= k < |b| :: a[k] == b[k])
    requires s < |b| && b[s] == AMP && At(b, s + 1) == HASH && Ends(b, s, term)
    ensures used == NumberPiece(b, s).used && s + used <= term
    ensures found ==> NumberPiece(b, s).out == Utf8Any(ucsc) && |Utf8Any(ucsc)| <= used
    ensures !found ==> NumberPiece(b, s).out == b[s..s + used]
  {
    var hex := a[s + 2] == LOWX;
    var d := if hex then s + 3 else s + 2;
    var n;
    n, ucsc := ReadDigits(a, b, d, hex, term);
    NumberIs(b, s, n);
    found := n > 0 && a[d + n] == SEMI;
    used := d + n - s + if found then 1 else 0;
  }

  method EscapeNumber(a: array<Byte>, g: Gap, s: nat, ghost b: seq<Byte>, ghost start: nat, ghost out: seq<Byte>, ghost term: nat) returns (t: nat)
    requires Held(a[..], b, start, g, s, out) && s < |b| && b[s] == AMP && At(b, s + 1) == HASH && Ends(b, s, term)
    modifies a, g
    ensures t == s + NumberPiece(b, s).used && t <= term && Held(a[..], b, start, g, t, out + NumberPiece(b, s).out)
  {
    HeldOn(a[..], b, start, g, s, out, 0);
    var found, used, ucsc := ScanNumber(a, b, s, term);
    t := s + used;
    if found {
      t := Replace(a, g, s, used, Utf8Any(ucsc), b, start, out);
    } else {
      HeldOn(a[..], b, start, g, s, out, used);
    }
  }

  lemma NumberIs(b: seq<Byte>, s: nat, n: nat)
    requires s < |b| && b[s] == AMP && At(b, s + 1) == HASH && n == DigitRun(b, DigitsAt(b, s), At(b, s + 2) == LOWX)
    ensures var d := DigitsAt(b, s);
      && d + n <= |b|
      && (n > 0 && At(b, d + n) == SEMI ==>
            NumberPiece(b, s) == Rewrite(d + n + 1 - s, Utf8Any(RunValue(b, d, n, At(b, s + 2) == LOWX))) && |NumberPiece(b, s).out| <= d + n + 1 - s)
      && (!(n > 0 && At(b, d + n) == SEMI) ==> NumberPiece(b, s) == Rewrite(d + n - s, b[s..d + n]))
  {
    RunInside(b, DigitsAt(b, s), At(b, s + 2) == LOWX);
    PieceShrinks(b, s, Options(true, false, Kept));
  }

  /** How far does the text at i agree with the name? */
  method MatchName(a: array<Byte>, ghost b: seq<Byte>, i: nat, name: seq<Byte>, ghost term: nat) returns (n: nat)
    requires a.Length == |b| && i <= |b| && (forall k | i <= k < |b| :: a[k] == b[k]) && Ends(b, i, term) && 0 !in name
    ensures n == Common(b, i, name) && i + n <= term
  {
    n := 0;
    assert name[0..] == name;
    while n < |name| && a[i + n] == name[n]
      invariant n <= |name| && i + n <= term
      invariant Common(b, i, name) == n + Common(b, i + n, name[n..])
      decreases |name| - n
    {
      assert name[n] in name && name[n..][1..] == name[n + 1..];
      n := n + 1;
    }
    assert n < |name| ==> At(b, i + n) != name[n..][0];
  }

  /** Choose the name by its first letters, then match it. */
  method ScanName(a: array<Byte>, ghost b: seq<Byte>, s: nat, ghost term: nat) returns (found: bool, used: nat, c: Byte)
    requires a.Length == |b| && (forall k | s <= k < |b| :: a[k] == b[k])
    requires s < |b| && b[s] == AMP && Ends(b, s, term)
    ensures used == NamePiece(b, s).used && 1 <= used && s + used <= term
    ensures found ==> NamePiece(b, s).out == [c]
    ensures !found ==> NamePiece(b, s).out == b[s..s + used]
  {
    var k := 4;
    if a[s + 1] == 97 {
      k := if a[s + 2] == 112 then 1 else 0;
    } else if a[s + 1] == 103 {
      k := 2;
    } else if a[s + 1] == 108 {
      k := 3;
    }
    NameLetters(k);
    assert k == BestName(b, s + 1);
    var n := MatchName(a, b, s + 1, NameOf(k), term);
    found, used, c := n == |NameOf(k)|, n + 1, CharOf(k);
  }

  method EscapeName(a: array<Byte>, g: Gap, s: nat, ghost b: seq<Byte>, ghost start: nat, ghost out: seq<Byte>, ghost term: nat) returns (t: nat)
    requires Held(a[..], b, start, g, s, out) && s < |b| && b[s] == AMP && Ends(b, s, term)
    modifies a, g
    ensures t == s + NamePiece(b, s).used && t <= term && Held(a[..], b, start, g, t, out + NamePiece(b, s).out)
  {
    HeldOn(a[..], b, start, g, s, out, 0);
    var found, used, c := ScanName(a, b, s, term);
    t := s + used;
    if found {
      t := Replace(a, g, s, used, [c], b, start, out);
    } else {
      HeldOn(a[..], b, start, g, s, out, used);
    }
  }

  /** Expand the reference at s, or step over what turned out not to be one. */
  method StrconvEscape(a: array<Byte>, g: Gap, s: nat, ghost b: seq<Byte>, ghost start: nat, ghost out: seq<Byte>, ghost term: nat) returns (t: nat)
    requires Held(a[..], b, start, g, s, out) && s < |b| && b[s] == AMP && Ends(b, s, term)
    modifies a, g
    ensures t == s + ReferencePiece(b, s).used && t <= term && Held(a[..], b, start, g, t, out + ReferencePiece(b, s).out)
  {
    HeldOn(a[..], b, start, g, s, out, 0);
    if a[s + 1] == HASH {
      t := EscapeNumber(a, g, s, b, start, out, term);
    } else {
      t := EscapeName(a, g, s, b, start, out, term);
    }
  }

  /** A carriage return, with a line feed or without, becomes c. */
  method ReplaceLineEnd(a: array<Byte>, g: Gap, s: nat, c: Byte, ghost b: seq<Byte>, ghost start: nat, ghost out: seq<Byte>, ghost term: nat) returns (t: nat)
    requires Held(a[..], b, start, g, s, out) && s < |b| && b[s] == CR && Ends(b, s, term)
    modifies a, g
    ensures t == s + LineEnd(b, s, c).used && t <= term && Held(a[..], b, start, g, t, out + LineEnd(b, s, c).out)
  {
    Overwrite(a, b, g, s, [c], start, out);
    t := s + 1;
    HeldOn(a[..], b, start, g, t, out + [c], 0);
    if a[t] == LF {
      t := Skip(a, b, g, t, 1, start, out + [c]);
    }
  }

  /** White space becomes a space, one by one or a whole run. */
  method ReplaceSpace(a: array<Byte>, g: Gap, s: nat, runs: bool, ghost b: seq<Byte>, ghost start: nat, ghost out: seq<Byte>, ghost term: nat) returns (t: nat)
    requires Held(a[..], b, start, g, s, out) && s < |b| && IsSpace(b[s]) && Ends(b, s, term)
    modifies a, g
    ensures t == s + SpacePiece(b, s, runs).used && Held(a[..], b, start, g, t, out + SpacePiece(b, s, runs).out)
  {
    HeldOn(a[..], b, start, g, s, out, 0);
    if runs {
      Overwrite(a, b, g, s, [SPACE], start, out);
      t := s + 1;
      HeldOn(a[..], b, start, g, t, out + [SPACE], 0);
      if IsSpace(a[t]) {
        var end := RunEnd(a, t, b, term);
        t := Skip(a, b, g, t, end - t, start, out + [SPACE]);
      }
    } else if a[s] == CR {
      t := ReplaceLineEnd(a, g, s, SPACE, b, start, out, term);
    } else {
      Overwrite(a, b, g, s, [SPACE], start, out);
      t := s + 1;
    }
  }

  /** The end of a run of white space. */
  method RunEnd(a: array<Byte>, s: nat, ghost b: seq<Byte>, ghost term: nat) returns (t: nat)
    requires a.Length == |b| && Ends(b, s, term) && forall k | s <= k < |b| :: a[k] == b[k]
    ensures t == s + SpaceRun(b, s) && t <= term
  {
    t := s;
    while IsSpace(a[t])
      invariant s <= t && Ends(b, t, term) && t + SpaceRun(b, t) == s + SpaceRun(b, s)
      decreases term - t
    {
      t := t + 1;
    }
  }

  // The loops.

  /** One step at a character that does not end the text. */
  method ConvertOne(a: array<Byte>, g: Gap, s: nat, o: Options, ghost b: seq<Byte>, ghost start: nat, ghost out: seq<Byte>, ghost term: nat) returns (t: nat)
    requires Held(a[..], b, start, g, s, out) && s < |b| && b[s] != 0 && Ends(b, s, term)
    modifies a, g
    ensures t == s + NextPiece(b, s, o).used && Held(a[..], b, start, g, t, out + NextPiece(b, s, o).out)
  {
    HeldOn(a[..], b, start, g, s, out, 0);
    if o.spaces != Kept && IsSpace(a[s]) {
      t := ReplaceSpace(a, g, s, o.spaces == EachRun, b, start, out, term);
    } else if o.eol && a[s] == CR {
      t := ReplaceLineEnd(a, g, s, LF, b, start, out, term);
    } else if o.escape && a[s] == AMP {
      t := StrconvEscape(a, g, s, b, start, out, term);
    } else {
      HeldOn(a[..], b, start, g, s, out, 1);
      assert b[s..s + 1] == [b[s]];
      t := s + 1;
    }
  }

  /** Is there a delimiter at s? Three characters are looked at only as long as they are there. */
  method LooksAtEnd(a: array<Byte>, s: nat, stop: Stop, ghost term: nat) returns (e: bool)
    requires s < a.Length && s <= term < a.Length && a[term] == 0 && a[s] != 0
    ensures e == EndsAt(a[..], s, stop)
  {
    match stop
    case StopChar(c) => e := a[s] == c;
    case StopComment => e := a[s] == DASH && a[s + 1] == DASH && a[s + 2] == GT;
    case StopCdata => e := a[s] == BRACKET && a[s + 1] == BRACKET && a[s + 2] == GT;
  }

  /** Does the text end at s, at the terminator or at a delimiter? */
  method AtEnd(a: array<Byte>, g: Gap, s: nat, stop: Stop, ghost b: seq<Byte>, ghost start: nat, ghost out: seq<Byte>, ghost term: nat) returns (e: bool)
    requires Held(a[..], b, start, g, s, out) && Ends(b, s, term)
    ensures e == (b[s] == 0 || EndsAt(b, s, stop))
  {
    HeldOn(a[..], b, start, g, s, out, 0);
    e := a[s] == 0;
    if !e {
      e := LooksAtEnd(a, s, stop, term);
    }
  }

  /** The part from start to s has been converted to out, and s is not past the end of the text. */
  ghost predicate Converted(b: seq<Byte>, start: nat, s: nat, o: Options, stop: Stop, out: seq<Byte>, term: nat)
    requires Suits(stop, o)
  {
    && start <= s <= |b| && s <= StopAt(b, start, stop) <= term && StopAt(b, s, stop) == StopAt(b, start, stop)
    && out + Convert(b, s, o, stop) == Convert(b, start, o, stop)
  }

  lemma ConvertedNone(b: seq<Byte>, start: nat, o: Options, stop: Stop, term: nat)
    requires start <= |b| && Ends(b, start, term) && Suits(stop, o)
    ensures Converted(b, start, start, o, stop, [], term)
  {
    StopFirst(b, start, term, stop);
  }

  lemma ConvertedMore(b: seq<Byte>, start: nat, s: nat, o: Options, stop: Stop, out: seq<Byte>, term: nat)
    requires Suits(stop, o) && Converted(b, start, s, o, stop, out, term) && Ends(b, s, term) && b[s] != 0 && !EndsAt(b, s, stop)
    ensures var p := NextPiece(b, s, o);
      1 <= p.used && Ends(b, s + p.used, term) && Converted(b, start, s + p.used, o, stop, out + p.out, term)
  {
    ConvertStep(b, s, o, stop);
    var p := NextPiece(b, s, o);
    ConvertedOn(b, start, s, o, stop, out, term, p.used, p.out);
  }

  lemma ConvertedOn(b: seq<Byte>, start: nat, s: nat, o: Options, stop: Stop, out: seq<Byte>, term: nat, used: nat, text: seq<Byte>)
    requires Suits(stop, o) && Converted(b, start, s, o, stop, out, term)
    requires s + used <= StopAt(b, s, stop) == StopAt(b, s + used, stop)
    requires Convert(b, s, o, stop) == text + Convert(b, s + used, o, stop)
    ensures Converted(b, start, s + used, o, stop, out + text, term)
  {
    AppendAssociative(out, text, Convert(b, s + used, o, stop));
  }

  lemma ConvertedAll(b: seq<Byte>, start: nat, s: nat, o: Options, stop: Stop, out: seq<Byte>, term: nat)
    requires Suits(stop, o) && Converted(b, start, s, o, stop, out, term) && Ends(b, s, term) && (b[s] == 0 || EndsAt(b, s, stop))
    ensures s == StopAt(b, start, stop) <= term && out == Convert(b, start, o, stop)
  {
    assert out + [] == out;
  }

  /** Convert up to the delimiter or the terminator. */
  method ConvertText(a: array<Byte>, g: Gap, start: nat, o: Options, stop: Stop, ghost term: nat) returns (s: nat)
    requires !g.open && g.size == 0 && start <= a.Length && Ends(a[..], start, term) && Suits(stop, o)
    modifies a, g
    ensures s == StopAt(old(a[..]), start, stop) && s <= term
    ensures Held(a[..], old(a[..]), start, g, s, Convert(old(a[..]), start, o, stop))
  {
    assert a[..][start..start] == [];
    s := ConvertFrom(a, g, start, o, stop, a[..], start, term);
  }

  /** The same from a position on, behind which nothing has been written yet. */
  method ConvertFrom(a: array<Byte>, g: Gap, from: nat, o: Options, stop: Stop, ghost b: seq<Byte>, ghost start: nat, ghost term: nat) returns (s: nat)
    requires Held(a[..], b, start, g, from, []) && Ends(b, from, term) && Suits(stop, o)
    modifies a, g
    ensures s == StopAt(b, from, stop) && s <= term && Held(a[..], b, start, g, s, Convert(b, from, o, stop))
  {
    ghost var out := [];
    s := from;
    ConvertedNone(b, from, o, stop, term);
    var e := AtEnd(a, g, s, stop, b, start, out, term);
    while !e
      invariant Held(a[..], b, start, g, s, out) && Ends(b, s, term)
      invariant Converted(b, from, s, o, stop, out, term) && e == (b[s] == 0 || EndsAt(b, s, stop))
      decreases term - s, !e
    {
      ghost var p := NextPiece(b, s, o);
      ConvertedMore(b, from, s, o, stop, out, term);
      s := ConvertOne(a, g, s, o, b, start, out, term);
      out := out + p.out;
      e := AtEnd(a, g, s, stop, b, start, out, term);
    }
    ConvertedAll(b, from, s, o, stop, out, term);
  }

  /** The converted text stands at start, zero-terminated; before it and after the delimiter nothing has changed. */
  ghost predicate Settled(a: seq<Byte>, b: seq<Byte>, start: nat, j: nat, text: seq<Byte>) {
    && |a| == |b| && start + |text| <= j < |a|
    && a[start..start + |text|] == text && a[start + |text|] == 0
    && a[..start] == b[..start] && a[j + 1..] == b[j + 1..] && (a[j] == b[j] || a[j] == 0)
  }

  /** Close the gap, trim if asked to, and write the terminator. */
  method Settle(a: array<Byte>, g: Gap, s: nat, trim: bool, start: nat, ghost b: seq<Byte>, ghost out: seq<Byte>)
    requires Held(a[..], b, start, g, s, out) && s < a.Length
    modifies a
    ensures Settled(a[..], b, start, s, if trim then TrimEnd(out) else out)
  {
    var end := g.Flush(a, s, start);
    if trim {
      end := TrimBack(a, start, end);
    }
    Terminated(a[..], b, start, s, end);
    a[end] := 0;
  }

  lemma Terminated(c: seq<Byte>, b: seq<Byte>, start: nat, s: nat, end: nat)
    requires start <= end <= s < |c| == |b| && c[..start] == b[..start] && c[s..] == b[s..]
    ensures Settled(c[end := 0], b, start, s, c[start..end])
  {
    assert c[s + 1..] == c[s..][1..] && b[s + 1..] == b[s..][1..];
    assert c[s] == c[s..][0] && b[s] == b[s..][0];
  }

  method TrimBack(a: array<Byte>, start: nat, end0: nat) returns (end: nat)
    requires start <= end0 <= a.Length
    ensures start <= end <= end0 && a[..][start..end] == TrimEnd(a[..][start..end0])
  {
    end := end0;
    while end > start && IsSpace(a[end - 1])
      invariant start <= end <= end0 && TrimEnd(a[..][start..end]) == TrimEnd(a[..][start..end0])
    {
      assert a[..][start..end][..end - start - 1] == a[..][start..end - 1];
      end := end - 1;
    }
  }

  /** Character data: up to the next tag, or to the end of the buffer. */
  method StrconvPcdata(a: array<Byte>, start: nat, trim: bool, eol: bool, escape: bool, ghost term: nat) returns (next: nat)
    requires start <= a.Length && Ends(a[..], start, term)
    modifies a
    ensures var b, j := old(a[..]), StopAt(old(a[..]), start, StopChar(LT));
      var out := Convert(b, start, Options(escape, eol, Kept), StopChar(LT));
      && j < |b| && Settled(a[..], b, start, j, if trim then TrimEnd(out) else out)
      && next == if b[j] == LT then j + 1 else j
  {
    ghost var b := a[..];
    var g := new Gap();
    var s := ConvertText(a, g, start, Options(escape, eol, Kept), StopChar(LT), term);
    HeldOn(a[..], b, start, g, s, Convert(b, start, Options(escape, eol, Kept), StopChar(LT)), 0);
    var c := a[s];
    Settle(a, g, s, trim, start, b, Convert(b, start, Options(escape, eol, Kept), StopChar(LT)));
    next := if c == LT then s + 1 else s;
  }

  /** An attribute value: up to the quote it began with. It is an error if there is none. */
  method StrconvAttribute(a: array<Byte>, start: nat, quote: Byte, o: Options, ghost term: nat) returns (ok: bool, next: nat)
    requires start <= a.Length && Ends(a[..], start, term) && quote in {QUOT, APOS}
    modifies a
    ensures var b, j := old(a[..]), StopAt(old(a[..]), start, StopChar(quote));
      && j < |b| && ok == (b[j] == quote)
      && (ok ==> next == j + 1 && Settled(a[..], b, start, j, Convert(b, start, o, StopChar(quote))))
  {
    ghost var b := a[..];
    var g := new Gap();
    var s := ConvertText(a, g, start, o, StopChar(quote), term);
    HeldOn(a[..], b, start, g, s, Convert(b, start, o, StopChar(quote)), 0);
    if a[s] == 0 {
      return false, 0;
    }
    Settle(a, g, s, false, start, b, Convert(b, start, o, StopChar(quote)));
    ok, next := true, s + 1;
  }

  /** What an attribute value is normalised to: white space at its ends goes, each run of it inside becomes one space. */
  function Normalized(b: seq<Byte>, start: nat, escape: bool, quote: Byte): seq<Byte>
    requires start <= |b| && quote in {QUOT, APOS}
  {
    TrimEnd(Convert(b, start + SpaceRun(b, start), Options(escape, true, EachRun), StopChar(quote)))
  }

  /** A normalised attribute value. The character before it is not white space: it is the quote. */
  method StrconvNormalized(a: array<Byte>, start: nat, quote: Byte, escape: bool, ghost term: nat) returns (ok: bool, next: nat)
    requires 0 < start <= a.Length && !IsSpace(a[start - 1]) && Ends(a[..], start, term) && quote in {QUOT, APOS}
    modifies a
    ensures var b, j := old(a[..]), StopAt(old(a[..]), start, StopChar(quote));
      && j < |b| && ok == (b[j] == quote)
      && (ok ==> next == j + 1 && Settled(a[..], b, start, j, Normalized(b, start, escape, quote)))
  {
    ghost var b, out := a[..], Convert(a[..], start + SpaceRun(a[..], start), Options(escape, true, EachRun), StopChar(quote));
    var g := new Gap();
    SpacesBefore(b, start, StopChar(quote), term);
    var s := SkipLeading(a, g, start, b, term);
    s := ConvertFrom(a, g, s, Options(escape, true, EachRun), StopChar(quote), b, start, term);
    HeldOn(a[..], b, start, g, s, out, 0);
    if a[s] == 0 {
      return false, 0;
    }
    SettleTrimmed(a, g, s, start, b, out);
    ok, next := true, s + 1;
  }

  /** White space at the start becomes part of the gap. */
  method SkipLeading(a: array<Byte>, g: Gap, start: nat, ghost b: seq<Byte>, ghost term: nat) returns (s: nat)
    requires !g.open && g.size == 0 && start <= a.Length && a[..] == b && Ends(b, start, term)
    modifies a, g
    ensures s == start + SpaceRun(b, start) && Held(a[..], b, start, g, s, [])
  {
    s := start;
    assert b[start..start] == [];
    if IsSpace(a[s]) {
      var end := RunEnd(a, s, b, term);
      s := Skip(a, b, g, s, end - s, start, []);
    }
  }

  /** White space does not end a value. */
  lemma SpacesBefore(b: seq<Byte>, start: nat, stop: Stop, term: nat)
    requires Ends(b, start, term) && stop.StopChar? && stop.c in {QUOT, APOS}
    ensures StopAt(b, start + SpaceRun(b, start), stop) == StopAt(b, start, stop) && Ends(b, start + SpaceRun(b, start), term)
  {
    SpacesClear(b, start, stop);
    StopLater(b, start, start + SpaceRun(b, start), stop);
    StopFirst(b, start, term, stop);
  }

  lemma {:induction false} SpacesClear(b: seq<Byte>, i: nat, stop: Stop)
    requires i <= |b| && stop.StopChar? && stop.c in {QUOT, APOS}
    ensures i + SpaceRun(b, i) <= StopAt(b, i, stop)
    decreases |b| - i
  {
    if i < |b| && IsSpace(b[i]) {
      SpacesClear(b, i + 1, stop);
    }
  }

  /** Close the gap and write zeros from the end back over the white space before it. */
  method SettleTrimmed(a: array<Byte>, g: Gap, s: nat, start: nat, ghost b: seq<Byte>, ghost out: seq<Byte>)
    requires Held(a[..], b, start, g, s, out) && s < a.Length && 0 < start && !IsSpace(b[start - 1])
    modifies a
    ensures Settled(a[..], b, start, s, TrimEnd(out))
  {
    var end := g.Flush(a, s, start);
    ghost var c := a[..];
    assert c[start - 1] == c[..start][start - 1] == b[..start][start - 1];
    Terminated(c, b, start, s, end);
    a[end] := 0;
    while IsSpace(a[end - 1])
      invariant start <= end <= s && a[end] == 0 && a[start - 1] == c[start - 1] && a[..end] == c[..end]
      invariant TrimEnd(c[start..end]) == TrimEnd(out)
      invariant a[..start] == b[..start] && a[s + 1..] == b[s + 1..] && (a[s] == b[s] || a[s] == 0)
      decreases end
    {
      assert a[end - 1] == a[..end][end - 1] == c[end - 1];
      assert c[start..end][..end - start - 1] == c[start..end - 1];
      end := end - 1;
      a[end] := 0;
    }
    assert a[start..end] == c[start..end] by {
      assert a[start..end] == a[..end][start..] && c[start..end] == c[..end][start..];
    }
    assert end > start ==> c[start..end][end - start - 1] == c[end - 1] == a[..end][end - 1];
  }

  /** A comment or a CDATA section: up to its three closing characters. */
  method StrconvSection(a: array<Byte>, start: nat, stop: Stop, ghost term: nat) returns (ok: bool, next: nat)
    requires start <= a.Length && Ends(a[..], start, term) && !stop.StopChar?
    modifies a
    ensures var b, j := old(a[..]), StopAt(old(a[..]), start, stop);
      && j < |b| && ok == (b[j] != 0)
      && (ok ==> next == (if stop == StopComment then j + 3 else j + 1)
                 && Settled(a[..], b, start, j, Convert(b, start, Options(false, true, Kept), stop)))
  {
    ghost var b := a[..];
    var g := new Gap();
    var o := Options(false, true, Kept);
    var s := ConvertText(a, g, start, o, stop, term);
    HeldOn(a[..], b, start, g, s, Convert(b, start, o, stop), 0);
    if a[s] == 0 {
      return false, 0;
    }
    Settle(a, g, s, false, start, b, Convert(b, start, o, stop));
    ok, next := true, if stop == StopComment then s + 3 else s + 1;
  }
}
