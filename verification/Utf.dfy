/** Transcoding between UTF-8 and UTF-16: decoders that tolerate anything, and writers and counters that agree. */
module Utf {
  import opened Sequences


  type Byte = x: int | 0 <= x < 256

  type Word = x: int | 0 <= x < 65536

  /** What a decoder reports: a code below or above U+FFFF. */
  datatype Code = Low(c: nat) | High(c: nat)

  // Decoding UTF-8, section 3 of RFC 3629.

  predicate IsTail(b: Byte) {
    128 <= b < 192
  }

  /** Bits of a tail byte. */
  function Tail(b: Byte): nat {
    b % 64
  }

  /** One step: how many bytes are used and what they stand for, if anything. */
  datatype Piece = Piece(used: nat, codes: seq<Code>)

  function PieceUtf8(s: seq<Byte>): (p: Piece)
    requires s != []
    ensures 1 <= p.used <= |s|
  {
    var lead := s[0];
    if lead < 128 then Piece(1, [Low(lead)])
    else if 192 <= lead < 224 && |s| >= 2 && IsTail(s[1]) then Piece(2, [Low((lead - 192) * 64 + Tail(s[1]))])
    else if 224 <= lead < 240 && |s| >= 3 && IsTail(s[1]) && IsTail(s[2]) then
      Piece(3, [Low((lead - 224) * 4096 + Tail(s[1]) * 64 + Tail(s[2]))])
    else if 240 <= lead < 248 && |s| >= 4 && IsTail(s[1]) && IsTail(s[2]) && IsTail(s[3]) then
      Piece(4, [High((lead - 240) * 262144 + Tail(s[1]) * 4096 + Tail(s[2]) * 64 + Tail(s[3]))])
    else Piece(1, [])
  }

  /** All codes of s; bytes that fit nowhere are skipped. */
  function DecodeUtf8(s: seq<Byte>): seq<Code>
    decreases |s|
  {
    if s == [] then [] else
      var p := PieceUtf8(s);
      p.codes + DecodeUtf8(s[p.used..])
  }

  /** Codes are handed to a writer or a counter one by one. */
  function Fold<A>(codes: seq<Code>, low: (A, nat) -> A, high: (A, nat) -> A, r: A): A {
    if codes == [] then r
    else Fold(codes[1..], low, high, if codes[0].Low? then low(r, codes[0].c) else high(r, codes[0].c))
  }

  lemma {:induction false} FoldAppend<A>(a: seq<Code>, b: seq<Code>, low: (A, nat) -> A, high: (A, nat) -> A, r: A)
    ensures Fold(a + b, low, high, r) == Fold(b, low, high, Fold(a, low, high, r))
  {
    if a == [] {
      assert a + b == b;
    } else {
      assert (a + b)[0] == a[0] && (a + b)[1..] == a[1..] + b;
      FoldAppend(a[1..], b, low, high, if a[0].Low? then low(r, a[0].c) else high(r, a[0].c));
    }
  }

  /** Decoding from position i on, folded. */
  function FoldUtf8<A>(s: seq<Byte>, i: nat, low: (A, nat) -> A, high: (A, nat) -> A, r: A): A
    requires i <= |s|
  {
    Fold(DecodeUtf8(s[i..]), low, high, r)
  }

  lemma FoldPiece<A>(s: seq<Byte>, i: nat, low: (A, nat) -> A, high: (A, nat) -> A, r: A)
    requires i < |s|
    ensures i + PieceUtf8(s[i..]).used <= |s|
    ensures FoldUtf8(s, i, low, high, r) == FoldUtf8(s, i + PieceUtf8(s[i..]).used, low, high, Fold(PieceUtf8(s[i..]).codes, low, high, r))
  {
    var p := PieceUtf8(s[i..]);
    assert s[i..][p.used..] == s[i + p.used..];
    FoldAppend(p.codes, DecodeUtf8(s[i + p.used..]), low, high, r);
  }

  lemma FoldOne<A>(low: (A, nat) -> A, high: (A, nat) -> A, r: A, c: nat)
    ensures Fold([Low(c)], low, high, r) == low(r, c)
    ensures Fold([High(c)], low, high, r) == high(r, c)
    ensures Fold([], low, high, r) == r
  {
    assert [Low(c)][1..] == [] && [High(c)][1..] == [];
  }

  lemma FoldAscii<A>(s: seq<Byte>, i: nat, low: (A, nat) -> A, high: (A, nat) -> A, r: A)
    requires i < |s| && s[i] < 128
    ensures FoldUtf8(s, i, low, high, r) == FoldUtf8(s, i + 1, low, high, low(r, s[i]))
  {
    FoldPiece(s, i, low, high, r);
    FoldOne(low, high, r, s[i]);
  }

  function Code2(s: seq<Byte>, i: nat): nat
    requires i + 2 <= |s| && 192 <= s[i]
  {
    (s[i] - 192) * 64 + Tail(s[i + 1])
  }

  function Code3(s: seq<Byte>, i: nat): nat
    requires i + 3 <= |s| && 224 <= s[i]
  {
    (s[i] - 224) * 4096 + Tail(s[i + 1]) * 64 + Tail(s[i + 2])
  }

  function Code4(s: seq<Byte>, i: nat): nat
    requires i + 4 <= |s| && 240 <= s[i]
  {
    (s[i] - 240) * 262144 + Tail(s[i + 1]) * 4096 + Tail(s[i + 2]) * 64 + Tail(s[i + 3])
  }

  lemma FoldMore<A>(s: seq<Byte>, i: nat, low: (A, nat) -> A, high: (A, nat) -> A, r: A)
    requires i < |s| && s[i] >= 128
    ensures var p := PieceUtf8(s[i..]);
      FoldUtf8(s, i, low, high, r) ==
        if p.used == 1 then FoldUtf8(s, i + 1, low, high, r)
        else if p.used == 2 then FoldUtf8(s, i + 2, low, high, low(r, Code2(s, i)))
        else if p.used == 3 then FoldUtf8(s, i + 3, low, high, low(r, Code3(s, i)))
        else FoldUtf8(s, i + 4, low, high, high(r, Code4(s, i)))
  {
    var p := PieceUtf8(s[i..]);
    FoldPiece(s, i, low, high, r);
    if p.used == 1 {
      FoldOne(low, high, r, 0);
    } else {
      FoldOne(low, high, r, p.codes[0].c);
    }
  }

  /**
   * The decoding loop. Runs of four ASCII bytes at aligned addresses take a fast path;
   * wherever the data starts, the result is that of the plain decoder.
   */
  method DecodeUtf8Block<A>(s: seq<Byte>, address: nat, low: (A, nat) -> A, high: (A, nat) -> A, init: A) returns (r: A)
    ensures r == Fold(DecodeUtf8(s), low, high, init)
  {
    r := init;
    var i := 0;
    assert s[0..] == s;
    while i < |s|
      invariant i <= |s| && FoldUtf8(s, i, low, high, r) == FoldUtf8(s, 0, low, high, init)
      decreases |s| - i
    {
      var lead, size := s[i], |s| - i;
      if lead >= 128 {
        FoldMore(s, i, low, high, r);
      }
      if lead < 128 {
        FoldAscii(s, i, low, high, r);
        r := low(r, lead);
        i := i + 1;
        if (address + i) % 4 == 0 {
          i, r := AsciiRun(s, i, low, high, r);
        }
      } else if 192 <= lead < 224 && size >= 2 && IsTail(s[i + 1]) {
        r := low(r, Code2(s, i));
        i := i + 2;
      } else if 224 <= lead < 240 && size >= 3 && IsTail(s[i + 1]) && IsTail(s[i + 2]) {
        r := low(r, Code3(s, i));
        i := i + 3;
      } else if 240 <= lead < 248 && size >= 4 && IsTail(s[i + 1]) && IsTail(s[i + 2]) && IsTail(s[i + 3]) {
        r := high(r, Code4(s, i));
        i := i + 4;
      } else {
        i := i + 1;
      }
    }
    assert s[i..] == [];
  }

  /** Four ASCII bytes at a time. */
  method AsciiRun<A>(s: seq<Byte>, from: nat, low: (A, nat) -> A, ghost high: (A, nat) -> A, init: A) returns (i: nat, r: A)
    requires from <= |s|
    ensures from <= i <= |s| && FoldUtf8(s, i, low, high, r) == FoldUtf8(s, from, low, high, init)
  {
    i, r := from, init;
    while |s| - i >= 4 && s[i] < 128 && s[i + 1] < 128 && s[i + 2] < 128 && s[i + 3] < 128
      invariant from <= i <= |s| && FoldUtf8(s, i, low, high, r) == FoldUtf8(s, from, low, high, init)
      decreases |s| - i
    {
      FoldAscii(s, i, low, high, r);
      r := low(r, s[i]);
      FoldAscii(s, i + 1, low, high, r);
      r := low(r, s[i + 1]);
      FoldAscii(s, i + 2, low, high, r);
      r := low(r, s[i + 2]);
      FoldAscii(s, i + 3, low, high, r);
      r := low(r, s[i + 3]);
      i := i + 4;
    }
  }

  // Decoding UTF-16, section 2 of RFC 2781.

  /** The code of a surrogate pair: ten bits of each half. */
  function FromPair(lead: int, next: int): nat {
    0x10000 + lead % 1024 * 1024 + next % 1024
  }

  function PieceUtf16(s: seq<Word>): (p: Piece)
    requires s != []
    ensures 1 <= p.used <= |s|
  {
    var lead := s[0];
    if lead < 0xD800 || lead >= 0xE000 then Piece(1, [Low(lead)])
    else if lead < 0xDC00 && |s| >= 2 && 0xDC00 <= s[1] < 0xE000 then
      Piece(2, [High(FromPair(lead, s[1]))])
    else Piece(1, [])
  }

  function DecodeUtf16(s: seq<Word>): seq<Code>
    decreases |s|
  {
    if s == [] then [] else
      var p := PieceUtf16(s);
      p.codes + DecodeUtf16(s[p.used..])
  }

  method DecodeUtf16Block<A>(s: seq<Word>, low: (A, nat) -> A, high: (A, nat) -> A, init: A) returns (r: A)
    ensures r == Fold(DecodeUtf16(s), low, high, init)
  {
    r := init;
    var i := 0;
    assert s[0..] == s;
    while i < |s|
      invariant i <= |s| && Fold(DecodeUtf16(s[i..]), low, high, r) == Fold(DecodeUtf16(s), low, high, init)
      decreases |s| - i
    {
      var lead := s[i];
      var p := PieceUtf16(s[i..]);
      assert s[i..][p.used..] == s[i + p.used..];
      FoldAppend(p.codes, DecodeUtf16(s[i + p.used..]), low, high, r);
      if lead < 0xD800 {
        FoldOne(low, high, r, lead);
        r := low(r, lead);
        i := i + 1;
      } else if lead >= 0xE000 {
        FoldOne(low, high, r, lead);
        r := low(r, lead);
        i := i + 1;
      } else if lead < 0xDC00 && i + 1 < |s| {
        var next := s[i + 1];
        if 0xDC00 <= next < 0xE000 {
          var c := FromPair(lead, next);
          FoldOne(low, high, r, c);
          r := high(r, c);
          i := i + 2;
        } else {
          FoldOne(low, high, r, 0);
          i := i + 1;
        }
      } else {
        FoldOne(low, high, r, 0);
        i := i + 1;
      }
    }
    assert s[i..] == [];
  }

  // Writers and counters.

  function ByteOf(n: nat): Byte {
    n % 256
  }

  function Utf8Low(r: seq<Byte>, c: nat): seq<Byte> {
    if c < 0x80 then r + [ByteOf(c)]
    else if c < 0x800 then r + [192 + c / 64, 128 + c % 64]
    else r + [224 + c / 4096 % 16, 128 + c / 64 % 64, 128 + c % 64]
  }

  /** Only the low bits of the first byte vary: it is or-ed with 11110000. */
  function Utf8High(r: seq<Byte>, c: nat): seq<Byte> {
    r + [240 + c / 262144 % 16, 128 + c / 4096 % 64, 128 + c / 64 % 64, 128 + c % 64]
  }

  function Utf8Any(c: nat): seq<Byte> {
    if c < 0x10000 then Utf8Low([], c) else Utf8High([], c)
  }

  function Utf8LowSize(r: nat, c: nat): nat {
    if c < 0x80 then r + 1 else if c < 0x800 then r + 2 else r + 3
  }

  function Utf8HighSize(r: nat, c: nat): nat {
    r + 4
  }

  function Utf16Low(r: seq<Word>, c: nat): seq<Word> {
    r + [c % 65536]
  }

  function Utf16High(r: seq<Word>, c: nat): seq<Word> {
    var d := if c >= 0x10000 then c - 0x10000 else 0;
    r + [(0xD800 + d / 1024) % 65536, 0xDC00 + d % 1024]
  }

  function Utf16LowSize(r: nat, c: nat): nat {
    r + 1
  }

  function Utf16HighSize(r: nat, c: nat): nat {
    r + 2
  }

  function WriteUtf8(codes: seq<Code>): seq<Byte> {
    Fold(codes, Utf8Low, Utf8High, [])
  }

  function WriteUtf16(codes: seq<Code>): seq<Word> {
    Fold(codes, Utf16Low, Utf16High, [])
  }

  /** Writing grows the output by exactly what the counter counts, whatever is decoded. */
  lemma {:induction false} CountUtf8(codes: seq<Code>, r: seq<Byte>, n: nat)
    requires n == |r|
    ensures |Fold(codes, Utf8Low, Utf8High, r)| == Fold(codes, Utf8LowSize, Utf8HighSize, n)
  {
    if codes != [] {
      var c := codes[0];
      if c.Low? {
        CountUtf8(codes[1..], Utf8Low(r, c.c), Utf8LowSize(n, c.c));
      } else {
        CountUtf8(codes[1..], Utf8High(r, c.c), Utf8HighSize(n, c.c));
      }
    }
  }

  lemma {:induction false} CountUtf16(codes: seq<Code>, r: seq<Word>, n: nat)
    requires n == |r|
    ensures |Fold(codes, Utf16Low, Utf16High, r)| == Fold(codes, Utf16LowSize, Utf16HighSize, n)
  {
    if codes != [] {
      var c := codes[0];
      if c.Low? {
        CountUtf16(codes[1..], Utf16Low(r, c.c), Utf16LowSize(n, c.c));
      } else {
        CountUtf16(codes[1..], Utf16High(r, c.c), Utf16HighSize(n, c.c));
      }
    }
  }

  /** Count, allocate exactly that much, write: the buffer is filled to the last byte. */
  method ConvertUtf16ToUtf8(s: seq<Word>) returns (a: array<Byte>)
    ensures fresh(a) && a[..] == WriteUtf8(DecodeUtf16(s))
  {
    var length := DecodeUtf16Block(s, Utf8LowSize, Utf8HighSize, 0);
    var out := DecodeUtf16Block(s, Utf8Low, Utf8High, []);
    CountUtf8(DecodeUtf16(s), [], 0);
    a := new Byte[length](i requires 0 <= i < |out| => out[i]);
  }

  /** The other direction, to two-byte characters; the data may start at any address. */
  method AsWide(s: seq<Byte>, address: nat) returns (a: array<Word>)
    ensures fresh(a) && a[..] == WriteUtf16(DecodeUtf8(s))
  {
    var length := DecodeUtf8Block(s, address, Utf16LowSize, Utf16HighSize, 0);
    var out := DecodeUtf8Block(s, address, Utf16Low, Utf16High, []);
    CountUtf16(DecodeUtf8(s), [], 0);
    a := new Word[length](i requires 0 <= i < |out| => out[i]);
  }

  // Round trip.

  predicate IsScalar(c: Code) {
    match c
    case Low(n) => n < 0xD800 || 0xE000 <= n < 0x10000
    case High(n) => 0x10000 <= n < 0x110000
  }

  /** One code written in UTF-8. */
  function Unit8(c: Code): seq<Byte> {
    if c.Low? then Utf8Low([], c.c) else Utf8High([], c.c)
  }

  function Unit16(c: Code): seq<Word> {
    if c.Low? then Utf16Low([], c.c) else Utf16High([], c.c)
  }

  /** A writer only appends. */
  ghost predicate Appends<T(!new)>(write: (seq<T>, nat) -> seq<T>) {
    forall r, c :: write(r, c) == r + write([], c)
  }

  /** What is written does not depend on what has been written before. */
  lemma {:induction false} WriteFrom<T(!new)>(codes: seq<Code>, low: (seq<T>, nat) -> seq<T>, high: (seq<T>, nat) -> seq<T>, r: seq<T>)
    requires Appends(low) && Appends(high)
    ensures Fold(codes, low, high, r) == r + Fold(codes, low, high, [])
  {
    if codes == [] {
      assert r + [] == r;
    } else {
      var c, rest := codes[0], codes[1..];
      var u := if c.Low? then low([], c.c) else high([], c.c);
      assert Fold(codes, low, high, r) == Fold(rest, low, high, r + u);
      assert Fold(codes, low, high, []) == Fold(rest, low, high, u);
      WriteFrom(rest, low, high, r + u);
      WriteFrom(rest, low, high, u);
      AppendAssociative(r, u, Fold(rest, low, high, []));
    }
  }

  lemma WriteUtf8From(codes: seq<Code>, r: seq<Byte>)
    ensures Fold(codes, Utf8Low, Utf8High, r) == r + WriteUtf8(codes)
  {
    assert Appends(Utf8Low) && Appends(Utf8High);
    WriteFrom(codes, Utf8Low, Utf8High, r);
  }

  lemma WriteUtf16From(codes: seq<Code>, r: seq<Word>)
    ensures Fold(codes, Utf16Low, Utf16High, r) == r + WriteUtf16(codes)
  {
    assert Appends(Utf16Low) && Appends(Utf16High);
    WriteFrom(codes, Utf16Low, Utf16High, r);
  }

  /** A written code is read back as a unit. */
  lemma UnitBack(c: Code, rest: seq<Byte>)
    requires IsScalar(c)
    ensures Unit8(c) != [] && PieceUtf8(Unit8(c) + rest) == Piece(|Unit8(c)|, [c])
  {
    if c.High? {
      HighBack(c.c, rest);
    } else if c.c >= 0x800 {
      WideBack(c.c, rest);
    }
  }

  lemma WideBack(n: nat, rest: seq<Byte>)
    requires 0x800 <= n < 0x10000
    ensures PieceUtf8(Utf8Low([], n) + rest) == Piece(3, [Low(n)])
  {
    Digits(n);
    var s := Utf8Low([], n) + rest;
    assert s[0] == 224 + n / 4096 && s[1] == 128 + n / 64 % 64 && s[2] == 128 + n % 64;
  }

  lemma HighBack(n: nat, rest: seq<Byte>)
    requires 0x10000 <= n < 0x110000
    ensures PieceUtf8(Utf8High([], n) + rest) == Piece(4, [High(n)])
  {
    Digits(n);
    var s := Utf8High([], n) + rest;
    assert s[0] == 240 + n / 262144 && s[1] == 128 + n / 4096 % 64 && s[2] == 128 + n / 64 % 64 && s[3] == 128 + n % 64;
  }

  /** A number is the sum of its parts. */
  lemma Digits(n: nat)
    requires n < 0x200000
    ensures n == n / 262144 * 262144 + n / 4096 % 64 * 4096 + n / 64 % 64 * 64 + n % 64
    ensures n < 65536 ==> n == n / 4096 * 4096 + n / 64 % 64 * 64 + n % 64 && n / 4096 < 16
    ensures n / 262144 < 8
  {
    var a, b := n / 64, n / 4096;
    assert b == a / 64 && n / 262144 == b / 64;
  }

  lemma {:induction false} Utf8Back(codes: seq<Code>)
    requires forall i | 0 <= i < |codes| :: IsScalar(codes[i])
    ensures DecodeUtf8(WriteUtf8(codes)) == codes
  {
    if codes != [] {
      var u, rest := Unit8(codes[0]), WriteUtf8(codes[1..]);
      assert [] + u == u;
      WriteUtf8From(codes[1..], u);
      UnitBack(codes[0], rest);
      assert (u + rest)[|u|..] == rest;
      Utf8Back(codes[1..]);
      assert codes == [codes[0]] + codes[1..];
    }
  }

  /** Every surrogate is half of a pair. */
  predicate WellFormed16(s: seq<Word>)
    decreases |s|
  {
    s != [] ==> PieceUtf16(s).codes != [] && WellFormed16(s[PieceUtf16(s).used..])
  }

  /** The units of a piece are written again. */
  lemma Unit16Back(s: seq<Word>)
    requires s != [] && PieceUtf16(s).codes != []
    ensures var p := PieceUtf16(s); IsScalar(p.codes[0]) && Unit16(p.codes[0]) == s[..p.used] && p.codes == [p.codes[0]]
  {
    var lead := s[0];
    if 0xD800 <= lead < 0xE000 {
      PairDigits(lead, s[1]);
    }
  }

  lemma PairDigits(lead: int, next: int)
    requires 0xD800 <= lead < 0xDC00 && 0xDC00 <= next < 0xE000
    ensures var d := FromPair(lead, next) - 0x10000; 0 <= d < 0x100000 && 0xD800 + d / 1024 == lead && 0xDC00 + d % 1024 == next
  {
  }

  lemma {:induction false} Utf16Codes(s: seq<Word>)
    requires WellFormed16(s)
    ensures forall i | 0 <= i < |DecodeUtf16(s)| :: IsScalar(DecodeUtf16(s)[i])
    ensures WriteUtf16(DecodeUtf16(s)) == s
    decreases |s|
  {
    if s != [] {
      var p := PieceUtf16(s);
      var c, rest := p.codes[0], s[p.used..];
      Utf16Codes(rest);
      assert DecodeUtf16(s) == [c] + DecodeUtf16(rest);
      assert ([c] + DecodeUtf16(rest))[1..] == DecodeUtf16(rest);
      WriteUtf16From(DecodeUtf16(rest), Unit16(c));
      Unit16Back(s);
      assert s == s[..p.used] + rest;
    }
  }

  /** From UTF-16 to UTF-8 and back is the identity on well-formed text. */
  lemma Utf16RoundTrip(s: seq<Word>)
    requires WellFormed16(s)
    ensures WriteUtf16(DecodeUtf8(WriteUtf8(DecodeUtf16(s)))) == s
  {
    Utf16Codes(s);
    Utf8Back(DecodeUtf16(s));
  }
}
