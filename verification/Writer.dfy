/** The buffered writer: nothing is lost or reordered, and converting in chunks equals converting the whole. */
module Writer {
  import opened Sequences
  import opened Utf

  datatype Encoding = Native | Utf16(big: bool) | Utf32(big: bool) | Latin1

  // Output formats.

  function Bytes2(n: nat, big: bool): seq<Byte> {
    if big then [ByteOf(n / 256), ByteOf(n)] else [ByteOf(n), ByteOf(n / 256)]
  }

  function Bytes4(n: nat, big: bool): seq<Byte> {
    if big then [ByteOf(n / 0x1000000), ByteOf(n / 0x10000), ByteOf(n / 256), ByteOf(n)]
    else [ByteOf(n), ByteOf(n / 256), ByteOf(n / 0x10000), ByteOf(n / 0x1000000)]
  }

  /** One code in the output encoding. */
  function Encoded(e: Encoding, c: Code): seq<Byte> {
    match e
    case Native => Unit8(c)
    case Utf16(big) =>
      if c.Low? then Bytes2(c.c, big) else
        var d := if c.c >= 0x10000 then c.c - 0x10000 else 0;
        Bytes2(0xD800 + d / 1024, big) + Bytes2(0xDC00 + d % 1024, big)
    case Utf32(big) => Bytes4(c.c, big)
    case Latin1 => if c.Low? && c.c <= 255 then [c.c] else [63]
  }

  function LowOut(e: Encoding): (seq<Byte>, nat) -> seq<Byte> {
    (r, c) => r + Encoded(e, Low(c))
  }

  function HighOut(e: Encoding): (seq<Byte>, nat) -> seq<Byte> {
    (r, c) => r + Encoded(e, High(c))
  }

  function EncodeAll(e: Encoding, codes: seq<Code>): seq<Byte> {
    if codes == [] then [] else Encoded(e, codes[0]) + EncodeAll(e, codes[1..])
  }

  lemma {:induction false} EncodeAppend(e: Encoding, a: seq<Code>, b: seq<Code>)
    ensures EncodeAll(e, a + b) == EncodeAll(e, a) + EncodeAll(e, b)
  {
    if a == [] {
      assert a + b == b;
    } else {
      assert (a + b)[1..] == a[1..] + b;
      EncodeAppend(e, a[1..], b);
      AppendAssociative(Encoded(e, a[0]), EncodeAll(e, a[1..]), EncodeAll(e, b));
    }
  }

  lemma {:induction false} EncodeFold(e: Encoding, codes: seq<Code>, r: seq<Byte>)
    ensures Fold(codes, LowOut(e), HighOut(e), r) == r + EncodeAll(e, codes)
  {
    if codes == [] {
      assert r + [] == r;
    } else {
      EncodeFold(e, codes[1..], r + Encoded(e, codes[0]));
      AppendAssociative(r, Encoded(e, codes[0]), EncodeAll(e, codes[1..]));
    }
  }

  /** The text as it is to arrive. */
  function Converted(e: Encoding, s: seq<Byte>): seq<Byte> {
    if e.Native? then s else EncodeAll(e, DecodeUtf8(s))
  }

  // Where text may be cut.

  /** Whole sequences only. */
  predicate Whole(s: seq<Byte>)
    decreases |s|
  {
    s != [] ==> PieceUtf8(s).codes != [] && Whole(s[PieceUtf8(s).used..])
  }

  lemma {:induction false} PiecePrefix(s: seq<Byte>, k: nat)
    requires s != [] && PieceUtf8(s).codes != [] && PieceUtf8(s).used <= k <= |s|
    ensures PieceUtf8(s[..k]) == PieceUtf8(s)
  {
  }

  /** Text cut before a byte that begins a sequence falls into two whole texts. */
  lemma {:induction false} WholeCut(s: seq<Byte>, k: nat)
    requires Whole(s) && k <= |s| && (k < |s| ==> !IsTail(s[k]))
    ensures Whole(s[..k]) && Whole(s[k..]) && DecodeUtf8(s) == DecodeUtf8(s[..k]) + DecodeUtf8(s[k..])
    decreases |s|
  {
    if k == 0 {
      assert s[0..] == s;
    } else if k == |s| {
      assert s[..k] == s && s[k..] == [];
    } else {
      var n := PieceUtf8(s).used;
      assert n <= k;
      PiecePrefix(s, k);
      WholeCut(s[n..], k - n);
      assert s[..k][n..] == s[n..][..k - n] && s[k..] == s[n..][k - n..];
      AppendAssociative(PieceUtf8(s).codes, DecodeUtf8(s[n..][..k - n]), DecodeUtf8(s[k..]));
    }
  }

  /** Whole texts can be put together. */
  lemma {:induction false} WholeAppend(a: seq<Byte>, b: seq<Byte>)
    requires Whole(a) && Whole(b)
    ensures Whole(a + b) && DecodeUtf8(a + b) == DecodeUtf8(a) + DecodeUtf8(b)
    decreases |a|
  {
    if a == [] {
      assert a + b == b;
    } else {
      var n := PieceUtf8(a).used;
      PiecePrefixBack(a, b);
      assert (a + b)[n..] == a[n..] + b;
      WholeAppend(a[n..], b);
      AppendAssociative(PieceUtf8(a).codes, DecodeUtf8(a[n..]), DecodeUtf8(b));
    }
  }

  lemma PiecePrefixBack(a: seq<Byte>, b: seq<Byte>)
    requires a != [] && PieceUtf8(a).codes != []
    ensures PieceUtf8(a + b) == PieceUtf8(a)
  {
  }

  lemma ConvertedAppend(e: Encoding, a: seq<Byte>, b: seq<Byte>)
    requires e.Native? || (Whole(a) && Whole(b))
    ensures Converted(e, a + b) == Converted(e, a) + Converted(e, b)
  {
    if !e.Native? {
      WholeAppend(a, b);
      EncodeAppend(e, DecodeUtf8(a), DecodeUtf8(b));
    }
  }

  /** A chunk of n bytes never takes more than four times as many. */
  lemma {:induction false} Expansion(e: Encoding, s: seq<Byte>)
    requires !e.Native?
    ensures |Converted(e, s)| <= 4 * |s|
    decreases |s|
  {
    if s != [] {
      var p := PieceUtf8(s);
      Expansion(e, s[p.used..]);
      EncodeAppend(e, p.codes, DecodeUtf8(s[p.used..]));
      if p.codes != [] {
        assert p.codes == [p.codes[0]] && EncodeAll(e, p.codes[1..]) == [];
        assert EncodeAll(e, p.codes) == Encoded(e, p.codes[0]) + [];
      }
    }
  }

  /** How much of the data can be taken so that no sequence is split. */
  method GetValidLength(data: seq<Byte>, length: nat) returns (n: nat)
    requires length <= |data|
    ensures n <= length && (length < 5 <==> n == 0)
    ensures length >= 5 && n < length ==> !IsTail(data[n]) && length - n <= 4
    ensures length >= 5 && n == length ==> forall j | length - 4 <= j < length :: IsTail(data[j])
  {
    if length < 5 {
      return 0;
    }
    for i := 1 to 5
      invariant forall j | length - i < j < length :: IsTail(data[j])
    {
      if !IsTail(data[length - i]) {
        return length - i;
      }
    }
    n := length;
  }

  /** In whole text, four bytes in a row are never all tails. */
  lemma {:induction false} NotFourTails(s: seq<Byte>, k: nat)
    requires Whole(s) && 4 <= k <= |s|
    ensures exists j :: k - 4 <= j < k && !IsTail(s[j])
    decreases |s|
  {
    var n := PieceUtf8(s).used;
    if k <= n {
      assert !IsTail(s[0]);
    } else if k - n < 4 {
      assert s[n..][0] == s[n];
      assert PieceUtf8(s[n..]).codes != [];
      assert !IsTail(s[n]);
    } else {
      NotFourTails(s[n..], k - n);
      var j :| k - n - 4 <= j < k - n && !IsTail(s[n..][j]);
      assert s[n..][j] == s[n + j];
    }
  }

  // The writer.

  class BufferedWriter {
    const buffer: array<Byte>
    const encoding: Encoding
    var bufsize: nat
    var sink: seq<Byte>
    ghost var done: seq<Byte>

    ghost predicate Valid()
      reads this, buffer
    {
      && buffer.Length >= 8 && bufsize <= buffer.Length
      && sink == Converted(encoding, done)
      && (!encoding.Native? ==> Whole(done) && Whole(buffer[..bufsize]))
    }

    /** Everything that has been written so far: what was handed on and what is still in the buffer. */
    ghost function Contents(): seq<Byte>
      requires bufsize <= buffer.Length
      reads this, buffer
    {
      done + buffer[..bufsize]
    }

    /** May this piece be written? A converting writer is given whole sequences. */
    ghost predicate Accepts(data: seq<Byte>)
      reads this
    {
      encoding.Native? || Whole(data)
    }

    constructor (capacity: nat, e: Encoding)
      requires capacity >= 8
      ensures Valid() && Contents() == [] && encoding == e && buffer.Length == capacity && fresh(buffer)
    {
      buffer := new Byte[capacity](_ => 0);
      encoding := e;
      bufsize := 0;
      sink := [];
      done := [];
    }

    /** Hand a chunk on, converted if need be; the scratch buffer is four times as large as the buffer. */
    method FlushChunk(data: seq<Byte>)
      requires bufsize <= buffer.Length && sink == Converted(encoding, done) && Accepts(data) && (!encoding.Native? ==> Whole(done))
      requires !encoding.Native? ==> |data| <= buffer.Length
      modifies this`sink, this`done
      ensures sink == Converted(encoding, done) && done == old(done) + data && (!encoding.Native? ==> Whole(done))
    {
      ConvertedAppend(encoding, done, data);
      if !encoding.Native? {
        WholeAppend(done, data);
      }
      done := done + data;
      if |data| == 0 {
        assert Converted(encoding, data) == [];
        return;
      }
      if encoding.Native? {
        sink := sink + data;
      } else {
        var result := DecodeUtf8Block(data, 0, LowOut(encoding), HighOut(encoding), []);
        EncodeFold(encoding, DecodeUtf8(data), []);
        assert [] + Converted(encoding, data) == Converted(encoding, data);
        Expansion(encoding, data);
        assert |result| <= 4 * buffer.Length;
        sink := sink + result;
      }
    }

    /** After flushing, everything written so far has arrived. */
    method Flush()
      requires Valid()
      modifies this
      ensures Valid() && bufsize == 0 && Contents() == old(Contents()) && sink == Converted(encoding, Contents())
    {
      FlushChunk(buffer[..bufsize]);
      bufsize := 0;
      assert done + [] == done;
    }

    /** Copy a piece that fits behind what is in the buffer. */
    method Fill(data: seq<Byte>)
      requires Valid() && Accepts(data) && bufsize + |data| <= buffer.Length
      modifies this`bufsize, buffer
      ensures Valid() && Contents() == old(Contents()) + data && bufsize == old(bufsize) + |data|
    {
      ghost var was := buffer[..bufsize];
      var offset := bufsize;
      for i := 0 to |data|
        modifies buffer
        invariant forall k | 0 <= k < offset :: buffer[k] == was[k]
        invariant forall k | 0 <= k < i :: buffer[offset + k] == data[k]
      {
        buffer[offset + i] := data[i];
      }
      bufsize := bufsize + |data|;
      assert buffer[..bufsize] == was + data;
      if !encoding.Native? {
        WholeAppend(was, data);
      }
      AppendAssociative(done, was, data);
    }

    /** A piece that does not fit: the buffer is handed on first, large pieces are handed on chunk by chunk. */
    method WriteDirect(data: seq<Byte>)
      requires Valid() && Accepts(data)
      modifies this, buffer
      ensures Valid() && Contents() == old(Contents()) + data
    {
      Flush();
      assert done + [] == done;
      var rest := data;
      if |data| > buffer.Length {
        if encoding.Native? {
          FlushChunk(data);
          assert done + [] == done;
          return;
        }
        rest := WriteChunks(data);
      }
      Fill(rest);
    }

    /** Convert chunk by chunk until the rest fits into the buffer. */
    method WriteChunks(data: seq<Byte>) returns (rest: seq<Byte>)
      requires Valid() && bufsize == 0 && !encoding.Native? && Whole(data)
      modifies this`sink, this`done
      ensures Valid() && |rest| <= buffer.Length && Whole(rest) && Contents() + rest == old(Contents()) + data
    {
      rest := data;
      ghost var was := done;
      while |rest| > buffer.Length
        invariant Valid() && Whole(rest) && done + rest == was + data
        decreases |rest|
      {
        var n := GetValidLength(rest, buffer.Length);
        NotFourTails(rest, buffer.Length);
        WholeCut(rest, n);
        AppendAssociative(done, rest[..n], rest[n..]);
        assert rest == rest[..n] + rest[n..];
        FlushChunk(rest[..n]);
        rest := rest[n..];
      }
      assert done + [] == done && was + [] == was;
    }

    method WriteBuffer(data: seq<Byte>)
      requires Valid() && Accepts(data)
      modifies this, buffer
      ensures Valid() && Contents() == old(Contents()) + data
    {
      if bufsize + |data| <= buffer.Length {
        Fill(data);
      } else {
        WriteDirect(data);
      }
    }

    /** A few characters at once. */
    method Write(data: seq<Byte>)
      requires Valid() && Accepts(data) && 1 <= |data| <= 6
      modifies this, buffer
      ensures Valid() && Contents() == old(Contents()) + data
    {
      if bufsize > buffer.Length - |data| {
        Flush();
      }
      Fill(data);
    }

    /** Copy as much of a string as fits; it is not counted as written by this. */
    method CopyString(data: seq<Byte>) returns (n: nat)
      requires Valid()
      modifies buffer
      ensures Valid() && buffer[..bufsize] == old(buffer[..bufsize])
      ensures n <= |data| && bufsize + n <= buffer.Length && buffer[bufsize..bufsize + n] == data[..n]
      ensures bufsize + n < buffer.Length ==> n == |data|
    {
      ghost var was := buffer[..bufsize];
      n := 0;
      while n < |data| && bufsize + n < buffer.Length
        invariant n <= |data| && bufsize + n <= buffer.Length
        invariant forall k | 0 <= k < bufsize :: buffer[k] == was[k]
        invariant forall k | 0 <= k < n :: buffer[bufsize + k] == data[k]
      {
        buffer[bufsize + n] := data[n];
        n := n + 1;
      }
      assert buffer[..bufsize] == was;
    }

    /** Count the first v of the n bytes that have been copied behind the buffer's contents. */
    method Keep(v: nat, ghost data: seq<Byte>, ghost n: nat)
      requires Valid() && v <= n <= |data| && Accepts(data[..v]) && bufsize + n <= buffer.Length && buffer[bufsize..bufsize + n] == data[..n]
      modifies this`bufsize
      ensures Valid() && Contents() == old(Contents()) + data[..v] && bufsize == old(bufsize) + v
    {
      ghost var was := buffer[..bufsize];
      forall k | 0 <= k < v ensures buffer[bufsize + k] == data[k] {
        assert buffer[bufsize..bufsize + n][k] == data[..n][k];
      }
      bufsize := bufsize + v;
      assert buffer[..bufsize] == was + data[..v];
      if !encoding.Native? {
        WholeAppend(was, data[..v]);
      }
      AppendAssociative(done, was, data[..v]);
    }

    /** A string: what fits is copied at once; a sequence that was split is taken back. */
    method WriteString(data: seq<Byte>)
      requires Valid() && Accepts(data)
      modifies this, buffer
      ensures Valid() && Contents() == old(Contents()) + data
    {
      var n := CopyString(data);
      if bufsize + n < buffer.Length {
        assert data[..n] == data;
        Keep(n, data, n);
        return;
      }
      var v := GetValidLength(data, n);
      StringCut(data, n, v, encoding);
      ghost var before := Contents();
      Keep(v, data, n);
      WriteDirect(data[v..]);
      assert data[..v] + data[v..] == data;
      AppendAssociative(before, data[..v], data[v..]);
    }
  }

  /** A string may be cut where the valid length of its beginning says. */
  lemma StringCut(data: seq<Byte>, n: nat, v: nat, e: Encoding)
    requires n <= |data| && (e.Native? || Whole(data)) && v <= n && (n < 5 <==> v == 0)
    requires n >= 5 && v < n ==> !IsTail(data[v])
    requires n >= 5 && v == n ==> forall j | n - 4 <= j < n :: IsTail(data[j])
    ensures !e.Native? ==> Whole(data[..v]) && Whole(data[v..])
  {
    if !e.Native? {
      if n >= 5 {
        NotFourTails(data, n);
      }
      assert data != [] ==> !IsTail(data[0]);
      WholeCut(data, v);
    }
  }
}
