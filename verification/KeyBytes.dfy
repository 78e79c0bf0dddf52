/** Escape-terminated byte strings (pkg/util/encoding/encoding.go, bytes section). */
module KeyBytes {
  import opened ByteStrings
  import opened Varint

  const BYTES_MARKER: byte := 0x12
  const BYTES_DESC_MARKER: byte := 0x13
  const ESCAPE: byte := 0x00
  const ESCAPED_TERM: byte := 0x01
  const ESCAPED00: byte := 0xff

  datatype Escapes = Escapes(escape: byte, escapedTerm: byte, escaped00: byte, escapedFF: byte, marker: byte)

  const ASCENDING := Escapes(ESCAPE, ESCAPED_TERM, ESCAPED00, 0x00, BYTES_MARKER)
  const DESCENDING := Escapes(255 - ESCAPE, 255 - ESCAPED_TERM, 255 - ESCAPED00, 255, BYTES_DESC_MARKER)

  /** Each escape byte becomes a two-byte escape sequence. */
  function Escaped(data: bytes, e: Escapes): bytes {
    if data == [] then []
    else (if data[0] == e.escape then [e.escape, e.escaped00] else [data[0]]) + Escaped(data[1..], e)
  }

  function EncodeBytesAscending(data: bytes): bytes {
    [BYTES_MARKER] + Escaped(data, ASCENDING) + [ESCAPE, ESCAPED_TERM]
  }

  function EncodeBytesDescending(data: bytes): bytes {
    [BYTES_DESC_MARKER] + Complement(Escaped(data, ASCENDING) + [ESCAPE, ESCAPED_TERM])
  }

  /** decodeBytesInternal after the marker: r is what has been decoded so far. */
  function Unescape(b: bytes, e: Escapes, r: bytes): Decoded<bytes>
    decreases |b|
  {
    var i := IndexByte(b, e.escape);
    if i == |b| then Err(MissingTerminator)
    else if i + 1 >= |b| then Err(MalformedEscape)
    else if b[i + 1] == e.escapedTerm then Ok(b[i + 2..], r + b[..i])
    else if b[i + 1] != e.escaped00 then Err(UnknownEscape)
    else Unescape(b[i + 2..], e, r + b[..i] + [e.escapedFF])
  }

  function DecodeBytesInternal(b: bytes, e: Escapes): Decoded<bytes> {
    if b == [] || b[0] != e.marker then Err(MissingMarker) else Unescape(b[1..], e, [])
  }

  function DecodeBytesAscending(b: bytes): Decoded<bytes> {
    DecodeBytesInternal(b, ASCENDING)
  }

  function DecodeBytesDescending(b: bytes): Decoded<bytes> {
    match DecodeBytesInternal(b, DESCENDING)
    case Err(e) => Err(e)
    case Ok(rest, r) => Ok(rest, Complement(r))
  }

  /** getBytesLength once `skipped` bytes of a buffer of `total` are behind and t is ahead.
      The bounds test compares an offset into t with the whole length, so a buffer cut
      inside an escape makes the source index past the end; IndexPanic stands for that. */
  function LengthFrom(t: bytes, e: Escapes, skipped: nat, total: nat): (r: Result<nat>)
    requires skipped + |t| == total
    ensures r.Success? ==> skipped < r.value <= total
    decreases |t|
  {
    var i := IndexByte(t, e.escape);
    if i == |t| then Failure(MissingTerminator)
    else if i + 1 >= total then Failure(MalformedEscape)
    else if i + 2 > |t| then Failure(IndexPanic)
    else if t[i + 1] == e.escapedTerm then Success(skipped + i + 2)
    else LengthFrom(t[i + 2..], e, skipped + i + 2, total)
  }

  function GetBytesLength(b: bytes, e: Escapes): (r: Result<nat>)
    requires b != []
    ensures r.Success? ==> 1 < r.value <= |b|
  {
    LengthFrom(b[1..], e, 1, |b|)
  }

  // ---------------------------------------------------------------- the loops

  /** Copying up to and past an escape byte is copying element by element. */
  lemma {:induction false} EscapedChunk(data: bytes, e: Escapes, i: nat)
    requires i <= |data| && e.escape !in data[..i]
    ensures Escaped(data, e) == data[..i] + Escaped(data[i..], e)
  {
    if i > 0 {
      assert data[..i][0] == data[0];
      assert data[1..][..i - 1] == data[..i][1..];
      EscapedChunk(data[1..], e, i - 1);
      assert data[1..][i - 1..] == data[i..];
      assert data[..i] == [data[0]] + data[1..][..i - 1];
    } else {
      assert data[..0] == [] && data[0..] == data;
    }
  }

  lemma FourParts(a: bytes, b: bytes, c: bytes, d: bytes)
    ensures a + (b + c + d) == a + b + c + d
  {
  }

  /** encodeBytesAscendingWithoutTerminatorOrPrefix: append chunk by chunk to b. */
  method AppendEscaped(b: bytes, data: bytes) returns (r: bytes)
    ensures r == b + Escaped(data, ASCENDING)
  {
    hide Escaped, IndexByte;
    r := b;
    var rest := data;
    while true
      invariant r + Escaped(rest, ASCENDING) == b + Escaped(data, ASCENDING)
      decreases |rest|
    {
      var i := IndexByte(rest, ESCAPE);
      EscapedSplit(rest, ASCENDING, i);
      if i == |rest| {
        break;
      }
      FourParts(r, rest[..i], [ESCAPE, ESCAPED00], Escaped(rest[i + 1..], ASCENDING));
      r := r + rest[..i] + [ESCAPE, ESCAPED00];
      rest := rest[i + 1..];
    }
    r := r + rest;
  }

  /** EncodeBytesDescending: encode ascending, patch the marker, complement in place. */
  method EncodeBytesDescendingInPlace(b: bytes, data: bytes) returns (r: bytes)
    ensures r == b + EncodeBytesDescending(data)
  {
    hide Escaped, Complement;
    var n := |b|;
    var enc := AppendEscaped(b + [BYTES_MARKER], data);
    enc := enc + [ESCAPE, ESCAPED_TERM];
    ghost var tail := Escaped(data, ASCENDING) + [ESCAPE, ESCAPED_TERM];
    assert enc[..n] == b && enc[n + 1..] == tail;
    var a := new byte[|enc|](i requires 0 <= i < |enc| => enc[i]);
    a[n] := BYTES_DESC_MARKER;
    assert a[n + 1..] == enc[n + 1..];
    assert a[..n + 1] == enc[..n] + [BYTES_DESC_MARKER];
    OnesComplement(a, n + 1);
    r := a[..];
  }

  /** decodeBytesInternal. */
  method DecodeBytesLoop(buf: bytes, e: Escapes) returns (d: Decoded<bytes>)
    ensures d == DecodeBytesInternal(buf, e)
  {
    if buf == [] || buf[0] != e.marker {
      return Err(MissingMarker);
    }
    var b, r := buf[1..], [];
    while true
      invariant Unescape(b, e, r) == DecodeBytesInternal(buf, e)
      decreases |b|
    {
      var i := IndexByte(b, e.escape);
      if i == |b| {
        return Err(MissingTerminator);
      }
      if i + 1 >= |b| {
        return Err(MalformedEscape);
      }
      var v := b[i + 1];
      if v == e.escapedTerm {
        return Ok(b[i + 2..], r + b[..i]);
      }
      if v != e.escaped00 {
        return Err(UnknownEscape);
      }
      r := r + b[..i];
      r := r + [e.escapedFF];
      b := b[i + 2..];
    }
  }

  /** getBytesLength. */
  method GetBytesLengthLoop(b: bytes, e: Escapes) returns (r: Result<nat>)
    requires b != []
    ensures r == GetBytesLength(b, e)
  {
    hide IndexByte, LengthFrom;
    var skipped := 1;
    while true
      invariant 1 <= skipped <= |b| && LengthFrom(b[skipped..], e, skipped, |b|) == GetBytesLength(b, e)
      decreases |b| - skipped
    {
      var i := IndexByte(b[skipped..], e.escape);
      LengthFromIs(b[skipped..], e, skipped, |b|);
      if i == |b| - skipped {
        return Failure(MissingTerminator);
      }
      if i + 1 >= |b| {
        return Failure(MalformedEscape);
      }
      if skipped + i + 2 > |b| {
        return Failure(IndexPanic);
      }
      assert b[skipped..][i + 2..] == b[skipped + i + 2..];
      skipped := skipped + i + 2;
      if b[skipped - 1] == e.escapedTerm {
        return Success(skipped);
      }
    }
  }

  // ---------------------------------------------------------------- theorems

  /** Escaping and terminating preserves order and removes prefixes. */
  lemma {:induction false} EscapedOrder(a: bytes, b: bytes)
    requires CompareBytes(a, b) < 0
    ensures Before(Escaped(a, ASCENDING) + [ESCAPE, ESCAPED_TERM], Escaped(b, ASCENDING) + [ESCAPE, ESCAPED_TERM])
  {
    if a != [] && a[0] == b[0] {
      EscapedOrder(a[1..], b[1..]);
      var p := if a[0] == ESCAPE then [ESCAPE, ESCAPED00] else [a[0]];
      var x, y := Escaped(a[1..], ASCENDING) + [ESCAPE, ESCAPED_TERM], Escaped(b[1..], ASCENDING) + [ESCAPE, ESCAPED_TERM];
      BeforeUnderPrefix(p, x, y);
      assert Escaped(a, ASCENDING) + [ESCAPE, ESCAPED_TERM] == p + x;
      assert Escaped(b, ASCENDING) + [ESCAPE, ESCAPED_TERM] == p + y;
    }
  }

  lemma BytesAscendingOrder(a: bytes, b: bytes)
    requires CompareBytes(a, b) < 0
    ensures Before(EncodeBytesAscending(a), EncodeBytesAscending(b))
  {
    EscapedOrder(a, b);
    var x, y := Escaped(a, ASCENDING) + [ESCAPE, ESCAPED_TERM], Escaped(b, ASCENDING) + [ESCAPE, ESCAPED_TERM];
    BeforeUnderPrefix([BYTES_MARKER], x, y);
    assert EncodeBytesAscending(a) == [BYTES_MARKER] + x && EncodeBytesAscending(b) == [BYTES_MARKER] + y;
  }

  lemma BytesDescendingOrder(a: bytes, b: bytes)
    requires CompareBytes(a, b) < 0
    ensures Before(EncodeBytesDescending(b), EncodeBytesDescending(a))
  {
    EscapedOrder(a, b);
    var x, y := Escaped(a, ASCENDING) + [ESCAPE, ESCAPED_TERM], Escaped(b, ASCENDING) + [ESCAPE, ESCAPED_TERM];
    ComplementReverses(y, x);
    BeforeUnderPrefix([BYTES_DESC_MARKER], Complement(y), Complement(x));
  }

  /** Complementing an ascending encoding is escaping the complement with the other set. */
  lemma {:induction false} ComplementEscaped(data: bytes)
    ensures Complement(Escaped(data, ASCENDING)) == Escaped(Complement(data), DESCENDING)
  {
    if data != [] {
      var p := if data[0] == ESCAPE then [ESCAPE, ESCAPED00] else [data[0]];
      ComplementEscaped(data[1..]);
      ComplementConcat(p, Escaped(data[1..], ASCENDING));
      assert Complement(data)[1..] == Complement(data[1..]);
      assert Complement(p) == if data[0] == ESCAPE then [255, 0] else [255 - data[0]];
    }
  }

  lemma EscapedSplit(data: bytes, e: Escapes, i: nat)
    requires i == IndexByte(data, e.escape)
    ensures i == |data| ==> Escaped(data, e) == data
    ensures i < |data| ==> Escaped(data, e) == data[..i] + [e.escape, e.escaped00] + Escaped(data[i + 1..], e)
  {
    EscapedChunk(data, e, i);
    if i < |data| {
      assert data[i..][1..] == data[i + 1..];
    } else {
      assert data[..i] == data;
    }
  }

  /** One iteration over b == chunk + [escape, v] + tail, with no escape in chunk. */
  lemma EscapeAfter(b: bytes, chunk: bytes, e: byte, v: byte, tail: bytes)
    requires e !in chunk && b == chunk + [e, v] + tail
    ensures IndexByte(b, e) == |chunk| && |chunk| + 1 < |b|
    ensures b[..|chunk|] == chunk && b[|chunk| + 1] == v && b[|chunk| + 2..] == tail
  {
    assert b[..|chunk|] == chunk;
    IndexByteIs(b, e, |chunk|);
  }

  lemma UnescapeStep(b: bytes, chunk: bytes, e: Escapes, v: byte, tail: bytes, r: bytes)
    requires e.escape !in chunk && b == chunk + [e.escape, v] + tail
    ensures Unescape(b, e, r) ==
            if v == e.escapedTerm then Ok(tail, r + chunk)
            else if v != e.escaped00 then Err(UnknownEscape)
            else Unescape(tail, e, r + chunk + [e.escapedFF])
  {
    EscapeAfter(b, chunk, e.escape, v, tail);
  }

  /** An encoded string: its first chunk, the escape pair after it, and the tail. */
  lemma FirstChunk(data: bytes, e: Escapes, rest: bytes) returns (chunk: bytes, v: byte, tail: bytes)
    ensures e.escape !in chunk && Escaped(data, e) + [e.escape, e.escapedTerm] + rest == chunk + [e.escape, v] + tail
    ensures if |chunk| < |data|
            then chunk == data[..|chunk|] && data[|chunk|] == e.escape && v == e.escaped00 && tail == Escaped(data[|chunk| + 1..], e) + [e.escape, e.escapedTerm] + rest
              && |Escaped(data, e)| == |chunk| + 2 + |Escaped(data[|chunk| + 1..], e)|
            else chunk == data && v == e.escapedTerm && tail == rest && |Escaped(data, e)| == |data|
  {
    hide Escaped, IndexByte;
    var i := IndexByte(data, e.escape);
    EscapedSplit(data, e, i);
    if i < |data| {
      chunk, v, tail := data[..i], e.escaped00, Escaped(data[i + 1..], e) + [e.escape, e.escapedTerm] + rest;
    } else {
      chunk, v, tail := data, e.escapedTerm, rest;
    }
  }

  lemma {:induction false} UnescapeEscaped(data: bytes, e: Escapes, r: bytes, rest: bytes)
    requires e.escapedFF == e.escape && e.escaped00 != e.escapedTerm
    ensures Unescape(Escaped(data, e) + [e.escape, e.escapedTerm] + rest, e, r) == Ok(rest, r + data)
    decreases |data|
  {
    hide *;
    var chunk, v, tail := FirstChunk(data, e, rest);
    UnescapeStep(Escaped(data, e) + [e.escape, e.escapedTerm] + rest, chunk, e, v, tail, r);
    if |chunk| < |data| {
      UnescapeEscaped(data[|chunk| + 1..], e, r + chunk + [e.escape], rest);
      assert r + chunk + [e.escape] + data[|chunk| + 1..] == r + data;
    }
  }

  lemma BytesAscendingRoundTrip(data: bytes, rest: bytes)
    ensures DecodeBytesAscending(EncodeBytesAscending(data) + rest) == Ok(rest, data)
  {
    hide Escaped, Unescape, IndexByte;
    UnescapeEscaped(data, ASCENDING, [], rest);
    assert [] + data == data;
    assert (EncodeBytesAscending(data) + rest)[1..] == Escaped(data, ASCENDING) + [ESCAPE, ESCAPED_TERM] + rest;
  }

  lemma DescendingForm(data: bytes)
    ensures EncodeBytesDescending(data) ==
            [BYTES_DESC_MARKER] + Escaped(Complement(data), DESCENDING) + [DESCENDING.escape, DESCENDING.escapedTerm]
  {
    ComplementEscaped(data);
    ComplementConcat(Escaped(data, ASCENDING), [ESCAPE, ESCAPED_TERM]);
  }

  lemma BytesDescendingRoundTrip(data: bytes, rest: bytes)
    ensures DecodeBytesDescending(EncodeBytesDescending(data) + rest) == Ok(rest, data)
  {
    hide Escaped, Unescape, Complement, IndexByte;
    DescendingForm(data);
    UnescapeEscaped(Complement(data), DESCENDING, [], rest);
    ComplementTwice(data);
    assert [] + Complement(data) == Complement(data);
    var tail := Escaped(Complement(data), DESCENDING) + [DESCENDING.escape, DESCENDING.escapedTerm] + rest;
    assert (EncodeBytesDescending(data) + rest)[1..] == tail;
    assert Unescape(tail, DESCENDING, []) == Ok(rest, Complement(data));
  }

  /** One stretch without escapes, escaped. */
  lemma EscapedStretch(chunk: bytes, d: bytes, e: Escapes)
    requires e.escape !in chunk
    ensures Escaped(chunk, e) == chunk
    ensures Escaped(chunk + [e.escape] + d, e) == chunk + [e.escape, e.escaped00] + Escaped(d, e)
  {
    var s := chunk + [e.escape] + d;
    EscapedChunk(chunk, e, |chunk|);
    EscapedChunk(s, e, |chunk|);
    assert s[..|chunk|] == chunk && s[|chunk|..][1..] == d;
    assert chunk[..|chunk|] == chunk;
  }

  /** What the first escape pair leads to, if decoding succeeds. */
  lemma UnescapeAccepts(b: bytes, e: Escapes, r: bytes)
    requires Unescape(b, e, r).Ok?
    ensures var i := IndexByte(b, e.escape);
            && i + 1 < |b| && b == b[..i] + [e.escape, b[i + 1]] + b[i + 2..] && e.escape !in b[..i]
            && if b[i + 1] == e.escapedTerm then Unescape(b, e, r) == Ok(b[i + 2..], r + b[..i])
               else b[i + 1] == e.escaped00 && Unescape(b, e, r) == Unescape(b[i + 2..], e, r + b[..i] + [e.escapedFF])
  {
  }

  lemma {:induction false} UnescapedIsEscaped(b: bytes, e: Escapes, r: bytes) returns (d: bytes)
    requires e.escapedFF == e.escape && Unescape(b, e, r).Ok?
    ensures Unescape(b, e, r).value == r + d && b == Escaped(d, e) + [e.escape, e.escapedTerm] + Unescape(b, e, r).rest
    decreases |b|
  {
    hide Escaped, Unescape, IndexByte;
    UnescapeAccepts(b, e, r);
    var i := IndexByte(b, e.escape);
    var chunk := b[..i];
    if b[i + 1] == e.escapedTerm {
      d := chunk;
      EscapedStretch(chunk, [], e);
    } else {
      var tail := UnescapedIsEscaped(b[i + 2..], e, r + chunk + [e.escapedFF]);
      d := chunk + [e.escape] + tail;
      EscapedStretch(chunk, tail, e);
      assert r + chunk + [e.escape] + tail == r + d;
    }
  }

  /** The decoders accept encodings and nothing else: what they return is what was encoded. */
  lemma DecodesOnlyEncodings(b: bytes, data: bytes, rest: bytes)
    ensures DecodeBytesAscending(b) == Ok(rest, data) <==> b == EncodeBytesAscending(data) + rest
    ensures DecodeBytesDescending(b) == Ok(rest, data) <==> b == EncodeBytesDescending(data) + rest
  {
    hide Escaped, Unescape;
    BytesAscendingRoundTrip(data, rest);
    BytesDescendingRoundTrip(data, rest);
    if DecodeBytesAscending(b) == Ok(rest, data) {
      var d := UnescapedIsEscaped(b[1..], ASCENDING, []);
      assert [] + d == d && b == [b[0]] + b[1..];
    }
    if DecodeBytesDescending(b) == Ok(rest, data) {
      var d := UnescapedIsEscaped(b[1..], DESCENDING, []);
      assert [] + d == d && b == [b[0]] + b[1..];
      ComplementTwice(d);
      DescendingForm(data);
    }
  }

  lemma LengthStep(t: bytes, chunk: bytes, e: Escapes, v: byte, tail: bytes, skipped: nat, total: nat)
    requires e.escape !in chunk && t == chunk + [e.escape, v] + tail && skipped + |t| == total
    ensures LengthFrom(t, e, skipped, total) ==
            if v == e.escapedTerm then Success(skipped + |chunk| + 2)
            else LengthFrom(tail, e, skipped + |chunk| + 2, total)
  {
    EscapeAfter(t, chunk, e.escape, v, tail);
  }

  lemma {:induction false} LengthOfEscaped(data: bytes, e: Escapes, rest: bytes, skipped: nat)
    requires e.escaped00 != e.escapedTerm
    ensures var t := Escaped(data, e) + [e.escape, e.escapedTerm] + rest;
            LengthFrom(t, e, skipped, skipped + |t|) == Success(skipped + |Escaped(data, e)| + 2)
    decreases |data|
  {
    hide *;
    var chunk, v, tail := FirstChunk(data, e, rest);
    var t := Escaped(data, e) + [e.escape, e.escapedTerm] + rest;
    LengthStep(t, chunk, e, v, tail, skipped, skipped + |t|);
    if |chunk| < |data| {
      LengthOfEscaped(data[|chunk| + 1..], e, rest, skipped + |chunk| + 2);
    }
  }

  /** getBytesLength finds the end of either encoding, whatever follows it. */
  lemma BytesLength(data: bytes, rest: bytes)
    ensures GetBytesLength(EncodeBytesAscending(data) + rest, ASCENDING) == Success(|EncodeBytesAscending(data)|)
    ensures GetBytesLength(EncodeBytesDescending(data) + rest, DESCENDING) == Success(|EncodeBytesDescending(data)|)
  {
    hide Escaped, LengthFrom, Complement, IndexByte;
    LengthOfEscaped(data, ASCENDING, rest, 1);
    assert (EncodeBytesAscending(data) + rest)[1..] == Escaped(data, ASCENDING) + [ESCAPE, ESCAPED_TERM] + rest;
    DescendingForm(data);
    LengthOfEscaped(Complement(data), DESCENDING, rest, 1);
    assert (EncodeBytesDescending(data) + rest)[1..] ==
           Escaped(Complement(data), DESCENDING) + [DESCENDING.escape, DESCENDING.escapedTerm] + rest;
  }

  /** A buffer cut right after an escape byte: the source indexes past the end
      instead of returning its malformed-escape error. */
  lemma TruncatedEscapePanics()
    ensures GetBytesLength([BYTES_MARKER, ESCAPE], ASCENDING) == Failure(IndexPanic)
  {
    var b: bytes := [BYTES_MARKER, ESCAPE];
    assert b[1..] == [ESCAPE];
  }

  /** Read from the left, every escape byte pairs with the byte after it, no pair terminates, and
      the last byte is an escape without a partner. */
  predicate EndsInsidePair(t: bytes, e: Escapes)
    decreases |t|
  {
    if t == [] then false
    else if t[0] != e.escape then EndsInsidePair(t[1..], e)
    else |t| == 1 || (t[1] != e.escapedTerm && EndsInsidePair(t[2..], e))
  }

  /** In general it does so exactly when the bytes behind the marker end inside an escape pair; the
      malformed-escape error is never returned. */
  lemma PanicsExactly(b: bytes, e: Escapes)
    requires b != []
    ensures GetBytesLength(b, e) != Failure(MalformedEscape)
    ensures GetBytesLength(b, e) == Failure(IndexPanic) <==> EndsInsidePair(b[1..], e)
  {
    hide LengthFrom, EndsInsidePair;
    PanicsFrom(b[1..], e, 1, |b|);
  }

  lemma {:induction false} PanicsFrom(t: bytes, e: Escapes, skipped: nat, total: nat)
    requires skipped >= 1 && skipped + |t| == total
    ensures LengthFrom(t, e, skipped, total) != Failure(MalformedEscape)
    ensures LengthFrom(t, e, skipped, total) == Failure(IndexPanic) <==> EndsInsidePair(t, e)
    decreases |t|
  {
    hide LengthFrom, EndsInsidePair;
    LengthFromIs(t, e, skipped, total);
    var i := IndexByte(t, e.escape);
    NoEscapeBefore(t, e, i);
    if i + 2 <= |t| { PanicsFrom(t[i + 2..], e, skipped + i + 2, total); }
  }

  /** Bytes before the first escape do not matter. */
  lemma {:induction false} NoEscapeBefore(t: bytes, e: Escapes, i: nat)
    requires i <= |t| && e.escape !in t[..i] && (i < |t| ==> t[i] == e.escape)
    ensures EndsInsidePair(t, e) <==>
      i < |t| && (i + 1 == |t| || (t[i + 1] != e.escapedTerm && EndsInsidePair(t[i + 2..], e)))
    decreases i
  {
    if i > 0 {
      assert t[0] == t[..i][0] && t[1..][..i - 1] == t[..i][1..];
      NoEscapeBefore(t[1..], e, i - 1);
    }
  }

  lemma LengthFromIs(t: bytes, e: Escapes, skipped: nat, total: nat)
    requires skipped >= 1 && skipped + |t| == total
    ensures var i := IndexByte(t, e.escape);
            LengthFrom(t, e, skipped, total) ==
              if i == |t| then Failure(MissingTerminator)
              else if i + 2 > |t| then Failure(IndexPanic)
              else if t[i + 1] == e.escapedTerm then Success(skipped + i + 2)
              else LengthFrom(t[i + 2..], e, skipped + i + 2, total)
  {
    hide IndexByte;
  }
}
