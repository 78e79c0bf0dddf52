/** SQL literals: what the writer prints (pkg/sql/lex/encode.go) and what the scanner reads
    (pkg/sql/parser/scan.go), as functions, and that they undo each other. */
module SqlLiterals {
  import opened ByteStrings
  import opened Utf8
  import opened SqlEscapes

  const LITERAL_B: byte := 98
  const LITERAL_E: byte := 101
  const LITERAL_UPPER_E: byte := 69

  // ------------------------------------------------- reading

  datatype Space = Space(newline: bool, rest: bytes)

  predicate Blank(c: byte) {
    c == 10 || c == 32 || c == 9 || c == 13 || c == 12
  }

  /** skipWhitespace without comments: whether a newline was crossed, and what follows. */
  function SkipSpace(s: bytes): (r: Space)
    ensures |r.rest| <= |s|
  {
    if s != [] && Blank(s[0]) then
      var r := SkipSpace(s[1..]);
      Space(s[0] == 10 || r.newline, r.rest)
    else Space(false, s)
  }

  /** After a closing quote: another piece of the same literal follows on a later line. */
  predicate Joins(s: bytes, ch: byte) {
    var sp := SkipSpace(s);
    sp.newline && sp.rest != [] && sp.rest[0] == ch
  }

  datatype Scan = Done(value: bytes, rest: bytes) | Unterminated | BadEscape | InvalidUtf8

  function Prepend(v: bytes, s: Scan): Scan {
    if s.Done? then s.(value := v + s.value) else s
  }

  /** The characters after a backslash that UnquoteChar is asked about. */
  predicate IsEscape(t: byte) {
    t == CHAR_A || t == CHAR_B || t == CHAR_F || t == CHAR_N || t == CHAR_R || t == CHAR_T || t == CHAR_V ||
    t == CHAR_X || t == UPPER_X || t == CHAR_U || t == UPPER_U || t == BACKSLASH || CHAR_0 <= t <= CHAR_7
  }

  /** UnquoteChar, which reads \X as \x when two more bytes are there. */
  function UnquoteAt(s: bytes, ch: byte): (u: Unquoted)
    requires s != []
    ensures u.Char? ==> 1 <= u.used <= |s|
  {
    if s[0] == UPPER_X && |s| >= 3 then UnquoteChar([CHAR_X] + s[1..3], ch) else UnquoteChar(s, ch)
  }

  /** The loop of scanString from a position inside the literal. */
  function Body(s: bytes, ch: byte, allowEscapes: bool): Scan
    decreases |s|
  {
    if s == [] then Unterminated
    else if s[0] == ch then
      if |s| > 1 && s[1] == ch then Prepend([ch], Body(s[2..], ch, allowEscapes))
      else if Joins(s[1..], ch) then Body(SkipSpace(s[1..]).rest[1..], ch, allowEscapes)
      else Done([], SkipSpace(s[1..]).rest)
    else if s[0] == BACKSLASH && allowEscapes && |s| > 1 then
      if s[1] == ch then Prepend([ch], Body(s[2..], ch, allowEscapes))
      else if IsEscape(s[1]) then
        var u := UnquoteAt(s[1..], ch);
        if u.Bad? then BadEscape else Prepend(Appended(u), Body(s[1 + u.used..], ch, allowEscapes))
      else Body(s[1..], ch, allowEscapes)
    else Prepend([s[0]], Body(s[1..], ch, allowEscapes))
  }

  /** scanString. */
  function ScanString(s: bytes, ch: byte, allowEscapes: bool, requireUtf8: bool): Scan {
    var r := Body(s, ch, allowEscapes);
    if r.Done? && requireUtf8 && !Valid(r.value) then InvalidUtf8 else r
  }

  datatype Kind = Ident | StringConst | BytesConst
  datatype Token = Literal(kind: Kind, value: bytes, rest: bytes) | Failed(why: Scan) | NotALiteral

  function ToToken(kind: Kind, s: Scan): Token {
    if s.Done? then Literal(kind, s.value, s.rest) else Failed(s)
  }

  /** scan, on input that starts with a quoted literal. */
  function ScanLiteral(s: bytes): Token {
    if s == [] then NotALiteral
    else if s[0] == IDENT_QUOTE then ToToken(Ident, ScanString(s[1..], IDENT_QUOTE, false, true))
    else if s[0] == QUOTE then ToToken(StringConst, ScanString(s[1..], QUOTE, false, true))
    else if |s| < 2 || s[1] != QUOTE then NotALiteral
    else if s[0] == LITERAL_B then ToToken(BytesConst, ScanString(s[2..], QUOTE, true, false))
    else if s[0] == LITERAL_E || s[0] == LITERAL_UPPER_E then ToToken(StringConst, ScanString(s[2..], QUOTE, true, true))
    else NotALiteral
  }

  /** What follows a closing quote would be read as more of the literal. */
  predicate Continues(suffix: bytes, ch: byte) {
    (suffix != [] && suffix[0] == ch) || Joins(suffix, ch)
  }

  lemma {:induction false} BodyShrinks(s: bytes, ch: byte, allowEscapes: bool)
    ensures var r := Body(s, ch, allowEscapes); r.Done? ==> |r.rest| < |s|
    decreases |s|
  {
    if s == [] {
    } else if s[0] == ch {
      if |s| > 1 && s[1] == ch { BodyShrinks(s[2..], ch, allowEscapes); }
      else if Joins(s[1..], ch) { BodyShrinks(SkipSpace(s[1..]).rest[1..], ch, allowEscapes); }
    } else if s[0] == BACKSLASH && allowEscapes && |s| > 1 {
      if s[1] == ch { BodyShrinks(s[2..], ch, allowEscapes); }
      else if IsEscape(s[1]) {
        var u := UnquoteAt(s[1..], ch);
        if u.Char? { BodyShrinks(s[1 + u.used..], ch, allowEscapes); }
      } else { BodyShrinks(s[1..], ch, allowEscapes); }
    } else { BodyShrinks(s[1..], ch, allowEscapes); }
  }

  /** The closing quote ends the literal exactly when the text after it does not continue it. */
  lemma Closing(suffix: bytes, ch: byte, allowEscapes: bool, v: bytes)
    requires ch != BACKSLASH
    ensures Prepend(v, Body([ch] + suffix, ch, allowEscapes)) == Done(v, SkipSpace(suffix).rest) <==> !Continues(suffix, ch)
  {
    var s := [ch] + suffix;
    assert s[1..] == suffix;
    if suffix != [] && suffix[0] == ch {
      assert s[1] == ch;
      var r := Body(s[2..], ch, allowEscapes);
      if r.Done? { assert |v + ([ch] + r.value)| > |v|; }
    } else if Joins(suffix, ch) {
      BodyShrinks(SkipSpace(suffix).rest[1..], ch, allowEscapes);
    }
  }

  // ------------------------------------------------- pieces that read back

  /** Bytes the scanner copies. */
  predicate Copied(b: byte, ch: byte, allowEscapes: bool) {
    b != ch && (allowEscapes ==> b != BACKSLASH)
  }

  lemma Prepends(a: bytes, b: bytes, s: Scan)
    ensures Prepend(a, Prepend(b, s)) == Prepend(a + b, s)
  {
    if s.Done? { assert a + (b + s.value) == a + b + s.value; }
  }

  lemma {:induction false} BodyCopies(s: bytes, rest: bytes, ch: byte, allowEscapes: bool)
    requires forall i :: 0 <= i < |s| ==> Copied(s[i], ch, allowEscapes)
    ensures Body(s + rest, ch, allowEscapes) == Prepend(s, Body(rest, ch, allowEscapes))
    decreases |s|
  {
    if s == [] {
      assert s + rest == rest;
      PrependNothing(Body(rest, ch, allowEscapes));
    } else {
      assert (s + rest)[1..] == s[1..] + rest && (s + rest)[0] == s[0];
      BodyCopies(s[1..], rest, ch, allowEscapes);
      Prepends([s[0]], s[1..], Body(rest, ch, allowEscapes));
      assert [s[0]] + s[1..] == s;
    }
  }

  /** A backslash escape read by UnquoteChar. */
  lemma BodyUnquotes(e: bytes, rest: bytes, u: Unquoted)
    requires e != [] && IsEscape(e[0]) && e[0] != UPPER_X && e[0] != QUOTE
    requires u.Char? && u.used == |e| && UnquoteChar(e + rest, QUOTE) == u
    ensures Body([BACKSLASH] + e + rest, QUOTE, true) == Prepend(Appended(u), Body(rest, QUOTE, true))
  {
    hide UnquoteChar, Appended;
    var s := [BACKSLASH] + e + rest;
    assert s[0] == BACKSLASH && s[1] == e[0] && s[1..] == e + rest && s[1 + |e|..] == rest;
  }

  lemma BodyHex(b: byte, rest: bytes)
    ensures Body(HexMap(b) + rest, QUOTE, true) == Prepend([b], Body(rest, QUOTE, true))
  {
    HexMapUnquotes(b, rest);
    var e := HexMap(b)[1..];
    assert [BACKSLASH] + e + rest == HexMap(b) + rest;
    assert b as int % 256 == b as int;
    BodyUnquotes(e, rest, Char(b as int, false, 3));
  }

  lemma BodyEscaped(b: byte, rest: bytes)
    requires EncodeMap(b) != DONT_ESCAPE
    ensures Body([BACKSLASH, EncodeMap(b)] + rest, QUOTE, true) == Prepend([b], Body(rest, QUOTE, true))
  {
    var e := [EncodeMap(b)];
    assert (e + rest)[0] == EncodeMap(b);
    assert [BACKSLASH] + e + rest == [BACKSLASH, EncodeMap(b)] + rest;
    BodyUnquotes(e, rest, Char(b as int, false, 1));
  }

  lemma BodyQuote(rest: bytes)
    ensures Body([BACKSLASH, QUOTE] + rest, QUOTE, true) == Prepend([QUOTE], Body(rest, QUOTE, true))
  {
    assert ([BACKSLASH, QUOTE] + rest)[2..] == rest;
  }

  lemma BodyRune(v: int, rest: bytes)
    requires ValidRune(v) && v >= RUNE_SELF
    ensures v < 0x1_0000 ==> Body([BACKSLASH, CHAR_U] + UpperHex(v, 4) + rest, QUOTE, true) == Prepend(EncodeRune(v), Body(rest, QUOTE, true))
    ensures Body([BACKSLASH, UPPER_U] + UpperHex(v, 8) + rest, QUOTE, true) == Prepend(EncodeRune(v), Body(rest, QUOTE, true))
  {
    hide UpperHex, UnquoteChar, Body, EncodeRune;
    RuneUnquotes(v, rest);
    assert Appended(Char(v, true, 5)) == EncodeRune(v) && Appended(Char(v, true, 9)) == EncodeRune(v);
    if v < 0x1_0000 {
      var e := [CHAR_U] + UpperHex(v, 4);
      assert [BACKSLASH] + e + rest == [BACKSLASH, CHAR_U] + UpperHex(v, 4) + rest;
      BodyUnquotes(e, rest, Char(v, true, 5));
    }
    var e := [UPPER_U] + UpperHex(v, 8);
    assert [BACKSLASH] + e + rest == [BACKSLASH, UPPER_U] + UpperHex(v, 8) + rest;
    BodyUnquotes(e, rest, Char(v, true, 9));
  }

  // ------------------------------------------------- byte literals

  function EscapedByte(ch: byte): bytes {
    if EncodeMap(ch) != DONT_ESCAPE then [BACKSLASH, EncodeMap(ch)]
    else if ch == QUOTE then [BACKSLASH, QUOTE]
    else if ch < 0x20 || ch >= 0x7F then HexMap(ch)
    else [ch]
  }

  function EscapedBytes(s: bytes): bytes {
    if s == [] then [] else EscapedByte(s[0]) + EscapedBytes(s[1..])
  }

  /** EncodeSQLBytes. */
  function BytesLiteral(s: bytes): bytes {
    [LITERAL_B, QUOTE] + EscapedBytes(s) + [QUOTE]
  }

  lemma EscapedByteReads(ch: byte, rest: bytes)
    ensures Body(EscapedByte(ch) + rest, QUOTE, true) == Prepend([ch], Body(rest, QUOTE, true))
  {
    hide Body;
    if EncodeMap(ch) != DONT_ESCAPE {
      BodyEscaped(ch, rest);
    } else if ch == QUOTE {
      BodyQuote(rest);
    } else if ch < 0x20 || ch >= 0x7F {
      BodyHex(ch, rest);
    } else {
      BodyCopies([ch], rest, QUOTE, true);
    }
  }

  lemma {:induction false} EscapedBytesRead(s: bytes, rest: bytes)
    ensures Body(EscapedBytes(s) + rest, QUOTE, true) == Prepend(s, Body(rest, QUOTE, true))
    decreases |s|
  {
    hide Body, EscapedByte;
    if s == [] {
      assert EscapedBytes(s) + rest == rest;
      PrependNothing(Body(rest, QUOTE, true));
    } else {
      var tail := EscapedBytes(s[1..]) + rest;
      assert EscapedBytes(s) + rest == EscapedByte(s[0]) + tail;
      EscapedByteReads(s[0], tail);
      EscapedBytesRead(s[1..], rest);
      Prepends([s[0]], s[1..], Body(rest, QUOTE, true));
      assert [s[0]] + s[1..] == s;
    }
  }

  lemma PrependNothing(s: Scan)
    ensures Prepend([], s) == s
  {
    if s.Done? { assert [] + s.value == s.value; }
  }

  /** Any byte string printed as b'...' reads back as itself, and scanning stops behind the
      literal, exactly when the text behind does not continue it. */
  lemma BytesRoundTrip(s: bytes, suffix: bytes)
    ensures ScanLiteral(BytesLiteral(s) + suffix) == Literal(BytesConst, s, SkipSpace(suffix).rest) <==> !Continues(suffix, QUOTE)
  {
    hide Body, EscapedBytes, Continues, SkipSpace;
    var text := BytesLiteral(s) + suffix;
    var tail := [QUOTE] + suffix;
    assert text[2..] == EscapedBytes(s) + tail;
    assert text[0] == LITERAL_B && text[1] == QUOTE;
    EscapedBytesRead(s, tail);
    Closing(suffix, QUOTE, true, s);
  }

  // ------------------------------------------------- quoted identifiers

  function Doubled(s: bytes): bytes {
    if s == [] then [] else (if s[0] == IDENT_QUOTE then [IDENT_QUOTE, IDENT_QUOTE] else [s[0]]) + Doubled(s[1..])
  }

  /** EncodeEscapedSQLIdent. */
  function IdentLiteral(s: bytes): bytes {
    [IDENT_QUOTE] + Doubled(s) + [IDENT_QUOTE]
  }

  lemma {:induction false} DoubledReads(s: bytes, rest: bytes)
    ensures Body(Doubled(s) + rest, IDENT_QUOTE, false) == Prepend(s, Body(rest, IDENT_QUOTE, false))
    decreases |s|
  {
    if s == [] {
      assert Doubled(s) + rest == rest;
      PrependNothing(Body(rest, IDENT_QUOTE, false));
    } else {
      var tail := Doubled(s[1..]) + rest;
      DoubledReads(s[1..], rest);
      Prepends([s[0]], s[1..], Body(rest, IDENT_QUOTE, false));
      assert [s[0]] + s[1..] == s;
      if s[0] == IDENT_QUOTE {
        var text := Doubled(s) + rest;
        assert text[0] == IDENT_QUOTE && text[1] == IDENT_QUOTE && text[2..] == tail;
      } else {
        assert Doubled(s) + rest == [s[0]] + tail;
        assert ([s[0]] + tail)[1..] == tail;
      }
    }
  }

  /** A quoted identifier reads back as itself exactly when it is valid UTF-8 and the text behind
      does not continue it. */
  lemma IdentRoundTrip(s: bytes, suffix: bytes)
    ensures ScanLiteral(IdentLiteral(s) + suffix) == Literal(Ident, s, SkipSpace(suffix).rest) <==>
            Valid(s) && !Continues(suffix, IDENT_QUOTE)
  {
    hide Body, Doubled, Continues, SkipSpace, Valid;
    var text := IdentLiteral(s) + suffix;
    var tail := [IDENT_QUOTE] + suffix;
    assert text[1..] == Doubled(s) + tail;
    assert text[0] == IDENT_QUOTE;
    DoubledReads(s, tail);
    Closing(suffix, IDENT_QUOTE, false, s);
  }

  // ------------------------------------------------- string literals

  /** Runes EncodeSQLString leaves alone. */
  predicate Plain(r: Rune) {
    0x20 <= r.value < 0x7F && EncodeMap(r.value as byte) == DONT_ESCAPE && r.value as byte != QUOTE
  }

  /** How far the writer moves for an escaped rune: utf8.RuneLen, three for U+FFFD. */
  function Skip(r: Rune): nat {
    if r.value == RUNE_ERROR then 3 else r.size
  }

  /** What the writer still prints when its loop stands at rune boundary i and everything before
      `start` is written. */
  function StringFrom(s: bytes, i: nat, start: nat): bytes
    requires i <= |s|
    decreases |s| - i
  {
    if i == |s| then if start < |s| then s[start..] else []
    else
      var r := DecodeRune(s[i..]);
      if i < start || Plain(r) then StringFrom(s, i + r.size, start)
      else s[start..i] + EscapedChar(s, r, i) + StringFrom(s, i + r.size, i + Skip(r))
  }

  predicate AllPlain(s: bytes) {
    forall i :: 0 <= i < |s| ==> 0x20 <= s[i] < 0x7F && s[i] != BACKSLASH && s[i] != QUOTE
  }

  /** EncodeSQLString. */
  function StringLiteral(s: bytes): bytes {
    if AllPlain(s) then [QUOTE] + s + [QUOTE] else [LITERAL_E, QUOTE] + StringFrom(s, 0, 0) + [QUOTE]
  }

  /** Bytes of s from start up to i, which the writer has passed but not written, are copied. */
  predicate Pending(s: bytes, i: nat, start: nat)
    requires i <= |s|
  {
    forall k :: start <= k < i ==> Copied(s[k], QUOTE, true)
  }

  /** Passing a rune without escaping it keeps the pending bytes copyable. */
  lemma PassKeeps(s: bytes, i: nat, start: nat)
    requires i < |s| && Pending(s, i, start)
    requires i < start || Plain(DecodeRune(s[i..]))
    ensures Pending(s, i + DecodeRune(s[i..]).size, start)
  {
    var r := DecodeRune(s[i..]);
    assert s[i..][0] == s[i];
    forall k | i < k < i + r.size ensures s[k] >= 0x80 {
      assert s[k] == s[i..][k - i];
    }
  }

  lemma EscapeReads(s: bytes, i: nat, rest: bytes)
    requires i < |s| && !Plain(DecodeRune(s[i..]))
    ensures var r := DecodeRune(s[i..]);
            var stop := if i + Skip(r) <= |s| then i + Skip(r) else |s|;
            Body(EscapedChar(s, r, i) + rest, QUOTE, true) == Prepend(s[i..stop], Body(rest, QUOTE, true))
  {
    hide Body, HexMap, UpperHex;
    var t := s[i..];
    var r := DecodeRune(t);
    assert t[0] == s[i];
    if r.value == RUNE_ERROR {
      HexRun(s, i, rest);
    } else {
      DecodedEncodes(t);
      assert t[..r.size] == s[i..i + r.size];
      if r.size == 1 {
        assert s[i..i + 1] == [s[i]];
        if EncodeMap(s[i]) != DONT_ESCAPE {
          BodyEscaped(s[i], rest);
        } else if s[i] == QUOTE {
          BodyQuote(rest);
        } else {
          BodyHex(s[i], rest);
        }
      } else {
        BodyRune(r.value, rest);
      }
    }
  }

  /** Up to three bytes in hexadecimal. */
  lemma HexRun(s: bytes, i: nat, rest: bytes)
    requires i < |s|
    ensures var stop := if i + 3 <= |s| then i + 3 else |s|;
            var text := HexMap(s[i]) + (if i + 1 < |s| then HexMap(s[i + 1]) else []) + (if i + 2 < |s| then HexMap(s[i + 2]) else []);
            Body(text + rest, QUOTE, true) == Prepend(s[i..stop], Body(rest, QUOTE, true))
  {
    hide Body, HexMap;
    var third := (if i + 2 < |s| then HexMap(s[i + 2]) else []) + rest;
    var second := (if i + 1 < |s| then HexMap(s[i + 1]) else []) + third;
    var text := HexMap(s[i]) + (if i + 1 < |s| then HexMap(s[i + 1]) else []) + (if i + 2 < |s| then HexMap(s[i + 2]) else []);
    assert text + rest == HexMap(s[i]) + second;
    BodyHex(s[i], second);
    if i + 1 < |s| {
      BodyHex(s[i + 1], third);
      Prepends([s[i]], [s[i + 1]], Body(third, QUOTE, true));
      if i + 2 < |s| {
        BodyHex(s[i + 2], rest);
        Prepends([s[i]] + [s[i + 1]], [s[i + 2]], Body(rest, QUOTE, true));
        assert s[i..i + 3] == [s[i]] + [s[i + 1]] + [s[i + 2]];
      } else {
        assert third == rest && s[i..|s|] == [s[i]] + [s[i + 1]];
      }
    } else {
      assert second == rest && s[i..|s|] == [s[i]];
    }
  }

  function Unwritten(s: bytes, start: nat): bytes {
    if start < |s| then s[start..] else []
  }

  lemma {:induction false} StringFromReads(s: bytes, i: nat, start: nat, rest: bytes)
    requires i <= |s| && Pending(s, i, start)
    ensures Body(StringFrom(s, i, start) + rest, QUOTE, true) == Prepend(Unwritten(s, start), Body(rest, QUOTE, true))
    decreases |s| - i
  {
    hide Body, EscapedChar, Plain, DecodeRune, StringFrom, Prepend;
    if i == |s| {
      StringFromEnd(s, start);
      BodyCopies(Unwritten(s, start), rest, QUOTE, true);
    } else {
      StringFromIs(s, i, start);
      var r := DecodeRune(s[i..]);
      if i < start || Plain(r) {
        PassKeeps(s, i, start);
        StringFromReads(s, i + r.size, start, rest);
      } else {
        SkipCovers(s[i..]);
        StringFromReads(s, i + r.size, i + Skip(r), rest);
        EscapeStep(s, i, start, StringFrom(s, i + r.size, i + Skip(r)), rest);
      }
    }
  }

  /** One escaped rune and the bytes passed before it, then the rest of what is written. */
  lemma EscapeStep(s: bytes, i: nat, start: nat, more: bytes, rest: bytes)
    requires start <= i < |s| && Pending(s, i, start) && !Plain(DecodeRune(s[i..]))
    requires var r := DecodeRune(s[i..]);
             Body(more + rest, QUOTE, true) == Prepend(Unwritten(s, i + Skip(r)), Body(rest, QUOTE, true))
    ensures var r := DecodeRune(s[i..]);
            Body(s[start..i] + EscapedChar(s, r, i) + more + rest, QUOTE, true) == Prepend(Unwritten(s, start), Body(rest, QUOTE, true))
  {
    hide Body, EscapedChar, Plain, DecodeRune;
    var r := DecodeRune(s[i..]);
    var stop := if i + Skip(r) <= |s| then i + Skip(r) else |s|;
    var a, b, c := s[start..i], s[i..stop], Unwritten(s, i + Skip(r));
    var e := EscapedChar(s, r, i);
    EscapeReads(s, i, more + rest);
    BodyCopies(a, e + (more + rest), QUOTE, true);
    Regroup(a, e, more, rest);
    Prepends(b, c, Body(rest, QUOTE, true));
    Prepends(a, b + c, Body(rest, QUOTE, true));
    Spans(s, start, i, Skip(r));
  }

  lemma Regroup(a: bytes, b: bytes, c: bytes, d: bytes)
    ensures a + b + c + d == a + (b + (c + d))
  {
  }

  lemma Spans(s: bytes, start: nat, i: nat, n: nat)
    requires start <= i < |s|
    ensures var stop := if i + n <= |s| then i + n else |s|;
            s[start..i] + (s[i..stop] + Unwritten(s, i + n)) == Unwritten(s, start)
  {
    if i + n < |s| {
      assert s[start..] == s[start..i] + (s[i..i + n] + s[i + n..]);
    } else {
      assert s[start..] == s[start..i] + s[i..];
      assert s[i..|s|] + [] == s[i..];
    }
  }

  lemma SkipCovers(t: bytes)
    requires t != []
    ensures DecodeRune(t).size <= Skip(DecodeRune(t))
  {
  }

  lemma {:induction false} PlainIsValid(s: bytes)
    requires AllPlain(s)
    ensures Valid(s)
  {
    if s != [] { PlainIsValid(s[1..]); }
  }

  /** A string literal reads back as itself exactly when the string is valid UTF-8 and the text
      behind does not continue the literal. */
  lemma StringRoundTrip(s: bytes, suffix: bytes)
    ensures ScanLiteral(StringLiteral(s) + suffix) == Literal(StringConst, s, SkipSpace(suffix).rest) <==>
            Valid(s) && !Continues(suffix, QUOTE)
  {
    var text := StringLiteral(s) + suffix;
    var tail := [QUOTE] + suffix;
    hide Body, StringFrom, Continues, SkipSpace, Valid;
    if AllPlain(s) {
      PlainIsValid(s);
      assert text[1..] == s + tail && text[0] == QUOTE;
      BodyCopies(s, tail, QUOTE, false);
      Closing(suffix, QUOTE, false, s);
    } else {
      assert text[2..] == StringFrom(s, 0, 0) + tail && text[0] == LITERAL_E && text[1] == QUOTE;
      StringFromReads(s, 0, 0, tail);
      Closing(suffix, QUOTE, true, s);
    }
  }

  /** The case of the prefix makes no difference. */
  lemma UpperPrefix(s: bytes)
    ensures ScanLiteral([LITERAL_UPPER_E] + s) == ScanLiteral([LITERAL_E] + s)
  {
    assert forall c: byte :: s != [] ==> ([c] + s)[2..] == s[1..];
  }

  /** The escaped text reads back behind an upper-case prefix too. */
  lemma UpperRoundTrip(s: bytes, suffix: bytes)
    ensures var text := [LITERAL_UPPER_E, QUOTE] + StringFrom(s, 0, 0) + [QUOTE] + suffix;
            ScanLiteral(text) == Literal(StringConst, s, SkipSpace(suffix).rest) <==> Valid(s) && !Continues(suffix, QUOTE)
  {
    hide Body, StringFrom, Continues, SkipSpace, Valid;
    var text := [LITERAL_UPPER_E, QUOTE] + StringFrom(s, 0, 0) + [QUOTE] + suffix;
    var tail := [QUOTE] + suffix;
    assert text[2..] == StringFrom(s, 0, 0) + tail && text[0] == LITERAL_UPPER_E && text[1] == QUOTE;
    StringFromReads(s, 0, 0, tail);
    Closing(suffix, QUOTE, true, s);
  }

  // ------------------------------------------------- the writers

  method EncodeSQLBytes(s: bytes) returns (buf: bytes)
    ensures buf == BytesLiteral(s)
  {
    hide HexMap, EncodeMap, EscapedByte;
    var start := 0;
    buf := [LITERAL_B, QUOTE];
    for i := 0 to |s|
      invariant start <= i
      invariant buf + s[start..i] == [LITERAL_B, QUOTE] + EscapedBytes(s[..i])
    {
      var ch := s[i];
      EscapedBytesSnoc(s[..i], ch);
      EscapedByteIs(ch);
      assert s[..i + 1] == s[..i] + [ch];
      ghost var was := buf + s[start..i];
      assert s[start..i + 1] == s[start..i] + [ch] && s[i + 1..i + 1] == [];
      assert buf + (s[start..i] + [ch]) == was + [ch];
      if EncodeMap(ch) != DONT_ESCAPE || ch == QUOTE || ch < 0x20 || ch >= 0x7F {
        buf := buf + s[start..i];
        assert buf == was;
        if EncodeMap(ch) != DONT_ESCAPE {
          buf := buf + [BACKSLASH, EncodeMap(ch)];
        } else if ch == QUOTE {
          buf := buf + [BACKSLASH, ch];
        } else {
          buf := buf + HexMap(ch);
        }
        start := i + 1;
        assert buf + s[start..i + 1] == was + EscapedByte(ch);
      }
    }
    assert s[..|s|] == s && s[start..|s|] == s[start..];
    buf := buf + s[start..];
    buf := buf + [QUOTE];
  }

  lemma EscapedByteIs(ch: byte)
    ensures EscapedByte(ch) ==
      if EncodeMap(ch) != DONT_ESCAPE then [BACKSLASH, EncodeMap(ch)]
      else if ch == QUOTE then [BACKSLASH, ch]
      else if ch < 0x20 || ch >= 0x7F then HexMap(ch)
      else [ch]
  {
  }

  lemma {:induction false} EscapedBytesSnoc(s: bytes, ch: byte)
    ensures EscapedBytes(s + [ch]) == EscapedBytes(s) + EscapedByte(ch)
  {
    hide EscapedByte;
    if s == [] {
      assert s + [ch] == [ch] && [ch][1..] == [];
    } else {
      assert (s + [ch])[1..] == s[1..] + [ch];
      EscapedBytesSnoc(s[1..], ch);
    }
  }

  method EncodeEscapedSQLIdent(s: bytes) returns (buf: bytes)
    ensures buf == IdentLiteral(s)
  {
    buf := [IDENT_QUOTE];
    var start := 0;
    for i := 0 to |s|
      invariant start <= i
      invariant buf + s[start..i] == [IDENT_QUOTE] + Doubled(s[..i])
    {
      var ch := s[i];
      DoubledSnoc(s[..i], ch);
      assert s[..i + 1] == s[..i] + [ch];
      ghost var was := buf + s[start..i];
      assert s[start..i + 1] == s[start..i] + [ch] && s[i + 1..i + 1] == [];
      assert buf + (s[start..i] + [ch]) == was + [ch];
      if ch == IDENT_QUOTE {
        if start != i {
          buf := buf + s[start..i];
        }
        assert buf == was;
        start := i + 1;
        buf := buf + [ch];
        buf := buf + [ch];
        assert buf + s[start..i + 1] == was + [ch, ch];
      }
    }
    assert s[..|s|] == s && s[start..|s|] == s[start..];
    if start < |s| {
      buf := buf + s[start..];
    }
    buf := buf + [IDENT_QUOTE];
  }

  lemma {:induction false} DoubledSnoc(s: bytes, ch: byte)
    ensures Doubled(s + [ch]) == Doubled(s) + if ch == IDENT_QUOTE then [ch, ch] else [ch]
  {
    if s == [] {
      assert s + [ch] == [ch] && [ch][1..] == [];
    } else {
      assert (s + [ch])[1..] == s[1..] + [ch];
      DoubledSnoc(s[1..], ch);
    }
  }

  /** EncodeSQLString: the loop stands at every rune, and passes those inside an escape. */
  method EncodeSQLString(s: bytes) returns (buf: bytes)
    ensures buf == StringLiteral(s)
  {
    hide EscapedChar, Plain, DecodeRune, StringFrom, AllPlain;
    NothingPlain();
    buf := [];
    var start: nat, i := 0, 0;
    var escapedString := false;
    while i < |s|
      invariant 0 <= i <= |s|
      invariant escapedString ==> !AllPlain(s) && [LITERAL_E, QUOTE] + StringFrom(s, 0, 0) == buf + StringFrom(s, i, start)
      invariant !escapedString ==> start == 0 && buf == [] && AllPlain(s[..i]) && StringFrom(s, 0, 0) == StringFrom(s, i, 0)
    {
      var r := DecodeRune(s[i..]);
      StringFromIs(s, i, start);
      if i >= start {
        PlainRune(s, i);
        if !Plain(r) {
          ghost var pending, more := s[start..i], StringFrom(s, i + r.size, i + Skip(r));
          if !escapedString {
            buf := buf + [LITERAL_E, QUOTE];
            escapedString := true;
          }
          ghost var was := buf;
          buf := buf + s[start..i];
          start := i + (if r.value == RUNE_ERROR then 3 else r.size);
          var text := EscapedChar(s, r, i);
          buf := buf + text;
          assert was + (pending + text + more) == buf + more;
        }
      }
      i := i + r.size;
    }
    StringFromEnd(s, start);
    if !escapedString {
      assert s[..i] == s;
      buf := buf + [QUOTE];
    }
    if start < |s| {
      buf := buf + s[start..];
    }
    buf := buf + [QUOTE];
  }

  lemma NothingPlain()
    ensures AllPlain([])
  {
  }

  lemma StringFromIs(s: bytes, i: nat, start: nat)
    requires i < |s|
    ensures var r := DecodeRune(s[i..]);
            StringFrom(s, i, start) == if i < start || Plain(r) then StringFrom(s, i + r.size, start)
                                       else s[start..i] + EscapedChar(s, r, i) + StringFrom(s, i + r.size, i + Skip(r))
  {
  }

  lemma StringFromEnd(s: bytes, start: nat)
    ensures StringFrom(s, |s|, start) == if start < |s| then s[start..] else []
  {
  }

  /** A plain rune is one plain byte; one that is not shows that the string is not plain. */
  lemma PlainRune(s: bytes, i: nat)
    requires i < |s|
    ensures Plain(DecodeRune(s[i..])) ==> DecodeRune(s[i..]).size == 1 && (AllPlain(s[..i]) ==> AllPlain(s[..i + 1]))
    ensures !Plain(DecodeRune(s[i..])) ==> !AllPlain(s)
  {
    assert s[i..][0] == s[i];
    assert s[..i + 1] == s[..i] + [s[i]];
  }
}
