/** The grammar of quoted literals, given piece by piece, and that the scanner
    (pkg/sql/parser/scan.go) reads exactly it. */
module SqlGrammar {
  import opened ByteStrings
  import opened GoInts
  import opened Utf8
  import opened SqlEscapes
  import opened SqlLiterals

  // ------------------------------------------------- pieces

  const SPACES := " \t\r\n\U{C}"
  const DIGITS := "0123456789abcdef"
  const CAPITALS := "0123456789ABCDEF"
  const LETTERS := "abfnrtv\\"
  const ESCAPES := "abfnrtvxXuU\\01234567"

  predicate Among(b: byte, s: string) {
    b as int as char in s
  }

  /** One piece of the text between the quotes. */
  datatype Piece =
    | Raw(b: byte)
    | Twice
    | Gap(space: bytes)
    | Quoted
    | Letter(b: byte)
    | Octal(v: int)
    | Hex(upper: bool, v: int, caps: seq<bool>)
    | Code(wide: bool, v: int, caps: seq<bool>)
    | Useless(b: byte)

  predicate Quote(ch: byte) {
    ch == QUOTE || ch == IDENT_QUOTE
  }

  /** What may stand in a literal with quote ch. Two pieces on different lines are one literal; a code
      is a code point or has its top bit set; a backslash before any other character is useless. */
  predicate Legal(p: Piece, ch: byte, escapes: bool) {
    match p
    case Raw(b) => b != ch && !(escapes && b == BACKSLASH)
    case Twice => true
    case Gap(space) => (forall i :: 0 <= i < |space| ==> Among(space[i], SPACES)) && '\n' as int as byte in space
    case Quoted => escapes
    case Letter(b) => escapes && Among(b, LETTERS)
    case Octal(v) => escapes && 0 <= v < 256
    case Hex(_, v, caps) => escapes && 0 <= v < 256 && |caps| == 2
    case Code(wide, v, caps) =>
      && escapes && |caps| == (if wide then 8 else 4) && 0 <= v < Pow16(|caps|)
      && !(0x11_0000 <= v < 0x8000_0000)
    case Useless(b) => escapes && b != ch && !Among(b, ESCAPES)
  }

  function Digit(v: int, capital: bool): byte
    requires 0 <= v < 16
  {
    (if capital then CAPITALS[v] else DIGITS[v]) as int as byte
  }

  /** The hexadecimal digits of v in front of the given ones. */
  function HexText(v: int, caps: seq<bool>): (s: bytes)
    requires v >= 0
    ensures |s| == |caps|
  {
    if caps == [] then [] else HexText(v / 16, caps[..|caps| - 1]) + [Digit(v % 16, caps[|caps| - 1])]
  }

  function OctalDigit(v: int): byte
    requires 0 <= v < 8
  {
    DIGITS[v] as int as byte
  }

  function TextOf(p: Piece, ch: byte, escapes: bool): bytes
    requires Legal(p, ch, escapes)
  {
    match p
    case Raw(b) => [b]
    case Twice => [ch, ch]
    case Gap(space) => [ch] + space + [ch]
    case Quoted => [BACKSLASH, ch]
    case Letter(b) => [BACKSLASH, b]
    case Octal(v) => [BACKSLASH, OctalDigit(v / 64), OctalDigit(v / 8 % 8), OctalDigit(v % 8)]
    case Hex(upper, v, caps) => [BACKSLASH, (if upper then 'X' else 'x') as int as byte] + HexText(v, caps)
    case Code(wide, v, caps) => [BACKSLASH, (if wide then 'U' else 'u') as int as byte] + HexText(v, caps)
    case Useless(b) => [BACKSLASH, b]
  }

  function LetterValue(b: byte): byte
    requires Among(b, LETTERS)
  {
    var c := b as int as char;
    if c == 'a' then 7 else if c == 'b' then 8 else if c == 'f' then 12 else if c == 'n' then 10
    else if c == 'r' then 13 else if c == 't' then 9 else if c == 'v' then 11 else BACKSLASH
  }

  /** The bytes of a code: the code point in UTF-8, U+FFFD for a surrogate, and a single byte where
      the top bit makes the code negative. */
  function CodeValue(v: int): bytes
    requires 0 <= v < 0x11_0000 || 0x8000_0000 <= v
  {
    if v >= 0x8000_0000 then [(v % 256) as byte]
    else if ValidRune(v) then EncodeRune(v)
    else EncodeRune(RUNE_ERROR)
  }

  function ValueOf(p: Piece, ch: byte, escapes: bool): bytes
    requires Legal(p, ch, escapes)
  {
    match p
    case Raw(b) => [b]
    case Twice => [ch]
    case Gap(_) => []
    case Quoted => [ch]
    case Letter(b) => [LetterValue(b)]
    case Octal(v) => [v as byte]
    case Hex(_, v, _) => [v as byte]
    case Code(_, v, _) => CodeValue(v)
    case Useless(b) => [b]
  }

  predicate AllLegal(ps: seq<Piece>, ch: byte, escapes: bool) {
    forall i :: 0 <= i < |ps| ==> Legal(ps[i], ch, escapes)
  }

  function Texts(ps: seq<Piece>, ch: byte, escapes: bool): bytes
    requires AllLegal(ps, ch, escapes)
  {
    if ps == [] then [] else TextOf(ps[0], ch, escapes) + Texts(ps[1..], ch, escapes)
  }

  function Values(ps: seq<Piece>, ch: byte, escapes: bool): bytes
    requires AllLegal(ps, ch, escapes)
  {
    if ps == [] then [] else ValueOf(ps[0], ch, escapes) + Values(ps[1..], ch, escapes)
  }

  // ------------------------------------------------- white space

  lemma BlankIs(b: byte)
    ensures Blank(b) <==> Among(b, SPACES)
  {
    assert b as int as char in SPACES <==>
           b as int as char == ' ' || b as int as char == '\t' || b as int as char == '\r' || b as int as char == '\n' ||
           b as int as char == '\U{C}';
  }

  /** skipWhitespace stops at the first other character and says whether it crossed a newline. */
  lemma {:induction false} SkipSpaceMeans(space: bytes, rest: bytes)
    requires forall i :: 0 <= i < |space| ==> Among(space[i], SPACES)
    requires rest == [] || !Among(rest[0], SPACES)
    ensures SkipSpace(space + rest) == Space('\n' as int as byte in space, rest)
    decreases |space|
  {
    if space == [] {
      assert space + rest == rest;
      if rest != [] { BlankIs(rest[0]); }
    } else {
      BlankIs(space[0]);
      assert (space + rest)[1..] == space[1..] + rest;
      SkipSpaceMeans(space[1..], rest);
    }
  }

  lemma QuoteNotSpace(ch: byte)
    requires Quote(ch)
    ensures !Among(ch, SPACES) && !Among(ch, ESCAPES) && !Among(ch, LETTERS) && ch != BACKSLASH
  {
    BlankIs(ch);
    EscapeIs(ch);
  }

  lemma EscapeIs(b: byte)
    ensures IsEscape(b) <==> Among(b, ESCAPES)
    ensures Among(b, LETTERS) ==> Among(b, ESCAPES)
  {
    var c := b as int as char;
    assert c in ESCAPES <==>
           c == 'a' || c == 'b' || c == 'f' || c == 'n' || c == 'r' || c == 't' || c == 'v' || c == 'x' || c == 'X' ||
           c == 'u' || c == 'U' || c == '\\' || '0' <= c <= '7' by {
      assert ESCAPES[0] == 'a' && ESCAPES[1] == 'b' && ESCAPES[2] == 'f' && ESCAPES[3] == 'n' && ESCAPES[4] == 'r' &&
             ESCAPES[5] == 't' && ESCAPES[6] == 'v' && ESCAPES[7] == 'x' && ESCAPES[8] == 'X' && ESCAPES[9] == 'u' &&
             ESCAPES[10] == 'U' && ESCAPES[11] == '\\' && ESCAPES[12] == '0' && ESCAPES[13] == '1' && ESCAPES[14] == '2' &&
             ESCAPES[15] == '3' && ESCAPES[16] == '4' && ESCAPES[17] == '5' && ESCAPES[18] == '6' && ESCAPES[19] == '7';
    }
    LetterIs(b);
  }

  lemma LetterIs(b: byte)
    ensures Among(b, LETTERS) <==>
            b == CHAR_A || b == CHAR_B || b == CHAR_F || b == CHAR_N || b == CHAR_R || b == CHAR_T || b == CHAR_V || b == BACKSLASH
  {
    assert LETTERS[0] == 'a' && LETTERS[1] == 'b' && LETTERS[2] == 'f' && LETTERS[3] == 'n' && LETTERS[4] == 'r' &&
           LETTERS[5] == 't' && LETTERS[6] == 'v' && LETTERS[7] == '\\';
  }

  // ------------------------------------------------- escapes

  lemma DigitReads(v: int, capital: bool)
    requires 0 <= v < 16
    ensures Unhex(Digit(v, capital)) == v
  {
    assert v == 0 || v == 1 || v == 2 || v == 3 || v == 4 || v == 5 || v == 6 || v == 7 || v == 8 || v == 9 ||
           v == 10 || v == 11 || v == 12 || v == 13 || v == 14 || v == 15;
  }

  lemma DigitWrites(b: byte) returns (capital: bool)
    requires Unhex(b) >= 0
    ensures Unhex(b) < 16 && Digit(Unhex(b), capital) == b
  {
    capital := UPPER_A <= b <= UPPER_F;
    DigitReads(Unhex(b), capital);
    UnhexOnce(b, Digit(Unhex(b), capital), capital);
  }

  lemma UnhexOnce(b: byte, c: byte, capital: bool)
    requires Unhex(b) == Unhex(c) >= 0 && capital == (UPPER_A <= b <= UPPER_F)
    requires c == Digit(Unhex(b), capital)
    ensures b == c
  {
    var v := Unhex(b);
    assert v == 0 || v == 1 || v == 2 || v == 3 || v == 4 || v == 5 || v == 6 || v == 7 || v == 8 || v == 9 ||
           v == 10 || v == 11 || v == 12 || v == 13 || v == 14 || v == 15;
  }

  lemma {:induction false} HexTextReads(v: int, caps: seq<bool>)
    requires 0 <= v < Pow16(|caps|)
    ensures HexValue(HexText(v, caps)) == v
    decreases |caps|
  {
    if caps != [] {
      var n := |caps| - 1;
      HexTextReads(v / 16, caps[..n]);
      DigitReads(v % 16, caps[n]);
      assert HexText(v, caps)[..n] == HexText(v / 16, caps[..n]);
    }
  }

  lemma {:induction false} HexTextWrites(s: bytes) returns (caps: seq<bool>)
    requires HexValue(s) >= 0
    ensures |caps| == |s| && HexValue(s) < Pow16(|s|) && HexText(HexValue(s), caps) == s
    decreases |s|
  {
    if s == [] {
      caps := [];
    } else {
      var n := |s| - 1;
      var front := HexTextWrites(s[..n]);
      var capital := DigitWrites(s[n]);
      caps := front + [capital];
      assert caps[..n] == front;
      assert HexValue(s) == 16 * HexValue(s[..n]) + Unhex(s[n]);
      assert HexValue(s) / 16 == HexValue(s[..n]) && HexValue(s) % 16 == Unhex(s[n]);
      assert s == s[..n] + [s[n]];
    }
  }

  predicate Escaping(p: Piece) {
    p.Letter? || p.Octal? || p.Hex? || p.Code?
  }

  /** What UnquoteChar makes of an escape: its value, and that it ends where the piece ends. */
  lemma EscapeUnquotes(p: Piece, ch: byte, rest: bytes)
    requires Quote(ch) && Legal(p, ch, true) && Escaping(p)
    ensures var t := TextOf(p, ch, true)[1..]; var u := UnquoteAt(t + rest, ch);
            IsEscape(t[0]) && u.Char? && u.used == |t| && Appended(u) == ValueOf(p, ch, true)
  {
    hide UnquoteAt, IsEscape, HexText, CodeValue, Appended, OctalDigit, LetterValue;
    match p
    case Letter(b) => LetterUnquotes(b, ch, rest); OneByte(LetterValue(b) as int, 1); assert TextOf(p, ch, true)[1..] == [b];
    case Octal(v) => OctalUnquotes(v, ch, rest); OneByte(v, 3);
    case Hex(upper, v, caps) => HexUnquotes(upper, v, caps, ch, rest); OneByte(v, 3);
    case Code(wide, v, caps) => CodeUnquotes(wide, v, caps, ch, rest);
  }

  lemma OneByte(v: int, used: nat)
    requires 0 <= v < 256
    ensures Appended(Char(v, false, used)) == [v as byte]
  {
  }

  lemma LetterUnquotes(b: byte, ch: byte, rest: bytes)
    requires Among(b, LETTERS)
    ensures IsEscape(b) && UnquoteAt([b] + rest, ch) == Char(LetterValue(b) as int, false, 1)
  {
    LetterIs(b);
  }

  lemma OctalUnquotes(v: int, ch: byte, rest: bytes)
    requires 0 <= v < 256
    ensures var t := TextOf(Octal(v), ch, true)[1..];
            t != [] && IsEscape(t[0]) && UnquoteAt(t + rest, ch) == Char(v, false, 3)
  {
    hide OctalDigit;
    var a, b, c := v / 64, v / 8 % 8, v % 8;
    assert v == a * 64 + b * 8 + c;
    OctalDigitIs(a);
    OctalDigitIs(b);
    OctalDigitIs(c);
    assert (TextOf(Octal(v), ch, true)[1..] + rest)[..3] == [CHAR_0 + a as byte, CHAR_0 + b as byte, CHAR_0 + c as byte];
  }

  lemma OctalDigitIs(v: int)
    requires 0 <= v < 8
    ensures OctalDigit(v) == CHAR_0 + v as byte
  {
    assert v == 0 || v == 1 || v == 2 || v == 3 || v == 4 || v == 5 || v == 6 || v == 7;
  }

  lemma HexUnquotes(upper: bool, v: int, caps: seq<bool>, ch: byte, rest: bytes)
    requires 0 <= v < 256 && |caps| == 2
    ensures var t := TextOf(Hex(upper, v, caps), ch, true)[1..];
            t != [] && IsEscape(t[0]) && UnquoteAt(t + rest, ch) == Char(v, false, 3)
  {
    var h := HexText(v, caps);
    assert Pow16(2) == 256 by { assert Pow16(1) == 16; }
    HexTextReads(v, caps);
    var t := TextOf(Hex(upper, v, caps), ch, true)[1..];
    assert t == [if upper then UPPER_X else CHAR_X] + h;
    assert (t + rest)[1..3] == h && ([CHAR_X] + h)[1..3] == h;
  }

  lemma CodeUnquotes(wide: bool, v: int, caps: seq<bool>, ch: byte, rest: bytes)
    requires Legal(Code(wide, v, caps), ch, true)
    ensures var t := TextOf(Code(wide, v, caps), ch, true)[1..]; var u := UnquoteAt(t + rest, ch);
            t != [] && IsEscape(t[0]) && u.Char? && u.used == |t| && Appended(u) == CodeValue(v)
  {
    hide HexText, EncodeRune;
    var h, n := HexText(v, caps), |caps|;
    HexTextReads(v, caps);
    CodeRange(v, n);
    var t := TextOf(Code(wide, v, caps), ch, true)[1..];
    assert t == [if wide then UPPER_U else CHAR_U] + h;
    assert (t + rest)[1..1 + n] == h;
    SmallRune(v);
  }

  lemma CodeRange(v: int, n: nat)
    requires (n == 4 || n == 8) && 0 <= v < Pow16(n)
    ensures v < 0x1_0000_0000
    ensures ToInt32(v) == if v >= 0x8000_0000 then v - 0x1_0000_0000 else v
  {
    assert Pow16(4) == 0x1_0000 by { assert Pow16(2) == 256; }
    assert Pow16(8) == 0x1_0000_0000 by { assert Pow16(6) == 0x100_0000; }
  }

  /** One byte is its own encoding, and a negative code keeps its last byte. */
  lemma SmallRune(v: int)
    requires 0 <= v < 0x1_0000_0000
    ensures v < RUNE_SELF ==> EncodeRune(v) == [(v % 256) as byte]
    ensures (v - 0x1_0000_0000) % 256 == v % 256
  {
  }

  /** An escape that UnquoteChar accepts is a piece. */
  lemma UnquotedIsPiece(s: bytes, ch: byte) returns (p: Piece)
    requires Quote(ch) && s != [] && IsEscape(s[0]) && UnquoteAt(s, ch).Char?
    ensures Legal(p, ch, true) && Escaping(p) && [BACKSLASH] + s[..UnquoteAt(s, ch).used] == TextOf(p, ch, true)
  {
    var c, n := s[0], UnquoteAt(s, ch).used;
    LetterIs(c);
    EscapeIs(c);
    if Among(c, LETTERS) {
      p := Letter(c);
    } else if c == CHAR_X || c == UPPER_X {
      p := HexPiece(s, ch);
    } else if c == CHAR_U || c == UPPER_U {
      p := CodePiece(s, ch);
    } else {
      p := OctalPiece(s, ch);
    }
  }

  lemma HexAccepts(s: bytes, ch: byte)
    requires s != [] && (s[0] == CHAR_X || s[0] == UPPER_X) && UnquoteAt(s, ch).Char?
    ensures |s| >= 3 && HexValue(s[1..3]) >= 0 && UnquoteAt(s, ch).used == 3
  {
    hide HexValue;
    if s[0] == UPPER_X && |s| >= 3 { assert ([CHAR_X] + s[1..3])[1..3] == s[1..3]; }
  }

  lemma HexPiece(s: bytes, ch: byte) returns (p: Piece)
    requires Quote(ch) && s != [] && (s[0] == CHAR_X || s[0] == UPPER_X) && UnquoteAt(s, ch).Char?
    ensures Legal(p, ch, true) && p.Hex? && [BACKSLASH] + s[..UnquoteAt(s, ch).used] == TextOf(p, ch, true)
  {
    hide UnquoteAt, HexValue, HexText;
    HexAccepts(s, ch);
    var caps := HexTextWrites(s[1..3]);
    assert Pow16(2) == 256 by { assert Pow16(1) == 16; }
    p := Hex(s[0] == UPPER_X, HexValue(s[1..3]), caps);
    assert s[..3] == [s[0]] + s[1..3];
  }

  lemma CodeAccepts(s: bytes, ch: byte)
    requires s != [] && (s[0] == CHAR_U || s[0] == UPPER_U) && UnquoteAt(s, ch).Char?
    ensures var n := if s[0] == CHAR_U then 4 else 8;
            |s| >= 1 + n && HexValue(s[1..1 + n]) >= 0 && UnquoteAt(s, ch).used == 1 + n && ToInt32(HexValue(s[1..1 + n])) < 0x11_0000
  {
    hide HexValue;
  }

  lemma CodePiece(s: bytes, ch: byte) returns (p: Piece)
    requires Quote(ch) && s != [] && (s[0] == CHAR_U || s[0] == UPPER_U) && UnquoteAt(s, ch).Char?
    ensures Legal(p, ch, true) && p.Code? && [BACKSLASH] + s[..UnquoteAt(s, ch).used] == TextOf(p, ch, true)
  {
    hide Pow16, UnquoteAt, HexValue, HexText, ToInt32;
    CodeAccepts(s, ch);
    var n := if s[0] == CHAR_U then 4 else 8;
    var h := s[1..1 + n];
    var caps := HexTextWrites(h);
    CodeRange(HexValue(h), n);
    p := Code(s[0] == UPPER_U, HexValue(h), caps);
    assert s[..1 + n] == [s[0]] + h;
  }

  lemma OctalParts(a: int, b: int, c: int)
    requires 0 <= a < 8 && 0 <= b < 8 && 0 <= c < 8
    ensures var v := a * 64 + b * 8 + c; v / 64 == a && v / 8 % 8 == b && v % 8 == c
  {
  }

  lemma OctalAccepts(s: bytes, ch: byte)
    requires s != [] && CHAR_0 <= s[0] <= CHAR_7 && UnquoteAt(s, ch).Char?
    ensures |s| >= 3 && CHAR_0 <= s[1] <= CHAR_7 && CHAR_0 <= s[2] <= CHAR_7 && UnquoteAt(s, ch).used == 3
    ensures (s[0] - CHAR_0) as int * 64 + (s[1] - CHAR_0) as int * 8 + (s[2] - CHAR_0) as int < 256
  {
  }

  lemma OctalPiece(s: bytes, ch: byte) returns (p: Piece)
    requires Quote(ch) && s != [] && CHAR_0 <= s[0] <= CHAR_7 && UnquoteAt(s, ch).Char?
    ensures Legal(p, ch, true) && p.Octal? && [BACKSLASH] + s[..UnquoteAt(s, ch).used] == TextOf(p, ch, true)
  {
    hide UnquoteAt, OctalDigit;
    OctalAccepts(s, ch);
    var a, b, c := (s[0] - CHAR_0) as int, (s[1] - CHAR_0) as int, (s[2] - CHAR_0) as int;
    p := Octal(a * 64 + b * 8 + c);
    OctalParts(a, b, c);
    OctalDigitIs(a);
    OctalDigitIs(b);
    OctalDigitIs(c);
    assert s[..3] == [s[0], s[1], s[2]];
  }

  // ------------------------------------------------- reading pieces

  /** Every piece is read as its value, whatever follows. */
  lemma PieceReads(p: Piece, ch: byte, escapes: bool, rest: bytes)
    requires Quote(ch) && Legal(p, ch, escapes)
    ensures Body(TextOf(p, ch, escapes) + rest, ch, escapes) == Prepend(ValueOf(p, ch, escapes), Body(rest, ch, escapes))
  {
    QuoteNotSpace(ch);
    if Escaping(p) {
      EscapeReads(p, ch, rest);
    } else {
      match p
      case Raw(b) => RawReads(b, ch, escapes, rest);
      case Twice => assert ([ch, ch] + rest)[2..] == rest;
      case Gap(space) => GapReads(space, ch, escapes, rest);
      case Quoted => assert ([BACKSLASH, ch] + rest)[2..] == rest;
      case Useless(b) => UselessReads(b, ch, rest);
    }
  }

  lemma RawReads(b: byte, ch: byte, escapes: bool, rest: bytes)
    requires b != ch && !(escapes && b == BACKSLASH)
    ensures Body([b] + rest, ch, escapes) == Prepend([b], Body(rest, ch, escapes))
  {
    assert ([b] + rest)[1..] == rest;
  }

  lemma UselessReads(b: byte, ch: byte, rest: bytes)
    requires b != ch && ch != BACKSLASH && !Among(b, ESCAPES)
    ensures Body([BACKSLASH, b] + rest, ch, true) == Prepend([b], Body(rest, ch, true))
  {
    EscapeIs(b);
    BackslashEscapes();
    var s := [BACKSLASH, b] + rest;
    assert s[1..] == [b] + rest;
    RawReads(b, ch, true, rest);
  }

  lemma BackslashEscapes()
    ensures Among(BACKSLASH, ESCAPES)
  {
    EscapeIs(BACKSLASH);
  }

  lemma GapReads(space: bytes, ch: byte, escapes: bool, rest: bytes)
    requires Quote(ch) && Legal(Gap(space), ch, escapes)
    ensures Body([ch] + space + [ch] + rest, ch, escapes) == Prepend([], Body(rest, ch, escapes))
  {
    QuoteNotSpace(ch);
    var s := [ch] + space + [ch] + rest;
    assert s[1..] == space + ([ch] + rest);
    SkipSpaceMeans(space, [ch] + rest);
    assert s[1] == space[0];
    assert ([ch] + rest)[1..] == rest;
    PrependNothing(Body(rest, ch, escapes));
  }

  lemma EscapeReads(p: Piece, ch: byte, rest: bytes)
    requires Quote(ch) && Legal(p, ch, true) && Escaping(p)
    ensures Body(TextOf(p, ch, true) + rest, ch, true) == Prepend(ValueOf(p, ch, true), Body(rest, ch, true))
  {
    hide UnquoteAt, IsEscape, Appended, ValueOf;
    EscapeUnquotes(p, ch, rest);
    QuoteNotSpace(ch);
    var t := TextOf(p, ch, true);
    var s := t + rest;
    assert s[1..] == t[1..] + rest && s[0] == BACKSLASH && s[1] == t[1];
    EscapeNotQuote(t[1], ch);
    assert s[|t|..] == rest;
  }

  lemma EscapeNotQuote(b: byte, ch: byte)
    requires Quote(ch) && IsEscape(b)
    ensures b != ch
  {
    QuoteNotSpace(ch);
    EscapeIs(b);
  }

  lemma {:induction false} PiecesRead(ps: seq<Piece>, ch: byte, escapes: bool, rest: bytes)
    requires Quote(ch) && AllLegal(ps, ch, escapes)
    ensures Body(Texts(ps, ch, escapes) + rest, ch, escapes) == Prepend(Values(ps, ch, escapes), Body(rest, ch, escapes))
    decreases |ps|
  {
    hide TextOf, ValueOf, Legal, Body;
    if ps == [] {
      assert Texts(ps, ch, escapes) + rest == rest;
      PrependNothing(Body(rest, ch, escapes));
    } else {
      var tail := Texts(ps[1..], ch, escapes) + rest;
      PiecesRead(ps[1..], ch, escapes, rest);
      PieceReads(ps[0], ch, escapes, tail);
      assert Texts(ps, ch, escapes) + rest == TextOf(ps[0], ch, escapes) + tail;
      Prepends(ValueOf(ps[0], ch, escapes), Values(ps[1..], ch, escapes), Body(rest, ch, escapes));
    }
  }

  // ------------------------------------------------- every input is pieces and an end

  /** An escape that is no piece. */
  ghost predicate Broken(t: bytes, ch: byte) {
    |t| > 1 && t[0] == BACKSLASH && Among(t[1], ESCAPES) && forall p :: Legal(p, ch, true) ==> !(TextOf(p, ch, true) <= t)
  }

  /** A closing quote that the text behind it does not continue. */
  predicate Closed(t: bytes, ch: byte) {
    t != [] && t[0] == ch && !Continues(t[1..], ch)
  }

  /** What follows the last piece. */
  ghost predicate Ends(t: bytes, ch: byte, escapes: bool) {
    t == [] || (escapes && (t == [BACKSLASH] || Broken(t, ch))) || Closed(t, ch)
  }

  lemma BrokenReads(t: bytes, ch: byte)
    requires Quote(ch) && Broken(t, ch)
    ensures Body(t, ch, true) == BadEscape
  {
    hide UnquoteAt, TextOf, Legal;
    EscapeIs(t[1]);
    EscapeNotQuote(t[1], ch);
    QuoteNotSpace(ch);
    if UnquoteAt(t[1..], ch).Char? { UnquotedStarts(t, ch); }
  }

  lemma UnquotedStarts(t: bytes, ch: byte)
    requires Quote(ch) && |t| > 1 && t[0] == BACKSLASH && IsEscape(t[1]) && UnquoteAt(t[1..], ch).Char?
    ensures exists p :: Legal(p, ch, true) && TextOf(p, ch, true) <= t
  {
    hide UnquoteAt, TextOf, Legal;
    var p := UnquotedIsPiece(t[1..], ch);
    assert [BACKSLASH] + t[1..][..UnquoteAt(t[1..], ch).used] <= t;
  }

  /** How each end is read. */
  lemma EndReads(t: bytes, ch: byte, escapes: bool)
    requires Quote(ch) && Ends(t, ch, escapes)
    ensures Body(t, ch, escapes) ==
      if Closed(t, ch) then Done([], SkipSpace(t[1..]).rest)
      else if escapes && Broken(t, ch) then BadEscape else Unterminated
  {
    QuoteNotSpace(ch);
    if Closed(t, ch) {
      PrependNothing(Body([ch] + t[1..], ch, escapes));
      Closing(t[1..], ch, escapes, []);
      assert [ch] + t[1..] == t;
    } else if escapes && Broken(t, ch) {
      BrokenReads(t, ch);
    } else if t == [BACKSLASH] {
      assert t[1..] == [];
    }
  }

  /** The first piece of a text, if that is not an end. */
  lemma FirstPiece(s: bytes, ch: byte, escapes: bool) returns (p: Piece, rest: bytes)
    requires Quote(ch) && !Ends(s, ch, escapes)
    ensures Legal(p, ch, escapes) && s == TextOf(p, ch, escapes) + rest
  {
    QuoteNotSpace(ch);
    if s[0] == ch {
      p, rest := QuotePiece(s, ch, escapes);
    } else if escapes && s[0] == BACKSLASH {
      if s[1] == ch {
        p, rest := Quoted, s[2..];
      } else if Among(s[1], ESCAPES) {
        var q :| Legal(q, ch, true) && TextOf(q, ch, true) <= s;
        p, rest := q, s[|TextOf(q, ch, true)|..];
      } else {
        p, rest := Useless(s[1]), s[2..];
      }
    } else {
      p, rest := Raw(s[0]), s[1..];
    }
  }

  lemma QuotePiece(s: bytes, ch: byte, escapes: bool) returns (p: Piece, rest: bytes)
    requires Quote(ch) && s != [] && s[0] == ch && Continues(s[1..], ch)
    ensures Legal(p, ch, escapes) && s == TextOf(p, ch, escapes) + rest
  {
    if s[1..] != [] && s[1] == ch {
      p, rest := Twice, s[2..];
    } else {
      var space := Spaces(s[1..]);
      p, rest := Gap(space), SkipSpace(s[1..]).rest[1..];
      assert s == [ch] + s[1..];
    }
  }

  /** The white space that is skipped. */
  lemma {:induction false} Spaces(s: bytes) returns (space: bytes)
    ensures s == space + SkipSpace(s).rest && forall i :: 0 <= i < |space| ==> Among(space[i], SPACES)
    ensures SkipSpace(s).newline <==> '\n' as int as byte in space
    decreases |s|
  {
    if s == [] {
      space := [];
    } else {
      BlankIs(s[0]);
      if Blank(s[0]) {
        var tail := Spaces(s[1..]);
        space := [s[0]] + tail;
      } else {
        space := [];
      }
    }
  }

  lemma {:induction false} Dissect(s: bytes, ch: byte, escapes: bool) returns (ps: seq<Piece>, end: bytes)
    requires Quote(ch)
    ensures AllLegal(ps, ch, escapes) && s == Texts(ps, ch, escapes) + end && Ends(end, ch, escapes)
    decreases |s|
  {
    hide Ends, Legal, TextOf;
    if Ends(s, ch, escapes) {
      ps, end := [], s;
    } else {
      var p, rest := FirstPiece(s, ch, escapes);
      PieceNotEmpty(p, ch, escapes);
      var qs;
      qs, end := Dissect(rest, ch, escapes);
      ps := [p] + qs;
      assert ps[1..] == qs;
    }
  }

  lemma PieceNotEmpty(p: Piece, ch: byte, escapes: bool)
    requires Legal(p, ch, escapes)
    ensures TextOf(p, ch, escapes) != []
  {
  }

  /** What stands between the quotes of a literal is read as its pieces up to the end: the values one
      behind the other if it is closed, the errors otherwise; and every text is pieces and an end. */
  lemma ScanMeans(s: bytes, ch: byte, escapes: bool, requireUtf8: bool) returns (ps: seq<Piece>, end: bytes)
    requires Quote(ch)
    ensures AllLegal(ps, ch, escapes) && s == Texts(ps, ch, escapes) + end && Ends(end, ch, escapes)
    ensures ScanString(s, ch, escapes, requireUtf8) ==
      if Closed(end, ch) then
        if requireUtf8 && !Valid(Values(ps, ch, escapes)) then InvalidUtf8
        else Done(Values(ps, ch, escapes), SkipSpace(end[1..]).rest)
      else if escapes && Broken(end, ch) then BadEscape else Unterminated
  {
    hide Ends, Body, Closed, Broken;
    ps, end := Dissect(s, ch, escapes);
    PiecesRead(ps, ch, escapes, end);
    EndReads(end, ch, escapes);
    assert Values(ps, ch, escapes) + [] == Values(ps, ch, escapes);
  }

  // ------------------------------------------------- literals

  datatype Form = Single | Double | Byte | Escape(upper: bool)

  function Prefix(f: Form): string {
    match f
    case Single => "'"
    case Double => "\""
    case Byte => "b'"
    case Escape(upper) => if upper then "E'" else "e'"
  }

  function AsBytes(s: string): (b: bytes)
    requires forall i :: 0 <= i < |s| ==> s[i] as int < 128
    ensures |b| == |s| && forall i :: 0 <= i < |s| ==> b[i] as int == s[i] as int
  {
    seq(|s|, i requires 0 <= i < |s| => s[i] as int as byte)
  }

  function QuoteOf(f: Form): byte {
    if f.Double? then IDENT_QUOTE else QUOTE
  }

  predicate Escapes(f: Form) {
    f.Byte? || f.Escape?
  }

  function TokenKind(f: Form): Kind {
    if f.Double? then Ident else if f.Byte? then BytesConst else StringConst
  }

  /** Quoted text of any form is one token with the values of its pieces, byte strings excepted only
      if these are valid UTF-8; prefixes of either case read the same. */
  lemma LiteralReads(f: Form, ps: seq<Piece>, suffix: bytes)
    requires AllLegal(ps, QuoteOf(f), Escapes(f)) && !Continues(suffix, QuoteOf(f))
    ensures var v := Values(ps, QuoteOf(f), Escapes(f));
            ScanLiteral(AsBytes(Prefix(f)) + Texts(ps, QuoteOf(f), Escapes(f)) + [QuoteOf(f)] + suffix) ==
            if !f.Byte? && !Valid(v) then Failed(InvalidUtf8) else Literal(TokenKind(f), v, SkipSpace(suffix).rest)
  {
    hide Body, Continues, Legal, Texts, Values, SkipSpace, Valid;
    var ch, e := QuoteOf(f), Escapes(f);
    var text, tail := Texts(ps, ch, e), [ch] + suffix;
    var s := AsBytes(Prefix(f)) + text + [ch] + suffix;
    assert s[|Prefix(f)|..] == text + tail;
    assert Prefix(f)[0] == s[0] as int as char && (|Prefix(f)| == 2 ==> Prefix(f)[1] == s[1] as int as char);
    PiecesRead(ps, ch, e, tail);
    Closing(suffix, ch, e, Values(ps, ch, e));
  }

  // ------------------------------------------------- what the writers write

  /** How the writers put a byte: a letter escape if it has one, a quote behind a backslash, other
      unprintable bytes in hexadecimal, printable ones as they are. */
  function WrittenAs(b: byte): (p: Piece)
    ensures Legal(p, QUOTE, true)
  {
    QuoteNotSpace(QUOTE);
    LetterIs(CHAR_B);
    LetterIs(CHAR_F);
    LetterIs(CHAR_N);
    LetterIs(CHAR_R);
    LetterIs(CHAR_T);
    LetterIs(BACKSLASH);
    if b == 8 then Letter('b' as int as byte)
    else if b == 12 then Letter('f' as int as byte)
    else if b == 10 then Letter('n' as int as byte)
    else if b == 13 then Letter('r' as int as byte)
    else if b == 9 then Letter('t' as int as byte)
    else if b == BACKSLASH then Letter(BACKSLASH)
    else if b == QUOTE then Quoted
    else if b < 32 || b > 126 then Hex(false, b as int, [false, false])
    else Raw(b)
  }

  lemma ByteWrites(b: byte)
    ensures EscapedByte(b) == TextOf(WrittenAs(b), QUOTE, true) && ValueOf(WrittenAs(b), QUOTE, true) == [b]
  {
    hide HexText, HexMap, Digit;
    if b == 8 || b == 9 || b == 10 || b == 12 || b == 13 || b == BACKSLASH {
      LetterWrites(b);
    } else if b < 32 || b > 126 {
      HexWrites(b);
    }
  }

  lemma LetterWrites(b: byte)
    requires b == 8 || b == 9 || b == 10 || b == 12 || b == 13 || b == BACKSLASH
    ensures EscapedByte(b) == TextOf(WrittenAs(b), QUOTE, true) && ValueOf(WrittenAs(b), QUOTE, true) == [b]
  {
    hide HexText, HexMap, Digit;
  }

  lemma HexWrites(b: byte)
    ensures HexMap(b) == TextOf(Hex(false, b as int, [false, false]), QUOTE, true)
  {
    LowDigit(b as int / 16);
    LowDigit(b as int % 16);
    assert [false, false][..1] == [false] && [false][..0] == [];
    assert HexText(b as int, [false, false]) == [Digit(b as int / 16, false), Digit(b as int % 16, false)];
  }

  lemma LowDigit(v: int)
    requires 0 <= v < 16
    ensures HexDigit(v) == Digit(v, false) && UpperDigit(v) == Digit(v, true)
  {
    assert v == 0 || v == 1 || v == 2 || v == 3 || v == 4 || v == 5 || v == 6 || v == 7 || v == 8 || v == 9 ||
           v == 10 || v == 11 || v == 12 || v == 13 || v == 14 || v == 15;
  }

  function WrittenAll(s: bytes): (ps: seq<Piece>)
    ensures |ps| == |s| && AllLegal(ps, QUOTE, true)
  {
    if s == [] then [] else [WrittenAs(s[0])] + WrittenAll(s[1..])
  }

  /** A byte literal is written piece by piece. */
  lemma {:induction false} BytesWrite(s: bytes)
    ensures EscapedBytes(s) == Texts(WrittenAll(s), QUOTE, true)
    decreases |s|
  {
    if s != [] {
      ByteWrites(s[0]);
      BytesWrite(s[1..]);
      assert WrittenAll(s)[1..] == WrittenAll(s[1..]);
    }
  }

  function Capitals(n: nat): (caps: seq<bool>)
    ensures |caps| == n && forall i :: 0 <= i < n ==> caps[i]
  {
    seq(n, _ => true)
  }

  lemma {:induction false} UpperWrites(v: int, n: nat)
    requires v >= 0
    ensures UpperHex(v, n) == HexText(v, Capitals(n))
    decreases n
  {
    if n > 0 {
      assert Capitals(n)[..n - 1] == Capitals(n - 1);
      UpperWrites(v / 16, n - 1);
      LowDigit(v % 16);
    }
  }

  /** An escaped rune of a valid string: up to one byte as above, two bytes by a short code, three and
      four by a long one with capital digits; only U+FFFD goes byte by byte. */
  lemma RuneWrites(s: bytes, i: nat)
    requires i < |s| && DecodeRune(s[i..]) != INVALID && !Plain(DecodeRune(s[i..]))
    ensures var r := DecodeRune(s[i..]);
            EscapedChar(s, r, i) ==
              if r.size == 1 then TextOf(WrittenAs(s[i]), QUOTE, true)
              else if r.value == RUNE_ERROR then Texts(WrittenAll(s[i..i + 3]), QUOTE, true)
              else TextOf(RunePiece(r), QUOTE, true)
  {
    hide HexText, UpperHex, HexMap;
    var r := DecodeRune(s[i..]);
    assert s[i..][0] == s[i];
    if r.size == 1 {
      ByteWrites(s[i]);
    } else if r.value == RUNE_ERROR {
      assert s[i..][..3] == s[i..i + 3];
      ThreeWrite(s[i], s[i + 1], s[i + 2]);
      assert s[i..i + 3] == [s[i], s[i + 1], s[i + 2]];
      assert s[i + 1] == s[i..][1] && s[i + 2] == s[i..][2];
    } else {
      UpperWrites(r.value, 4);
      UpperWrites(r.value, 8);
    }
  }

  lemma ThreeWrite(a: byte, b: byte, c: byte)
    requires a > 126 && b > 126 && c > 126
    ensures HexMap(a) + HexMap(b) + HexMap(c) == Texts(WrittenAll([a, b, c]), QUOTE, true)
  {
    hide HexMap, EscapedByte;
    BytesWrite([a, b, c]);
    assert [a, b, c][1..] == [b, c] && [b, c][1..] == [c] && [c][1..] == [];
    assert EscapedBytes([]) == [];
    assert EscapedBytes([c]) == EscapedByte(c);
    assert EscapedBytes([b, c]) == EscapedByte(b) + EscapedByte(c);
    assert EscapedBytes([a, b, c]) == EscapedByte(a) + (EscapedByte(b) + EscapedByte(c));
    HighByte(a);
    HighByte(b);
    HighByte(c);
  }

  lemma HighByte(b: byte)
    requires b > 126
    ensures EscapedByte(b) == HexMap(b)
  {
  }

  function RunePiece(r: Rune): (p: Piece)
    requires 2 <= r.size <= 4 && ValidRune(r.value) && (r.size == 2 ==> r.value < 0x1_0000)
    ensures Legal(p, QUOTE, true)
  {
    CodeSpace();
    Code(r.size > 2, r.value, Capitals(if r.size > 2 then 8 else 4))
  }

  lemma CodeSpace()
    ensures Pow16(4) == 0x1_0000 && Pow16(8) == 0x1_0000_0000
  {
    assert Pow16(2) == 256;
    assert Pow16(6) == 0x100_0000;
  }
}
