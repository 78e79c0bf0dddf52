/** Character escapes: the writer's tables (pkg/util/stringencoding/string_encoding.go) and the
    part of Go's strconv.UnquoteChar that the scanner uses to read them. */
module SqlEscapes {
  import opened ByteStrings
  import opened GoInts
  import opened Utf8

  const QUOTE: byte := 39
  const IDENT_QUOTE: byte := 34
  const BACKSLASH: byte := 92
  const DONT_ESCAPE: byte := 255

  // ASCII letters and digits that follow a backslash.
  const CHAR_0: byte := 48
  const CHAR_7: byte := 55
  const CHAR_A: byte := 97
  const CHAR_B: byte := 98
  const CHAR_F: byte := 102
  const CHAR_N: byte := 110
  const CHAR_R: byte := 114
  const CHAR_T: byte := 116
  const CHAR_U: byte := 117
  const CHAR_V: byte := 118
  const CHAR_X: byte := 120
  const UPPER_A: byte := 65
  const UPPER_F: byte := 70
  const UPPER_U: byte := 85
  const UPPER_X: byte := 88

  // ------------------------------------------------- writing

  /** EncodeMap. */
  function EncodeMap(ch: byte): byte {
    if ch == 8 then CHAR_B
    else if ch == 12 then CHAR_F
    else if ch == 10 then CHAR_N
    else if ch == 13 then CHAR_R
    else if ch == 9 then CHAR_T
    else if ch == BACKSLASH then BACKSLASH
    else DONT_ESCAPE
  }

  function HexDigit(v: int): byte
    requires 0 <= v < 16
  {
    if v < 10 then CHAR_0 + v as byte else CHAR_A + (v - 10) as byte
  }

  /** HexMap: backslash, x and two lower-case digits. */
  function HexMap(ch: byte): bytes {
    [BACKSLASH, CHAR_X, HexDigit(ch as int / 16), HexDigit(ch as int % 16)]
  }

  /** One digit of fmt's %04X and %08X. */
  function UpperDigit(v: int): byte
    requires 0 <= v < 16
  {
    if v < 10 then CHAR_0 + v as byte else UPPER_A + (v - 10) as byte
  }

  /** The low n hexadecimal digits of v, as fmt pads and prints them. */
  function UpperHex(v: int, n: nat): (s: bytes)
    requires v >= 0
    ensures |s| == n
  {
    if n == 0 then [] else UpperHex(v / 16, n - 1) + [UpperDigit(v % 16)]
  }

  /** EncodeEscapedChar for the rune r of in[i..], with the single quote as quoteChar. */
  function EscapedChar(s: bytes, r: Rune, i: nat): bytes
    requires i < |s| && r == DecodeRune(s[i..])
  {
    if r.value == RUNE_ERROR then
      HexMap(s[i]) + (if i + 1 < |s| then HexMap(s[i + 1]) else []) + (if i + 2 < |s| then HexMap(s[i + 2]) else [])
    else if r.size == 1 then
      if EncodeMap(s[i]) != DONT_ESCAPE then [BACKSLASH, EncodeMap(s[i])]
      else if s[i] == QUOTE then [BACKSLASH, QUOTE]
      else HexMap(s[i])
    else if r.size == 2 then [BACKSLASH, CHAR_U] + UpperHex(r.value, 4)
    else [BACKSLASH, UPPER_U] + UpperHex(r.value, 8)
  }

  // ------------------------------------------------- reading

  function Unhex(b: byte): int {
    if CHAR_0 <= b <= CHAR_0 + 9 then (b - CHAR_0) as int
    else if CHAR_A <= b <= CHAR_F then (b - CHAR_A) as int + 10
    else if UPPER_A <= b <= UPPER_F then (b - UPPER_A) as int + 10
    else -1
  }

  /** The number spelt by hexadecimal digits, or -1. */
  function HexValue(s: bytes): (v: int)
    ensures v >= -1
  {
    if s == [] then 0
    else
      var high, low := HexValue(s[..|s| - 1]), Unhex(s[|s| - 1]);
      if high < 0 || low < 0 then -1 else 16 * high + low
  }

  datatype Unquoted = Bad | Char(value: int, multibyte: bool, used: nat)

  /** UnquoteChar on a backslash followed by s, quoted by quote; `used` counts bytes of s. */
  function UnquoteChar(s: bytes, quote: byte): (u: Unquoted)
    ensures u.Char? ==> 1 <= u.used <= |s|
  {
    if s == [] then Bad
    else
      var c := s[0];
      if c == CHAR_A then Char(7, false, 1)
      else if c == CHAR_B then Char(8, false, 1)
      else if c == CHAR_F then Char(12, false, 1)
      else if c == CHAR_N then Char(10, false, 1)
      else if c == CHAR_R then Char(13, false, 1)
      else if c == CHAR_T then Char(9, false, 1)
      else if c == CHAR_V then Char(11, false, 1)
      else if c == CHAR_X || c == CHAR_U || c == UPPER_U then
        var n := if c == CHAR_X then 2 else if c == CHAR_U then 4 else 8;
        if |s| < 1 + n then Bad
        else
          var v := HexValue(s[1..1 + n]);
          if v < 0 then Bad
          else if c == CHAR_X then Char(v, false, 1 + n)
          else if ToInt32(v) >= 0x11_0000 then Bad
          else Char(ToInt32(v), true, 1 + n)
      else if CHAR_0 <= c <= CHAR_7 then
        if |s| < 3 || !(CHAR_0 <= s[1] <= CHAR_7) || !(CHAR_0 <= s[2] <= CHAR_7) then Bad
        else
          var v := (c - CHAR_0) as int * 64 + (s[1] - CHAR_0) as int * 8 + (s[2] - CHAR_0) as int;
          if v > 255 then Bad else Char(v, false, 3)
      else if c == BACKSLASH then Char(BACKSLASH as int, false, 1)
      else if c == quote && (c == QUOTE || c == IDENT_QUOTE) then Char(c as int, false, 1)
      else Bad
  }

  /** utf8.EncodeRune, which writes U+FFFD for what is not a scalar value. */
  function AppendedRune(v: int): bytes {
    if ValidRune(v) then EncodeRune(v) else EncodeRune(RUNE_ERROR)
  }

  /** What the scanner appends for an escape. */
  function Appended(u: Unquoted): bytes
    requires u.Char?
  {
    if u.value < RUNE_SELF || !u.multibyte then [(u.value % 256) as byte] else AppendedRune(u.value)
  }

  // ------------------------------------------------- reading back what is written

  function Pow16(n: nat): (p: nat)
    ensures p > 0
  {
    if n == 0 then 1 else 16 * Pow16(n - 1)
  }

  lemma {:induction false} UpperHexValue(v: int, n: nat)
    requires 0 <= v < Pow16(n)
    ensures HexValue(UpperHex(v, n)) == v
  {
    if n > 0 {
      var s := UpperHex(v, n);
      UpperHexValue(v / 16, n - 1);
      assert s[..n - 1] == UpperHex(v / 16, n - 1) && s[n - 1] == UpperDigit(v % 16);
      assert Unhex(UpperDigit(v % 16)) == v % 16;
    }
  }

  lemma HexMapUnquotes(ch: byte, rest: bytes)
    ensures UnquoteChar(HexMap(ch)[1..] + rest, QUOTE) == Char(ch as int, false, 3)
  {
    var s := HexMap(ch)[1..] + rest;
    var d := s[1..3];
    assert d == [HexDigit(ch as int / 16), HexDigit(ch as int % 16)];
    assert d[..1] == [d[0]] && d[..1][..0] == [];
    assert HexValue(d[..1]) == ch as int / 16;
    assert HexValue(d) == 16 * (ch as int / 16) + ch as int % 16;
  }

  lemma DigitsUnquote(c: byte, digits: bytes, rest: bytes, v: int)
    requires (c == CHAR_U && |digits| == 4) || (c == UPPER_U && |digits| == 8)
    requires HexValue(digits) == v && 0 <= v < 0x11_0000
    ensures UnquoteChar([c] + digits + rest, QUOTE) == Char(v, true, 1 + |digits|)
  {
    hide HexValue;
    var s := [c] + digits + rest;
    assert s[0] == c && s[1..1 + |digits|] == digits;
    assert ToInt32(v) == v;
  }

  lemma RuneUnquotes(v: int, rest: bytes)
    requires ValidRune(v)
    ensures v < 0x1_0000 ==> UnquoteChar([CHAR_U] + UpperHex(v, 4) + rest, QUOTE) == Char(v, true, 5)
    ensures UnquoteChar([UPPER_U] + UpperHex(v, 8) + rest, QUOTE) == Char(v, true, 9)
  {
    Pow16Values();
    hide UpperHex, HexValue, Pow16, UnquoteChar;
    if v < 0x1_0000 {
      UpperHexValue(v, 4);
      DigitsUnquote(CHAR_U, UpperHex(v, 4), rest, v);
    }
    UpperHexValue(v, 8);
    DigitsUnquote(UPPER_U, UpperHex(v, 8), rest, v);
  }

  lemma Pow16Values()
    ensures Pow16(4) == 0x1_0000 && Pow16(8) == 0x1_0000_0000
  {
    assert Pow16(2) == 256;
    assert Pow16(6) == 0x100_0000;
  }
}
