/** UTF-8 (section 3 of RFC 3629) as Go decodes and encodes it. */
module Utf8 {
  import opened ByteStrings

  const RUNE_SELF := 0x80
  const RUNE_ERROR := 0xFFFD

  predicate Continuation(b: byte) {
    0x80 <= b < 0xC0
  }

  /** The first rune and the number of bytes it takes; an invalid byte is RUNE_ERROR of one byte. */
  datatype Rune = Rune(value: int, size: nat)

  const INVALID := Rune(RUNE_ERROR, 1)

  function DecodeRune(s: bytes): (r: Rune)
    requires s != []
    ensures 1 <= r.size <= |s| && r.size <= 4
  {
    var b := s[0];
    if b < 0x80 then Rune(b as int, 1)
    else if 0xC2 <= b < 0xE0 && |s| >= 2 && Continuation(s[1]) then
      Rune((b as int - 0xC0) * 64 + (s[1] as int - 0x80), 2)
    else if 0xE0 <= b < 0xF0 && |s| >= 3 && Continuation(s[1]) && Continuation(s[2]) then
      var v := (b as int - 0xE0) * 4096 + (s[1] as int - 0x80) * 64 + (s[2] as int - 0x80);
      if 0x800 <= v && !(0xD800 <= v < 0xE000) then Rune(v, 3) else INVALID
    else if 0xF0 <= b < 0xF5 && |s| >= 4 && Continuation(s[1]) && Continuation(s[2]) && Continuation(s[3]) then
      var v := (b as int - 0xF0) * 262144 + (s[1] as int - 0x80) * 4096 + (s[2] as int - 0x80) * 64 + (s[3] as int - 0x80);
      if 0x1_0000 <= v < 0x11_0000 then Rune(v, 4) else INVALID
    else INVALID
  }

  predicate Valid(s: bytes) {
    s == [] || (DecodeRune(s) != INVALID && Valid(s[DecodeRune(s).size..]))
  }

  /** Unicode scalar values. */
  predicate ValidRune(v: int) {
    0 <= v < 0xD800 || 0xE000 <= v < 0x11_0000
  }

  function RuneLen(v: int): (n: nat)
    requires ValidRune(v)
  {
    if v < 0x80 then 1 else if v < 0x800 then 2 else if v < 0x1_0000 then 3 else 4
  }

  function EncodeRune(v: int): (s: bytes)
    requires ValidRune(v)
    ensures |s| == RuneLen(v)
  {
    if v < 0x80 then [v as byte]
    else if v < 0x800 then [(0xC0 + v / 64) as byte, (0x80 + v % 64) as byte]
    else if v < 0x1_0000 then [(0xE0 + v / 4096) as byte, (0x80 + v / 64 % 64) as byte, (0x80 + v % 64) as byte]
    else [(0xF0 + v / 262144) as byte, (0x80 + v / 4096 % 64) as byte, (0x80 + v / 64 % 64) as byte, (0x80 + v % 64) as byte]
  }

  /** Decoding then encoding gives the bytes back, unless they were invalid. */
  lemma DecodedEncodes(s: bytes)
    requires s != [] && DecodeRune(s) != INVALID
    ensures ValidRune(DecodeRune(s).value) && EncodeRune(DecodeRune(s).value) == s[..DecodeRune(s).size]
    ensures RuneLen(DecodeRune(s).value) == DecodeRune(s).size
  {
    var r := DecodeRune(s);
    if r.size == 1 {
      assert s[..1] == [s[0]];
    } else if r.size == 2 {
      Encoded2(s[0] as int - 0xC0, s[1] as int - 0x80);
      assert s[..2] == [s[0], s[1]];
    } else if r.size == 3 {
      Encoded3(s[0] as int - 0xE0, s[1] as int - 0x80, s[2] as int - 0x80);
      assert s[..3] == [s[0], s[1], s[2]];
    } else {
      Encoded4(s[0] as int - 0xF0, s[1] as int - 0x80, s[2] as int - 0x80, s[3] as int - 0x80);
      assert s[..4] == [s[0], s[1], s[2], s[3]];
    }
    hide EncodeRune;
  }

  lemma Encoded2(a: int, b: int)
    requires 2 <= a < 32 && 0 <= b < 64
    ensures var v := a * 64 + b; ValidRune(v) && EncodeRune(v) == [(0xC0 + a) as byte, (0x80 + b) as byte]
  {
    TwoDigits(a, b);
  }

  lemma Encoded3(a: int, b: int, c: int)
    requires 0 <= a < 16 && 0 <= b < 64 && 0 <= c < 64
    requires var v := a * 4096 + b * 64 + c; 0x800 <= v && ValidRune(v)
    ensures EncodeRune(a * 4096 + b * 64 + c) == [(0xE0 + a) as byte, (0x80 + b) as byte, (0x80 + c) as byte]
  {
    ThreeDigits(a, b, c);
  }

  lemma Encoded4(a: int, b: int, c: int, d: int)
    requires 0 <= a < 8 && 0 <= b < 64 && 0 <= c < 64 && 0 <= d < 64
    requires 0x1_0000 <= a * 262144 + b * 4096 + c * 64 + d < 0x11_0000
    ensures EncodeRune(a * 262144 + b * 4096 + c * 64 + d) ==
            [(0xF0 + a) as byte, (0x80 + b) as byte, (0x80 + c) as byte, (0x80 + d) as byte]
  {
    FourDigits(a, b, c, d);
  }

  lemma TwoDigits(a: int, b: int)
    requires 0 <= b < 64
    ensures (a * 64 + b) / 64 == a && (a * 64 + b) % 64 == b
  {
  }

  lemma ThreeDigits(a: int, b: int, c: int)
    requires 0 <= b < 64 && 0 <= c < 64
    ensures var v := a * 4096 + b * 64 + c; v / 4096 == a && v / 64 % 64 == b && v % 64 == c
  {
    var v := a * 4096 + b * 64 + c;
    assert v == (a * 64 + b) * 64 + c;
    TwoDigits(a * 64 + b, c);
    TwoDigits(a, b);
  }

  lemma FourDigits(a: int, b: int, c: int, d: int)
    requires 0 <= b < 64 && 0 <= c < 64 && 0 <= d < 64
    ensures var v := a * 262144 + b * 4096 + c * 64 + d;
            v / 262144 == a && v / 4096 % 64 == b && v / 64 % 64 == c && v % 64 == d
  {
    var v := a * 262144 + b * 4096 + c * 64 + d;
    assert v == (a * 4096 + b * 64 + c) * 64 + d;
    TwoDigits(a * 4096 + b * 64 + c, d);
    ThreeDigits(a, b, c);
    assert v / 4096 == (v / 64) / 64;
    assert v / 262144 == (v / 64) / 4096;
  }

  /** Encoding then decoding gives the rune back, whatever follows. */
  lemma EncodedDecodes(v: int, rest: bytes)
    requires ValidRune(v)
    ensures var s := EncodeRune(v) + rest; s != [] && DecodeRune(s) == Rune(v, RuneLen(v)) && DecodeRune(s) != INVALID
  {
    var s := EncodeRune(v) + rest;
    if v < 0x80 {
    } else if v < 0x800 {
      Short(v, s);
    } else if v < 0x1_0000 {
      Middle(v, s);
    } else {
      Long(v, s);
    }
  }

  lemma Short(v: int, s: bytes)
    requires 0x80 <= v < 0x800 && |s| >= 2 && s[..2] == EncodeRune(v)
    ensures DecodeRune(s) == Rune(v, 2)
  {
    assert s[0] == s[..2][0] && s[1] == s[..2][1];
  }

  lemma Middle(v: int, s: bytes)
    requires 0x800 <= v < 0x1_0000 && ValidRune(v) && |s| >= 3 && s[..3] == EncodeRune(v)
    ensures DecodeRune(s) == Rune(v, 3)
  {
    var a, b, c := v / 4096, v / 64 % 64, v % 64;
    assert v == a * 4096 + b * 64 + c;
    assert s[0] == s[..3][0] && s[1] == s[..3][1] && s[2] == s[..3][2];
    assert s[0] as int == 0xE0 + a && s[1] as int == 0x80 + b && s[2] as int == 0x80 + c;
    hide EncodeRune;
  }

  lemma Long(v: int, s: bytes)
    requires 0x1_0000 <= v < 0x11_0000 && |s| >= 4 && s[..4] == EncodeRune(v)
    ensures DecodeRune(s) == Rune(v, 4)
  {
    var a, b, c, d := v / 262144, v / 4096 % 64, v / 64 % 64, v % 64;
    Digits64(v);
    assert s[0] == s[..4][0] && s[1] == s[..4][1] && s[2] == s[..4][2] && s[3] == s[..4][3];
    assert s[0] as int == 0xF0 + a && s[1] as int == 0x80 + b && s[2] as int == 0x80 + c && s[3] as int == 0x80 + d;
    hide EncodeRune;
  }

  lemma Digits64(v: int)
    requires 0 <= v < 0x11_0000
    ensures v == v / 262144 * 262144 + v / 4096 % 64 * 4096 + v / 64 % 64 * 64 + v % 64 && v / 262144 < 5
  {
    assert v / 262144 == v / 4096 / 64;
    assert v / 4096 == v / 64 / 64;
  }

  predicate AllRunes(rs: seq<int>) {
    forall i :: 0 <= i < |rs| ==> ValidRune(rs[i])
  }

  function EncodeAll(rs: seq<int>): bytes
    requires AllRunes(rs)
  {
    if rs == [] then [] else EncodeRune(rs[0]) + EncodeAll(rs[1..])
  }

  /** Valid strings are exactly the encodings of code points other than surrogates, one behind the
      other. */
  lemma {:induction false} ValidMeans(s: bytes) returns (rs: seq<int>)
    ensures Valid(s) ==> AllRunes(rs) && s == EncodeAll(rs)
    ensures forall qs :: AllRunes(qs) && s == EncodeAll(qs) ==> Valid(s)
    decreases |s|
  {
    hide EncodeRune, DecodeRune;
    rs := [];
    if Valid(s) && s != [] {
      var n := DecodeRune(s).size;
      DecodedEncodes(s);
      var tail := ValidMeans(s[n..]);
      rs := [DecodeRune(s).value] + tail;
      assert rs[1..] == tail && s == s[..n] + s[n..];
    }
    forall qs | AllRunes(qs) && s == EncodeAll(qs) ensures Valid(s) { EncodedValid(qs); }
  }

  lemma {:induction false} EncodedValid(rs: seq<int>)
    requires AllRunes(rs)
    ensures Valid(EncodeAll(rs))
    decreases |rs|
  {
    hide EncodeRune, DecodeRune;
    if rs != [] {
      var e, t := EncodeRune(rs[0]), EncodeAll(rs[1..]);
      EncodedDecodes(rs[0], t);
      EncodedValid(rs[1..]);
      assert (e + t)[|e|..] == t;
    }
  }
}
