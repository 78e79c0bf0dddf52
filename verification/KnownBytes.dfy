/** Encodings as the repository's own tests fix them: what the laws of order and inversion leave open
    is the format itself. */
module KnownBytes {
  import opened ByteStrings
  import opened GoInts
  import opened Bitwise
  import opened Varint
  import opened KeyBytes
  import opened BitArrays
  import opened DecimalValues
  import KeyDecimal
  import KeyBitArray
  import opened KeyTokens
  import opened KeyRows
  import Durations
  import opened Json
  import opened JsonEncoding
  import JsonNumbers

  lemma OneByte(v: int)
    ensures BigEndian(v, 0) == [] && BigEndian(v, 1) == [(v % 256) as byte]
  {
  }

  lemma TwoBytes(v: int)
    ensures BigEndian(v, 2) == [(v / 256 % 256) as byte, (v % 256) as byte]
  {
    OneByte(v / 256);
  }

  lemma FourBytes(v: int)
    ensures BigEndian(v, 4) == [(v / 0x100_0000 % 256) as byte, (v / 0x1_0000 % 256) as byte, (v / 256 % 256) as byte, (v % 256) as byte]
  {
    hide BigEndian;
    var w := v / 256;
    assert BigEndian(v, 4) == BigEndian(v / 256, 3) + [(v % 256) as byte] by { Last(v, 4); }
    assert BigEndian(w, 3) == BigEndian(w / 256, 2) + [(w % 256) as byte] by { Last(w, 3); }
    TwoBytes(w / 256);
  }

  lemma Last(v: int, n: nat)
    requires n > 0
    ensures BigEndian(v, n) == BigEndian(v / 256, n - 1) + [(v % 256) as byte]
  {
  }

  lemma EightBytes(v: int)
    ensures BigEndian(v, 8) == BigEndian(v / 0x1_0000_0000, 4) + BigEndian(v, 4)
  {
    hide BigEndian;
    var a, b, c := v / 256, v / 256 / 256, v / 256 / 256 / 256;
    Last(v, 8);
    Last(a, 7);
    Last(b, 6);
    Last(c, 5);
    FourBytes(v);
    assert c / 256 == v / 0x1_0000_0000;
  }

  lemma KnownVarints()
    ensures EncodeVarintAscending(-256) == [0x86, 0xff, 0x00]
    ensures EncodeVarintAscending(-1) == [0x87, 0xff]
    ensures EncodeVarintAscending(0) == [0x88]
    ensures EncodeVarintAscending(109) == [0xf5]
    ensures EncodeVarintAscending(112) == [0xf6, 0x70]
    ensures EncodeVarintAscending(256) == [0xf7, 0x01, 0x00]
    ensures EncodeVarintDescending(-256) == [0xf6, 0xff]
    ensures EncodeVarintDescending(-110) == [0xf5]
    ensures EncodeVarintDescending(1) == [0x87, 0xfe]
    ensures EncodeVarintDescending(256) == [0x86, 0xfe, 0xff]
  {
    hide BigEndian;
    TwoBytes(-256);
    TwoBytes(256);
    TwoBytes(-257);
    OneByte(-1);
    OneByte(112);
    OneByte(255);
    OneByte(-2);
  }

  lemma KnownLongVarints()
    ensures EncodeVarintAscending(-0x8000_0000_0000_0000) == [0x80, 0x80, 0, 0, 0, 0, 0, 0, 0]
    ensures EncodeVarintAscending(0x7fff_ffff_ffff_ffff) == [0xfd, 0x7f, 0xff, 0xff, 0xff, 0xff, 0xff, 0xff, 0xff]
  {
    hide BigEndian;
    EightBytes(-0x8000_0000_0000_0000);
    FourBytes(-0x8000_0000);
    FourBytes(-0x8000_0000_0000_0000);
    EightBytes(0x7fff_ffff_ffff_ffff);
    FourBytes(0x7fff_ffff);
    FourBytes(0x7fff_ffff_ffff_ffff);
  }

  lemma KnownUvarints()
    ensures EncodeUvarintAscending(0) == [0x88]
    ensures EncodeUvarintAscending(109) == [0xf5]
    ensures EncodeUvarintAscending(110) == [0xf6, 0x6e]
    ensures EncodeUvarintAscending(256) == [0xf7, 0x01, 0x00]
    ensures EncodeUvarintAscending(0xffff_ffff_ffff_ffff) == [0xfd, 0xff, 0xff, 0xff, 0xff, 0xff, 0xff, 0xff, 0xff]
    ensures EncodeUvarintDescending(0) == [0x88]
    ensures EncodeUvarintDescending(1) == [0x87, 0xfe]
    ensures EncodeUvarintDescending(256) == [0x86, 0xfe, 0xff]
  {
    hide BigEndian;
    OneByte(110);
    TwoBytes(256);
    EightBytes(0xffff_ffff_ffff_ffff);
    FourBytes(0xffff_ffff);
    FourBytes(0xffff_ffff_ffff_ffff);
    OneByte(0xffff_ffff_ffff_fffe);
    TwoBytes(0xffff_ffff_ffff_feff);
  }

  lemma EscapedCons(b: byte, more: bytes)
    ensures Escaped([], ASCENDING) == []
    ensures Escaped([b] + more, ASCENDING) == (if b == 0 then [0, 0xff] else [b]) + Escaped(more, ASCENDING)
  {
    assert ([b] + more)[1..] == more;
  }

  lemma EscapedThree(a: byte, b: byte, c: byte)
    ensures Escaped([a, b, c], ASCENDING) ==
            (if a == 0 then [0, 0xff] else [a]) + (if b == 0 then [0, 0xff] else [b]) + (if c == 0 then [0, 0xff] else [c])
  {
    EscapedCons(c, []);
    EscapedCons(b, [c]);
    EscapedCons(a, [b, c]);
    assert [c] + [] == [c] && [b] + [c] == [b, c] && [a] + [b, c] == [a, b, c];
  }

  lemma KnownStrings()
    ensures EncodeBytesAscending([0, 1, 97]) == [0x12, 0x00, 0xff, 1, 97, 0x00, 0x01]
    ensures EncodeBytesAscending([0, 0xff, 97]) == [0x12, 0x00, 0xff, 0xff, 97, 0x00, 0x01]
  {
    hide Escaped;
    EscapedThree(0, 1, 97);
    EscapedThree(0, 0xff, 97);
  }

  lemma KnownDescendingStrings()
    ensures EncodeBytesDescending([0, 1, 97]) == [0x13, 0xff, 0x00, 0xfe, 158, 0xff, 0xfe]
    ensures EncodeBytesDescending([0, 0xff, 97]) == [0x13, 0xff, 0x00, 0x00, 158, 0xff, 0xfe]
  {
    hide Escaped;
    EscapedThree(0, 1, 97);
    EscapedThree(0, 0xff, 97);
  }

  lemma KnownBitArrays()
    ensures KeyBitArray.EncodeBitArray(BitArray([], 0), false) == [0x3a, 0, 0x88]
    ensures KeyBitArray.EncodeBitArray(BitArray([0], 1), false) == [0x3a, 0x88, 0, 0x89]
    ensures KeyBitArray.EncodeBitArray(BitArray([0x8000_0000_0000_0000], 1), false) == [0x3a, 0xfd, 0x80, 0, 0, 0, 0, 0, 0, 0, 0, 0x89]
  {
    hide BigEndian;
    EightBytes(0x8000_0000_0000_0000);
    FourBytes(0x8000_0000);
    FourBytes(0x8000_0000_0000_0000);
  }

  // ------------------------------------------------- decimals

  lemma KnownSpecials()
    ensures KeyDecimal.EncodeDecimal(KeyDecimal.NaN, false) == [0x18] && KeyDecimal.EncodeDecimal(KeyDecimal.NaN, true) == [0x36]
    ensures KeyDecimal.EncodeDecimal(KeyDecimal.Infinite(true), false) == [0x19]
    ensures KeyDecimal.EncodeDecimal(KeyDecimal.Infinite(false), false) == [0x35]
    ensures KeyDecimal.EncodeDecimal(KeyDecimal.Finite(false, 0, 0), false) == [0x27]
  {
  }

  /** Two digits make one pair, without a zero in front if the exponent is even. */
  lemma TwoDigits(negative: bool, a: digit, b: digit, exponent: int32)
    requires a != 0 && b != 0 && exponent % 2 == 0
    ensures var d := KeyDecimal.Finite(negative, 10 * a as nat + b as nat, exponent);
            KeyDecimal.EandM(d) == (exponent / 2 + 1, [(10 * a as int + b as int) as cent])
  {
    var n := 10 * a as nat + b as nat;
    var d := KeyDecimal.Finite(negative, n, exponent);
    assert Digits(n / 10) == [a];
    assert Digits(n) == [a, b];
    hide Digits;
    TwoExponents(exponent + 2);
    assert KeyDecimal.Exponent100(KeyDecimal.Exponent10(d)) == exponent / 2 + 1;
    assert StripZeros([0] + [a, b]) == [0, a, b];
    assert [0, a, b][1..] == [a, b] && [a, b][2..] == [];
    assert KeyDecimal.Significant(d) == [a, b];
    assert Pairs([]) == [];
    assert Pairs([a, b]) == [(10 * a as int + b as int) as cent];
  }

  lemma TwoExponents(e: int)
    requires e % 2 == 0
    ensures KeyDecimal.Exponent100(e) == e / 2 && 2 * KeyDecimal.Exponent100(e) == e
  {
  }

  lemma ShortNumeral(n: nat)
    requires n < 100
    ensures |Digits(n)| <= 2
  {
  }

  /** A single pair behind its tag. */
  lemma Medium(negative: bool, a: digit, b: digit)
    requires a != 0 && b != 0
    ensures var m := 2 * (10 * a as byte + b as byte);
            var d := KeyDecimal.Finite(negative, 10 * a as nat + b as nat, 0);
            KeyDecimal.Representable(d) && KeyDecimal.EncodeDecimal(d, false) ==
            if negative then [0x24, 255 - m, 0x00] else [0x2a, m, 0x00]
  {
    hide KeyDecimal.EandM;
    TwoDigits(negative, a, b, 0);
    ShortNumeral(10 * a as nat + b as nat);
    OnePair((10 * a as int + b as int) as cent);
  }

  lemma OnePair(x: cent)
    ensures KeyDecimal.Mantissa([x]) == [2 * x as byte] && Complement([2 * x as byte]) == [255 - 2 * x as byte]
  {
  }

  /** With an exponent of its own behind the tag. */
  lemma Outer(negative: bool, a: digit, b: digit, exponent: int32)
    requires a != 0 && b != 0 && exponent % 2 == 0 && (exponent < -2 || exponent > 20)
    ensures var m: bytes := [2 * (10 * a as byte + b as byte)]; var e := exponent / 2 + 1;
            var d := KeyDecimal.Finite(negative, 10 * a as nat + b as nat, exponent);
            KeyDecimal.Representable(d) && KeyDecimal.EncodeDecimal(d, false) ==
            if e < 0 then
              (if negative then [0x26] + EncodeUvarintAscending(-e) + Complement(m) + [0x00]
               else [0x28] + EncodeUvarintDescending(-e) + m + [0x00])
            else
              (if negative then [0x1a] + EncodeUvarintDescending(e) + Complement(m) + [0x00]
               else [0x34] + EncodeUvarintAscending(e) + m + [0x00])
  {
    hide KeyDecimal.EandM, EncodeUvarintAscending, EncodeUvarintDescending;
    TwoDigits(negative, a, b, exponent);
    ShortNumeral(10 * a as nat + b as nat);
    OnePair((10 * a as int + b as int) as cent);
  }

  lemma KnownDecimals()
    ensures KeyDecimal.EncodeDecimal(KeyDecimal.Finite(true, 13, 0), false) == [0x24, 0xe5, 0x00]
    ensures KeyDecimal.EncodeDecimal(KeyDecimal.Finite(false, 13, 0), false) == [0x2a, 0x1a, 0x00]
  {
    hide KeyDecimal.EncodeDecimal;
    Medium(true, 1, 3);
    Medium(false, 1, 3);
  }

  lemma KnownSmallDecimals()
    ensures KeyDecimal.EncodeDecimal(KeyDecimal.Finite(true, 11, -4), false) == [0x26, 0x89, 0xe9, 0x00]
    ensures KeyDecimal.EncodeDecimal(KeyDecimal.Finite(false, 11, -6), false) == [0x28, 0x87, 0xfd, 0x16, 0x00]
  {
    hide KeyDecimal.EncodeDecimal, BigEndian;
    Outer(true, 1, 1, -4);
    Outer(false, 1, 1, -6);
    OneByte(0xffff_ffff_ffff_fffd);
    OnePair(11);
  }

  lemma KnownLargeDecimals()
    ensures KeyDecimal.EncodeDecimal(KeyDecimal.Finite(true, 13, 1000), false) == [0x1a, 0x86, 0xfe, 0x0a, 0xe5, 0x00]
    ensures KeyDecimal.EncodeDecimal(KeyDecimal.Finite(false, 13, 1000), false) == [0x34, 0xf7, 0x01, 0xf5, 0x1a, 0x00]
  {
    hide KeyDecimal.EncodeDecimal, BigEndian;
    Outer(true, 1, 3, 1000);
    Outer(false, 1, 3, 1000);
    TwoBytes(0xffff_ffff_ffff_fe0a);
    TwoBytes(501);
    OnePair(13);
  }

  // ------------------------------------------------- tags

  lemma OneVarint(v: int64, more: seq<int64>)
    requires 0 <= v <= 109
    ensures EncodeVarints([v] + more, false) == [(136 + v) as byte] + EncodeVarints(more, false)
  {
    assert ([v] + more)[1..] == more;
  }

  lemma KnownTimes()
    ensures EncodeDatum(Time(3, 5), false) == [20, 139, 141]
    ensures EncodeDatum(TimeTz(7, 0), false) == [60, 143, 136]
  {
    hide EncodeVarints;
    NoVarints();
    OneVarint(5, []);
    OneVarint(3, [5]);
    OneVarint(0, []);
    OneVarint(7, [0]);
    assert [5] + [] == [5] && [3] + [5] == [3, 5] && [0] + [] == [0] && [7] + [0] == [7, 0];
    assert Parts(Time(3, 5)) == [3, 5] && Parts(TimeTz(7, 0)) == [7, 0];
  }

  lemma KnownInterval()
    ensures Encodable(Span(Durations.Duration(0, 0, 0))) && EncodeDatum(Span(Durations.Duration(0, 0, 0)), false) == [22, 136, 136, 136]
  {
    hide EncodeVarints;
    NoVarints();
    OneVarint(0, []);
    OneVarint(0, [0]);
    OneVarint(0, [0, 0]);
    assert [0] + [] == [0] && [0] + [0] == [0, 0] && [0] + [0, 0] == [0, 0, 0];
    assert Parts(Span(Durations.Duration(0, 0, 0))) == [0, 0, 0];
  }

  lemma KnownFloat()
    ensures EncodeDatum(Float(0x3ff0_0000_0000_0000), false) == [5, 0x3f, 0xf0, 0, 0, 0, 0, 0, 0]
  {
    hide BigEndian;
    EightBytes(0x3ff0_0000_0000_0000);
    FourBytes(0x3ff0_0000);
    FourBytes(0x3ff0_0000_0000_0000);
  }

  lemma KnownBounds()
    ensures EncodeDatum(Null, false) == [0] && EncodeDatum(Null, true) == [255]
    ensures EncodeDatum(NotNull, false) == [1] && EncodeDatum(NotNull, true) == [254]
  {
  }

  lemma NoVarints()
    ensures EncodeVarints([], false) == []
  {
  }

  // ------------------------------------------------- JSON

  lemma WordBytes(x: nat)
    requires x < 0x1_0000_0000
    ensures U32(x) == [(x / 0x100_0000) as byte, (x / 0x1_0000 % 256) as byte, (x / 256 % 256) as byte, (x % 256) as byte]
  {
    FourBytes(x);
  }

  /** Scalars have a header, one entry and their data. */
  lemma KnownScalars()
    ensures EncodeJson(JTrue) == Success([32, 0, 0, 0, 64, 0, 0, 0])
    ensures EncodeJson(JFalse) == Success([32, 0, 0, 0, 48, 0, 0, 0])
    ensures EncodeJson(JNull) == Success([32, 0, 0, 0, 0, 0, 0, 0])
    ensures EncodeJson(JStr([97, 115, 100])) == Success([32, 0, 0, 0, 16, 0, 0, 3, 97, 115, 100])
  {
    hide U32, Or;
    WordBytes(SCALAR_CONTAINER_TAG);
    WordBytes(JsonEncoding.TRUE_TAG);
    WordBytes(JsonEncoding.FALSE_TAG);
    WordBytes(NULL_TAG);
    WordBytes(STRING_TAG + 3);
    NibbleOr(4, 0);
    NibbleOr(3, 0);
    NibbleOr(0, 0);
    NibbleOr(1, 3);
    var header: bytes := [32, 0, 0, 0];
    assert U32(SCALAR_CONTAINER_TAG) == header;
    ScalarBytes(JTrue, [64, 0, 0, 0], []);
    ScalarBytes(JFalse, [48, 0, 0, 0], []);
    ScalarBytes(JNull, [0, 0, 0, 0], []);
    ScalarBytes(JStr([97, 115, 100]), [16, 0, 0, 3], [97, 115, 100]);
    assert header + [64, 0, 0, 0] + [] == [32, 0, 0, 0, 64, 0, 0, 0];
    assert header + [48, 0, 0, 0] + [] == [32, 0, 0, 0, 48, 0, 0, 0];
    assert header + [0, 0, 0, 0] + [] == [32, 0, 0, 0, 0, 0, 0, 0];
    assert header + [16, 0, 0, 3] + [97, 115, 100] == [32, 0, 0, 0, 16, 0, 0, 3, 97, 115, 100];
  }

  lemma ScalarBytes(j: Json, entry: bytes, data: bytes)
    requires !j.JArr? && !j.JObj? && Encode(j).Success? && Encode(j).value.data == data
    requires U32(Or(Encode(j).value.entry.typCode, Encode(j).value.entry.length)) == entry
    ensures EncodeJson(j) == Success(U32(SCALAR_CONTAINER_TAG) + entry + data)
  {
  }

  /** An object has a header with its length, the entries of its keys and of its values, the first of
      each an offset, then the data. */
  lemma KnownObject()
    ensures EncodeJson(JObj([Pair([97, 115, 100], JStr([115, 100, 102]))])) ==
            Success([64, 0, 0, 1, 144, 0, 0, 3, 144, 0, 0, 6, 97, 115, 100, 115, 100, 102])
  {
    hide U32, Or, Table, Data, Total;
    var k, v := Piece(JEntry(STRING_TAG, 3), [97, 115, 100]), Piece(JEntry(STRING_TAG, 3), [115, 100, 102]);
    var p := Pair([97, 115, 100], JStr([115, 100, 102]));
    OneKey(p, k);
    OneValue(p, v);
    OneEntry(k, 0);
    OneEntry(v, 3);
    Header(1);
    WordBytes(OBJECT_CONTAINER_TAG + 1);
    WordBytes(IS_OFF_FLAG + STRING_TAG + 3);
    WordBytes(IS_OFF_FLAG + STRING_TAG + 6);
    var text: bytes := [64, 0, 0, 1, 144, 0, 0, 3, 144, 0, 0, 6, 97, 115, 100, 115, 100, 102];
    assert ObjectBytes([k], [v]) == text by {
      assert text == [64, 0, 0, 1] + [144, 0, 0, 3] + [144, 0, 0, 6] + [97, 115, 100] + [115, 100, 102];
    }
    ObjectIs(p, k, v);
  }

  lemma ObjectIs(p: Pair, k: Piece, v: Piece)
    requires EncodeKeys([p]) == Success([k]) && EncodeValues([p]) == Success([v]) && |ObjectBytes([k], [v])| < 100
    ensures EncodeJson(JObj([p])) == Success(ObjectBytes([k], [v]))
  {
    hide ObjectBytes, EncodeKeys, EncodeValues;
  }

  lemma OneKey(p: Pair, k: Piece)
    requires Checked(STRING_TAG, p.k) == Success(k)
    ensures EncodeKeys([p]) == Success([k])
  {
    assert [p][1..] == [] && EncodeKeys([]) == Success([]) && [k] + [] == [k];
  }

  lemma OneValue(p: Pair, v: Piece)
    requires Encode(p.v) == Success(v)
    ensures EncodeValues([p]) == Success([v])
  {
    assert [p][1..] == [] && EncodeValues([]) == Success([]) && [v] + [] == [v];
  }

  lemma OneEntry(p: Piece, off: nat)
    requires p.entry == JEntry(STRING_TAG, 3) && off < 16 && |p.data| == 3
    ensures Table([p], 0, off) == U32(IS_OFF_FLAG + STRING_TAG + (off + 3)) && Data([p]) == p.data && Total([p]) == 3
  {
    hide U32, EncodedEntry;
    assert [p][1..] == [];
    EncodedEntryIs(p.entry, 0, off + 3);
    assert Table([], 1, off + 3) == [] && Data([]) == [] && Total([]) == 0;
  }

  lemma Header(n: nat)
    requires n < HEADER_LEN_LIMIT
    ensures Or(OBJECT_CONTAINER_TAG, n) == OBJECT_CONTAINER_TAG + n
  {
    hide Or, Pow2;
    Pow2Values();
    OrDisjoint(2, n, 29);
  }
}
