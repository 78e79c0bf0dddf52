/** Measuring and splitting encoded keys without decoding them
    (PeekLength and DecomposeKeyTokens in pkg/util/encoding/encoding.go). */
module KeyTokens {
  import opened ByteStrings
  import opened GoInts
  import opened Varint
  import opened KeyBytes
  import KeyDecimal
  import KeyBitArray
  import opened KeyFloat

  const ENCODED_NULL: byte := 0x00
  const ENCODED_NOT_NULL: byte := 0x01
  const ENCODED_NOT_NULL_DESC: byte := 0xfe
  const ENCODED_NULL_DESC: byte := 0xff
  const TRUE_TAG: byte := 10
  const FALSE_TAG: byte := 11
  const TIME_MARKER: byte := 20
  const DURATION_BIG_NEG_MARKER: byte := 21
  const DURATION_MARKER: byte := 22
  const DURATION_BIG_POS_MARKER: byte := 23
  const JSON_INVERTED_INDEX: byte := 55
  const JSON_EMPTY_ARRAY: byte := 56
  const JSON_EMPTY_OBJECT: byte := 57
  const TIME_TZ_MARKER: byte := 60

  /** Varints one behind the other, each in the given direction. */
  function EncodeVarints(vs: seq<int64>, desc: bool): bytes {
    if vs == [] then []
    else (if desc then EncodeVarintDescending(vs[0]) else EncodeVarintAscending(vs[0])) + EncodeVarints(vs[1..], desc)
  }

  /** The tags of one-byte encodings. */
  predicate SingleByteTag(m: byte) {
    m in {ENCODED_NULL, ENCODED_NULL_DESC, ENCODED_NOT_NULL, ENCODED_NOT_NULL_DESC, FLOAT_NAN,
          FLOAT_NAN_DESC, FLOAT_ZERO, KeyDecimal.DECIMAL_ZERO, TRUE_TAG, FALSE_TAG}
  }

  /** GetMultiVarintLen from offset p with num varints to go. */
  function MultiVarintFrom(b: bytes, p: nat, num: nat): (r: Result<nat>)
    requires p <= |b|
    ensures r.Success? ==> p <= r.value <= |b|
    decreases num
  {
    if num == 0 || p == |b| then Success(p)
    else
      match GetVarintLen(b[p..])
      case Failure(e) => Failure(e)
      case Success(l) => MultiVarintFrom(b, p + l, num - 1)
  }

  /** getInvertedIndexKeyLength from offset skipped. */
  function InvertedKeyFrom(b: bytes, skipped: nat): (r: Result<nat>)
    requires skipped <= |b|
    ensures r.Success? ==> skipped < r.value <= |b|
    decreases |b| - skipped
  {
    var i := IndexByte(b[skipped..], ESCAPE);
    var next := skipped + i + 2;
    if i == |b| - skipped then Failure(MissingTerminator)
    else if next > |b| then Failure(IndexPanic)
    else if b[next - 1] in {ESCAPED_TERM, JSON_EMPTY_OBJECT, JSON_EMPTY_ARRAY} then Success(next)
    else InvertedKeyFrom(b, next)
  }

  function PeekLength(b: bytes): (r: Result<nat>)
    ensures r.Success? ==> 1 <= r.value <= |b|
    decreases |b|
  {
    if b == [] then Failure(Empty)
    else
      var m := b[0];
      if SingleByteTag(m) then Success(1)
      else if m == KeyBitArray.BIT_ARRAY_MARKER || m == KeyBitArray.BIT_ARRAY_DESC_MARKER then
        KeyBitArray.GetBitArrayLen(b, m == KeyBitArray.BIT_ARRAY_DESC_MARKER)
      else if m == BYTES_MARKER then GetBytesLength(b, ASCENDING)
      else if m == JSON_INVERTED_INDEX then
        (match InvertedKeyFrom(b, 0)
         case Failure(e) => Failure(e)
         case Success(l) =>
           if l == |b| then Failure(IndexPanic)
           else if b[l] == JSON_EMPTY_ARRAY || b[l] == JSON_EMPTY_OBJECT then Success(l + 1)
           else
             match PeekLength(b[l..])
             case Failure(e) => Failure(e)
             case Success(v) => Success(l + v))
      else if m == BYTES_DESC_MARKER then GetBytesLength(b, DESCENDING)
      else if m == TIME_MARKER || m == TIME_TZ_MARKER then MultiVarintFrom(b, 1, 2)
      else if m == DURATION_BIG_NEG_MARKER || m == DURATION_MARKER || m == DURATION_BIG_POS_MARKER then MultiVarintFrom(b, 1, 3)
      else if m == FLOAT_NEG || m == FLOAT_POS then (if |b| < 9 then Failure(Insufficient) else Success(9))
      else if INT_MIN <= m as int <= INT_MAX then GetVarintLen(b)
      else if KeyDecimal.DECIMAL_NAN <= m <= KeyDecimal.DECIMAL_NAN_DESC then KeyDecimal.GetDecimalLen(b)
      else Failure(UnknownTag)
  }

  // PeekLength's dispatch, one tag class at a time.

  lemma SingleByteLength(b: bytes)
    requires b != [] && SingleByteTag(b[0])
    ensures PeekLength(b) == Success(1)
  {
  }

  lemma IntLength(b: bytes)
    requires b != [] && INT_MIN <= b[0] as int <= INT_MAX
    ensures PeekLength(b) == GetVarintLen(b)
  {
    hide GetVarintLen;
  }

  lemma StrLength(b: bytes)
    requires b != []
    ensures b[0] == BYTES_MARKER ==> PeekLength(b) == GetBytesLength(b, ASCENDING)
    ensures b[0] == BYTES_DESC_MARKER ==> PeekLength(b) == GetBytesLength(b, DESCENDING)
  {
    hide GetBytesLength;
  }

  lemma DecLength(b: bytes)
    requires b != [] && KeyDecimal.DECIMAL_NAN <= b[0] <= KeyDecimal.DECIMAL_NAN_DESC
    ensures PeekLength(b) == KeyDecimal.GetDecimalLen(b)
  {
    hide KeyDecimal.TerminatorLen, GetVarintLen;
  }

  lemma BitsLength(b: bytes)
    requires b != []
    ensures b[0] == KeyBitArray.BIT_ARRAY_MARKER ==> PeekLength(b) == KeyBitArray.GetBitArrayLen(b, false)
    ensures b[0] == KeyBitArray.BIT_ARRAY_DESC_MARKER ==> PeekLength(b) == KeyBitArray.GetBitArrayLen(b, true)
  {
    hide KeyBitArray.GetBitArrayLen;
  }

  lemma TimeDispatch(b: bytes)
    requires b != [] && (b[0] == TIME_MARKER || b[0] == TIME_TZ_MARKER)
    ensures PeekLength(b) == MultiVarintFrom(b, 1, 2)
  {
    hide MultiVarintFrom;
  }

  lemma DurationDispatch(b: bytes)
    requires b != [] && b[0] in {DURATION_BIG_NEG_MARKER, DURATION_MARKER, DURATION_BIG_POS_MARKER}
    ensures PeekLength(b) == MultiVarintFrom(b, 1, 3)
  {
    hide MultiVarintFrom;
  }

  lemma FloatDispatch(b: bytes)
    requires b != [] && (b[0] == FLOAT_NEG || b[0] == FLOAT_POS)
    ensures PeekLength(b) == if |b| < 9 then Failure(Insufficient) else Success(9)
  {
  }

  /** Any number of varints behind a tag are measured together. */
  lemma {:induction false} MultiVarintLength(b: bytes, p: nat, vs: seq<int64>, desc: bool, rest: bytes)
    requires p <= |b| && b[p..] == EncodeVarints(vs, desc) + rest
    ensures MultiVarintFrom(b, p, |vs|) == Success(p + |EncodeVarints(vs, desc)|)
    decreases |vs|
  {
    hide EncodeVarintAscending, GetVarintLen;
    if vs != [] {
      var v: int64 := if desc then -1 - vs[0] else vs[0];
      var e, tail := EncodeVarintAscending(v), EncodeVarints(vs[1..], desc) + rest;
      assert b[p..] == e + tail;
      VarintLength(v, tail);
      assert b[p + |e|..] == tail;
      MultiVarintLength(b, p + |e|, vs[1..], desc, rest);
    }
  }

  /** How many varints follow a tag. */
  function VarintsBehind(m: byte): nat {
    if m == TIME_MARKER || m == TIME_TZ_MARKER then 2
    else if m in {DURATION_BIG_NEG_MARKER, DURATION_MARKER, DURATION_BIG_POS_MARKER} then 3
    else 0
  }

  /** Such a tag is measured with its varints, whatever follows; on a key that ends between two of
      them the measure is the whole key. */
  lemma TaggedLength(m: byte, vs: seq<int64>, desc: bool, rest: bytes)
    requires 0 < VarintsBehind(m) && |vs| <= VarintsBehind(m)
    ensures var b := [m] + EncodeVarints(vs, desc);
            && (|vs| == VarintsBehind(m) ==> PeekLength(b + rest) == Success(|b|))
            && PeekLength(b) == Success(|b|)
  {
    hide PeekLength, EncodeVarints, MultiVarintFrom;
    var b := [m] + EncodeVarints(vs, desc);
    assert (b + rest)[1..] == EncodeVarints(vs, desc) + rest;
    assert b[1..] == EncodeVarints(vs, desc) + [];
    TagDispatch(b);
    TagDispatch(b + rest);
    MultiVarintLength(b + rest, 1, vs, desc, rest);
    MultiVarintStops(b, 1, vs, desc, VarintsBehind(m));
  }

  lemma TagDispatch(b: bytes)
    requires b != [] && VarintsBehind(b[0]) > 0
    ensures PeekLength(b) == MultiVarintFrom(b, 1, VarintsBehind(b[0]))
  {
    hide PeekLength, MultiVarintFrom;
    if VarintsBehind(b[0]) == 2 { TimeDispatch(b); } else { DurationDispatch(b); }
  }

  lemma {:induction false} MultiVarintStops(b: bytes, p: nat, vs: seq<int64>, desc: bool, num: nat)
    requires p <= |b| && b[p..] == EncodeVarints(vs, desc) && |vs| <= num
    ensures MultiVarintFrom(b, p, num) == Success(|b|)
    decreases |vs|
  {
    hide EncodeVarintAscending, GetVarintLen;
    if vs != [] {
      var v: int64 := if desc then -1 - vs[0] else vs[0];
      var e, tail := EncodeVarintAscending(v), EncodeVarints(vs[1..], desc);
      assert b[p..] == e + tail;
      VarintLength(v, tail);
      assert b[p + |e|..] == tail;
      MultiVarintStops(b, p + |e|, vs[1..], desc, num - 1);
    }
  }

  /** The first bytes of encodings. All others are unknown, and nothing else is. */
  predicate Tag(m: byte) {
    || m in {ENCODED_NULL, ENCODED_NOT_NULL, ENCODED_NOT_NULL_DESC, ENCODED_NULL_DESC, TRUE_TAG, FALSE_TAG}
    || FLOAT_NAN <= m <= FLOAT_NAN_DESC || INT_MIN <= m as int <= INT_MAX
    || BYTES_MARKER <= m <= TIME_MARKER || DURATION_BIG_NEG_MARKER <= m <= DURATION_BIG_POS_MARKER
    || KeyDecimal.DECIMAL_NAN <= m <= KeyDecimal.DECIMAL_NAN_DESC
    || m in {JSON_INVERTED_INDEX, KeyBitArray.BIT_ARRAY_MARKER, KeyBitArray.BIT_ARRAY_DESC_MARKER, TIME_TZ_MARKER}
  }

  lemma UnknownTags(b: bytes)
    requires b != [] && !Tag(b[0])
    ensures PeekLength(b) == Failure(UnknownTag)
  {
  }

  /** PeekType(b) == Null. */
  predicate IsNull(b: bytes) {
    b != [] && (b[0] == ENCODED_NULL || b[0] == ENCODED_NULL_DESC)
  }

  /** PeekType(b) == NotNull. */
  predicate IsNotNull(b: bytes) {
    b != [] && (b[0] == ENCODED_NOT_NULL || b[0] == ENCODED_NOT_NULL_DESC)
  }

  /** DecomposeKeyTokens. */
  function Tokens(b: bytes): Result<(seq<bytes>, bool)>
    decreases |b|
  {
    if b == [] then Success(([], false))
    else
      match PeekLength(b)
      case Failure(e) => Failure(e)
      case Success(n) =>
        match Tokens(b[n..])
        case Failure(e) => Failure(e)
        case Success((rest, hasNull)) => Success(([b[..n]] + rest, IsNull(b) || hasNull))
  }

  method DecomposeKeyTokens(key: bytes) returns (r: Result<(seq<bytes>, bool)>)
    ensures r == Tokens(key)
  {
    var b, out, containsNull := key, [], false;
    assert forall ts: seq<bytes> :: [] + ts == ts;
    while |b| > 0
      invariant Tokens(key) ==
                match Tokens(b)
                case Failure(e) => Failure(e)
                case Success((rest, hasNull)) => Success((out + rest, containsNull || hasNull))
      decreases |b|
    {
      var tokenLen := PeekLength(b);
      if tokenLen.Failure? {
        return Failure(tokenLen.error);
      }
      if IsNull(b) {
        containsNull := true;
      }
      assert forall ts :: out + ([b[..tokenLen.value]] + ts) == out + [b[..tokenLen.value]] + ts;
      out := out + [b[..tokenLen.value]];
      b := b[tokenLen.value..];
    }
    assert out + [] == out;
    return Success((out, containsNull));
  }

  /** The loop of GetMultiVarintLen. */
  method GetMultiVarintLen(b: bytes, num: nat) returns (r: Result<nat>)
    requires b != []
    ensures r == MultiVarintFrom(b, 1, num)
  {
    var p, i := 1, 0;
    while i < num && p < |b|
      invariant i <= num && 1 <= p <= |b|
      invariant MultiVarintFrom(b, p, num - i) == MultiVarintFrom(b, 1, num)
    {
      var l := GetVarintLen(b[p..]);
      if l.Failure? {
        return Failure(l.error);
      }
      p := p + l.value;
      i := i + 1;
    }
    return Success(p);
  }
}
