/** The encoder as the source runs it: append to one buffer, patch reserved entry slots. */
module JsonEncodeLoops {
  import opened ByteStrings
  import opened GoInts
  import opened Varint
  import opened Bitwise
  import opened Json
  import opened JsonNumbers
  import opened JsonEncoding

  /** A node count that shrinks from a document to its members. */
  ghost function Size(j: Json): nat {
    match j
    case JArr(items) => 1 + SizeItems(items)
    case JObj(pairs) => 1 + SizePairs(pairs)
    case _ => 0
  }

  ghost function SizeItems(items: seq<Json>): nat {
    if items == [] then 0 else 1 + Size(items[0]) + SizeItems(items[1..])
  }

  ghost function SizePairs(pairs: seq<Pair>): nat {
    if pairs == [] then 0 else 1 + Size(pairs[0].v) + SizePairs(pairs[1..])
  }

  lemma {:induction false} ItemSmaller(items: seq<Json>)
    ensures forall i :: 0 <= i < |items| ==> Size(items[i]) < 1 + SizeItems(items)
  {
    if items != [] {
      ItemSmaller(items[1..]);
      assert forall i :: 0 < i < |items| ==> items[i] == items[1..][i - 1];
    }
  }

  lemma {:induction false} PairSmaller(pairs: seq<Pair>)
    ensures forall i :: 0 <= i < |pairs| ==> Size(pairs[i].v) < 1 + SizePairs(pairs)
  {
    if pairs != [] {
      PairSmaller(pairs[1..]);
      assert forall i :: 0 < i < |pairs| ==> pairs[i] == pairs[1..][i - 1];
    }
  }

  /** An encoding appended to what the buffer already holds. */
  function Appended(r: Result<Piece>, base: bytes): Result<(JEntry, bytes)> {
    match r
    case Failure(e) => Failure(e)
    case Success(p) => Success((p.entry, base + p.data))
  }

  function Zeros(n: nat): (b: bytes)
    ensures |b| == n
  {
    seq(n, _ => 0)
  }

  /** PutUint32Ascending within the buffer. */
  function PutU32(b: bytes, word: nat, idx: nat): (r: bytes)
    requires idx + 4 <= |b|
    ensures |r| == |b|
  {
    b[..idx] + U32(word) + b[idx + 4..]
  }

  // ------------------------------------------------- one more item

  lemma ModuloStep(a: nat, b: nat)
    ensures (a % TWO32 + b) % TWO32 == (a + b) % TWO32
  {
    var q := a / TWO32;
    assert a + b == (a % TWO32 + b) + q * TWO32;
  }

  lemma {:induction false} TableAppend(ps: seq<Piece>, p: Piece, i: nat, off: nat)
    requires off < TWO32
    ensures Table(ps + [p], i, off) ==
            Table(ps, i, off) + U32(EncodedEntry(p.entry, i + |ps|, (off + Total(ps) + p.entry.length) % TWO32))
  {
    hide EncodedEntry, U32;
    if ps == [] {
      assert ps + [p] == [p] && Table([p][1..], i + 1, (off + p.entry.length) % TWO32) == [];
    } else {
      var end := (off + ps[0].entry.length) % TWO32;
      TableAppend(ps[1..], p, i + 1, end);
      assert (ps + [p])[1..] == ps[1..] + [p];
      ModuloStep(off + ps[0].entry.length, Total(ps[1..]) + p.entry.length);
    }
  }

  lemma {:induction false} DataAppend(ps: seq<Piece>, p: Piece)
    ensures Data(ps + [p]) == Data(ps) + p.data && Total(ps + [p]) == Total(ps) + p.entry.length
  {
    if ps == [] {
      assert ps + [p] == [p] && Data([p][1..]) == [];
    } else {
      DataAppend(ps[1..], p);
      assert (ps + [p])[1..] == ps[1..] + [p];
    }
  }

  lemma {:induction false} ItemsAppend(items: seq<Json>, j: Json)
    requires EncodeItems(items).Success?
    ensures EncodeItems(items + [j]) ==
            match Encode(j)
            case Failure(e) => Failure(e)
            case Success(p) => Success(EncodeItems(items).value + [p])
    decreases |items|
  {
    hide Encode;
    if items == [] {
      assert items + [j] == [j] && [j][1..] == [];
      assert forall p: Piece :: [p] + [] == [] + [p];
    } else {
      ItemsAppend(items[1..], j);
      assert (items + [j])[1..] == items[1..] + [j] && (items + [j])[0] == items[0];
      var p0, ps := Encode(items[0]).value, EncodeItems(items[1..]).value;
      assert forall p :: [p0] + (ps + [p]) == ([p0] + ps) + [p];
    }
  }

  /** A failing prefix fails the whole list. */
  lemma {:induction false} PrefixFails(items: seq<Json>, i: nat)
    requires i <= |items| && EncodeItems(items[..i]).Failure?
    ensures EncodeItems(items).Failure?
    decreases i
  {
    hide Encode;
    assert i > 0;
    assert items[..i][1..] == items[1..][..i - 1];
    if Encode(items[0]).Success? { PrefixFails(items[1..], i - 1); }
  }

  /** Filling slot k: the patched buffer continues the table and the data. */
  lemma PatchStep(base: bytes, slots: nat, ps: seq<Piece>, p: Piece, off: nat, n: nat, mid: bytes)
    requires |ps| < n && off < TWO32 && slots == |base|
    ensures var before := base + Table(ps, 0, off) + Zeros(4 * (n - |ps|)) + mid + Data(ps);
            var word := EncodedEntry(p.entry, |ps|, (off + Total(ps) + p.entry.length) % TWO32);
            slots + 4 * |ps| + 4 <= |before + p.data| &&
            PutU32(before + p.data, word, slots + 4 * |ps|) ==
            base + Table(ps + [p], 0, off) + Zeros(4 * (n - |ps| - 1)) + mid + Data(ps + [p])
  {
    hide *;
    var k := 4 * (n - |ps| - 1);
    var t, d := Table(ps, 0, off), Data(ps);
    var end := (off + Total(ps) + p.entry.length) % TWO32;
    var w := U32(EncodedEntry(p.entry, |ps|, end));
    assert 0 + |ps| == |ps|;
    TableAppend(ps, p, 0, off);
    DataAppend(ps, p);
    ZerosSplit(4, k);
    var c := Zeros(k) + mid + d + p.data;
    Regroup(base + t, Zeros(4), Zeros(k), mid, d, p.data);
    Regroup(base + t, w, Zeros(k), mid, d, p.data);
    Splice(base + t, w, Zeros(4), c);
    PutIs(base + t + Zeros(4) + c, EncodedEntry(p.entry, |ps|, end), |base + t|);
    assert base + (t + w) == base + t + w;
  }

  lemma PutIs(b: bytes, word: nat, idx: nat)
    requires idx + 4 <= |b|
    ensures PutU32(b, word, idx) == b[..idx] + U32(word) + b[idx + 4..]
  {
  }

  lemma Regroup(a: bytes, z: bytes, y: bytes, m: bytes, d: bytes, e: bytes)
    ensures a + (z + y) + m + d + e == a + z + (y + m + d + e)
    ensures a + z + y + m + (d + e) == a + z + (y + m + d + e)
  {
  }

  lemma Splice(a: bytes, w: bytes, z: bytes, c: bytes)
    requires |w| == |z|
    ensures (a + z + c)[..|a|] + w + (a + z + c)[|a| + |w|..] == a + w + c
  {
  }

  // ------------------------------------------------- the encoder

  /** The body of the encode loops of jsonArray and jsonObject: vals are appended, their
      entries patched in from `slots` on; `mid` stands between those slots and the data. */
  method EncodeRun(vals: seq<Json>, ghost bound: nat, ghost base: bytes, slots: nat, ghost mid: bytes, buf0: bytes, off0: nat)
      returns (r: Result<bytes>, offset: nat)
    requires forall i :: 0 <= i < |vals| ==> Size(vals[i]) < bound
    requires slots == |base| && off0 < TWO32
    requires buf0 == base + Zeros(4 * |vals|) + mid
    ensures EncodeItems(vals).Failure? ==> r == Failure(TooLarge)
    ensures EncodeItems(vals).Success? ==>
              var ps := EncodeItems(vals).value;
              r == Success(base + Table(ps, 0, off0) + mid + Data(ps)) && offset == (off0 + Total(ps)) % TWO32
    decreases bound, 0
  {
    hide Encode, Table, Data, Total, EncodedEntry, U32, PutU32;
    var buf := buf0;
    offset := off0;
    var n := |vals|;
    ghost var ps: seq<Piece> := [];
    NoPieces(off0);
    assert vals[..0] == [] && base + [] + Zeros(4 * n) + mid + [] == buf0;
    for i := 0 to n
      invariant |ps| == i && EncodeItems(vals[..i]) == Success(ps)
      invariant offset == (off0 + Total(ps)) % TWO32
      invariant buf == base + Table(ps, 0, off0) + Zeros(4 * (n - i)) + mid + Data(ps)
    {
      var one := EncodeInto(vals[i], buf);
      assert vals[..i + 1] == vals[..i] + [vals[i]];
      ItemsAppend(vals[..i], vals[i]);
      if one.Failure? {
        PrefixFails(vals, i + 1);
        return Failure(TooLarge), offset;
      }
      ghost var p := Encode(vals[i]).value;
      var length := one.value.0.length;
      ModuloStep(off0 + Total(ps), length);
      PatchStep(base, slots, ps, p, off0, n, mid);
      DataAppend(ps, p);
      offset := (offset + length) % TWO32;
      buf := PutU32(one.value.1, EncodedEntry(one.value.0, i, offset), slots + i * 4);
      ps := ps + [p];
    }
    assert vals[..n] == vals;
    assert base + Table(ps, 0, off0) + Zeros(0) + mid + Data(ps) == base + Table(ps, 0, off0) + mid + Data(ps);
    r := Success(buf);
  }

  lemma NoPieces(off: nat)
    requires off < TWO32
    ensures Table([], 0, off) == [] && Data([]) == [] && (off + Total([])) % TWO32 == off && EncodeItems([]) == Success([])
  {
  }

  /** Reserve four zero bytes per entry. */
  method Reserve(b: bytes, n: nat) returns (r: bytes)
    ensures r == b + Zeros(4 * n)
  {
    r := b;
    assert b + Zeros(0) == b;
    for i := 0 to n
      invariant r == b + Zeros(4 * i)
    {
      r := r + [0, 0, 0, 0];
      assert Zeros(4 * i) + [0, 0, 0, 0] == Zeros(4 * (i + 1));
      assert b + Zeros(4 * i) + [0, 0, 0, 0] == b + (Zeros(4 * i) + [0, 0, 0, 0]);
    }
  }

  function KeyStrings(pairs: seq<Pair>): (ks: seq<Json>)
    ensures |ks| == |pairs| && forall i :: 0 <= i < |pairs| ==> ks[i] == JStr(pairs[i].k)
  {
    seq(|pairs|, i requires 0 <= i < |pairs| => JStr(pairs[i].k))
  }

  lemma {:induction false} KeysAsItems(pairs: seq<Pair>)
    ensures EncodeItems(KeyStrings(pairs)) == EncodeKeys(pairs)
  {
    if pairs != [] {
      KeysAsItems(pairs[1..]);
      assert KeyStrings(pairs)[1..] == KeyStrings(pairs[1..]);
    }
  }

  lemma {:induction false} ValuesAsItems(pairs: seq<Pair>)
    ensures EncodeItems(Vals(pairs)) == EncodeValues(pairs)
    decreases |pairs|
  {
    hide Encode;
    if pairs != [] {
      ValuesAsItems(pairs[1..]);
      assert Vals(pairs)[1..] == Vals(pairs[1..]);
    }
  }

  /** The encode methods: the entry and the grown buffer. */
  method EncodeInto(j: Json, appendTo: bytes) returns (r: Result<(JEntry, bytes)>)
    ensures r == Appended(Encode(j), appendTo)
    decreases Size(j), 2
  {
    match j
    case JArr(items) => r := EncodeArray(items, appendTo);
    case JObj(pairs) => r := EncodeObject(pairs, appendTo);
    case JStr(s) =>
      if |s| > MAX_BYTE_LENGTH {
        return Failure(TooLarge);
      }
      return Success((JEntry(STRING_TAG, |s|), appendTo + s));
    case JNum(d) =>
      var decOffset := |appendTo|;
      var buf := appendTo + EncodeNumber(d);
      var lengthInBytes := |buf| - decOffset;
      if lengthInBytes > MAX_BYTE_LENGTH {
        return Failure(TooLarge);
      }
      return Success((JEntry(NUMBER_TAG, lengthInBytes), buf));
    case JNull =>
      assert appendTo + [] == appendTo;
      return Success((JEntry(NULL_TAG, 0), appendTo));
    case JTrue =>
      assert appendTo + [] == appendTo;
      return Success((JEntry(TRUE_TAG, 0), appendTo));
    case JFalse =>
      assert appendTo + [] == appendTo;
      return Success((JEntry(FALSE_TAG, 0), appendTo));
  }

  method EncodeArray(items: seq<Json>, appendTo: bytes) returns (r: Result<(JEntry, bytes)>)
    ensures r == Appended(Encode(JArr(items)), appendTo)
    decreases Size(JArr(items)), 1
  {
    hide Table, Data, U32, EncodeItems, Size, SizeItems, Zeros;
    ItemSmaller(items);
    ArraySize(items);
    var start := |appendTo|;
    var buf := appendTo + U32(Or(ARRAY_CONTAINER_TAG, |items| % TWO32));
    ghost var head := buf;
    var jEntryIdx := |buf|;
    buf := Reserve(buf, |items|);
    assert head + Zeros(4 * |items|) + [] == buf;
    var filled, _ := EncodeRun(items, Size(JArr(items)), head, jEntryIdx, [], buf, 0);
    if filled.Failure? {
      return Failure(filled.error);
    }
    ghost var ps := EncodeItems(items).value;
    assert filled.value == appendTo + ArrayBytes(ps);
    var lengthInBytes := |filled.value| - start;
    if lengthInBytes > MAX_BYTE_LENGTH {
      return Failure(TooLarge);
    }
    return Success((JEntry(CONTAINER_TAG, lengthInBytes), filled.value));
  }

  lemma ArraySize(items: seq<Json>)
    ensures Size(JArr(items)) == 1 + SizeItems(items)
  {
  }

  lemma ObjectSize(pairs: seq<Pair>)
    ensures Size(JObj(pairs)) == 1 + SizePairs(pairs)
    ensures forall s :: Size(JStr(s)) == 0
  {
  }

  method EncodeObject(pairs: seq<Pair>, appendTo: bytes) returns (r: Result<(JEntry, bytes)>)
    ensures r == Appended(Encode(JObj(pairs)), appendTo)
    decreases Size(JObj(pairs)), 1
  {
    hide Table, Data, U32, EncodeItems, EncodeKeys, EncodeValues, Size, SizePairs, Zeros, Total, ObjectBytes, Or;
    PairSmaller(pairs);
    ObjectSize(pairs);
    KeysAsItems(pairs);
    ValuesAsItems(pairs);
    var n := |pairs|;
    var start := |appendTo|;
    var buf := appendTo + U32(Or(OBJECT_CONTAINER_TAG, n % TWO32));
    ghost var head := buf;
    var jEntryIdx := |buf|;
    buf := Reserve(buf, 2 * n);
    ZerosSplit(4 * n, 4 * n);
    assert buf == head + Zeros(4 * n) + Zeros(4 * n);
    var keyed, offset := EncodeRun(KeyStrings(pairs), Size(JObj(pairs)), head, jEntryIdx, Zeros(4 * n), buf, 0);
    if keyed.Failure? {
      return Failure(keyed.error);
    }
    ghost var ks := EncodeKeys(pairs).value;
    ghost var head2 := head + Table(ks, 0, 0);
    var filled, _ := EncodeRun(Vals(pairs), Size(JObj(pairs)), head2, jEntryIdx + n * 4, Data(ks), keyed.value, offset);
    if filled.Failure? {
      return Failure(filled.error);
    }
    ghost var vs := EncodeValues(pairs).value;
    ObjectAssembled(appendTo, ks, vs, filled.value, offset);
    var lengthInBytes := |filled.value| - start;
    if lengthInBytes > MAX_BYTE_LENGTH {
      return Failure(TooLarge);
    }
    return Success((JEntry(CONTAINER_TAG, lengthInBytes), filled.value));
  }

  lemma ObjectAssembled(base: bytes, ks: seq<Piece>, vs: seq<Piece>, buf: bytes, offset: nat)
    requires offset == Total(ks) % TWO32
    requires buf == base + U32(Or(OBJECT_CONTAINER_TAG, |ks| % TWO32)) + Table(ks, 0, 0) + Table(vs, 0, offset) + Data(ks) + Data(vs)
    ensures buf == base + ObjectBytes(ks, vs)
  {
    hide Table, Data, U32, Total, Or;
    SixParts(base, U32(Or(OBJECT_CONTAINER_TAG, |ks| % TWO32)), Table(ks, 0, 0), Table(vs, 0, offset), Data(ks), Data(vs));
  }

  lemma SixParts(a: bytes, h: bytes, t: bytes, u: bytes, d: bytes, e: bytes)
    ensures a + h + t + u + d + e == a + (h + t + u + d + e)
  {
  }

  lemma ZerosSplit(a: nat, b: nat)
    ensures Zeros(a + b) == Zeros(a) + Zeros(b)
  {
  }

  /** EncodeJSON. */
  method EncodeJsonInto(appendTo: bytes, j: Json) returns (r: Result<bytes>)
    ensures r == match EncodeJson(j)
                 case Failure(e) => Failure(e)
                 case Success(b) => Success(appendTo + b)
  {
    hide Encode, U32;
    if j.JArr? || j.JObj? {
      var one := EncodeInto(j, appendTo);
      if one.Failure? {
        return Failure(one.error);
      }
      return Success(one.value.1);
    }
    var buf := appendTo + U32(SCALAR_CONTAINER_TAG);
    var jEntryIdx := |buf|;
    ghost var head := buf;
    buf := buf + Zeros(4);
    var one := EncodeInto(j, buf);
    if one.Failure? {
      return Failure(one.error);
    }
    var word := Or(one.value.0.typCode, one.value.0.length);
    ghost var p := Encode(j).value;
    Splice(head, U32(word), Zeros(4), p.data);
    buf := PutU32(one.value.1, word, jEntryIdx);
    assert buf == appendTo + (U32(SCALAR_CONTAINER_TAG) + U32(word) + p.data);
    return Success(buf);
  }

  // ------------------------------------------------- decoding loops

  /** decodeJEntries. */
  method DecodeEntriesLoop(n: nat, buf: bytes) returns (r: Decoded<seq<JEntry>>)
    ensures r == DecodeEntries(n, buf, 0)
  {
    hide FromBigEndian, EntryOf;
    var b, jEntries, off: nat := buf, [], 0;
    assert forall es: seq<JEntry> :: [] + es == es;
    for i := 0 to n
      invariant |jEntries| == i
      invariant DecodeEntries(n, buf, 0) ==
                match DecodeEntries(n - i, b, off)
                case Err(e) => Err(e)
                case Ok(rest, es) => Ok(rest, jEntries + es)
    {
      if |b| < 4 {
        return Err(Insufficient);
      }
      var e := EntryOf(FromBigEndian(b[..4]), off);
      b := b[4..];
      off := (off + e.length) % TWO32;
      assert forall es :: jEntries + ([e] + es) == jEntries + [e] + es;
      jEntries := jEntries + [e];
    }
    assert jEntries + [] == jEntries;
    return Ok(b, jEntries);
  }

  /** The element loop of decodeJSONArray, also that of the values of an object. */
  method DecodeItemsLoop(es: seq<JEntry>, buf: bytes) returns (r: Decoded<seq<Json>>)
    ensures r == DecodeItems(es, buf)
  {
    hide DecodeValue;
    var b, result := buf, [];
    assert forall js: seq<Json> :: [] + js == js;
    assert es[0..] == es;
    for i := 0 to |es|
      invariant |result| == i
      invariant DecodeItems(es, buf) ==
                match DecodeItems(es[i..], b)
                case Err(e) => Err(e)
                case Ok(rest, js) => Ok(rest, result + js)
    {
      var one := DecodeValue(es[i], b);
      if one.Err? {
        return Err(one.error);
      }
      assert es[i..][1..] == es[i + 1..];
      assert forall js :: result + ([one.value] + js) == result + [one.value] + js;
      b := one.rest;
      result := result + [one.value];
    }
    assert result + [] == result;
    return Ok(b, result);
  }
}
