/** The stateful side of lazy documents (pkg/util/json/encoded.go): the decode cache, the
    search loops and the two iterators. */
module JsonReader {
  import opened ByteStrings
  import opened Varint
  import opened Json
  import opened JsonEncoding
  import opened JsonLazy
  import opened Wrappers

  // ------------------------------------------------- loops over the bytes

  /** beginningOfIdx. */
  method BeginningOfIdxLoop(v: bytes, idx: nat) returns (r: Result<nat>)
    ensures r == BeginningOfIdx(v, idx)
  {
    hide EntryWord;
    if idx == 0 {
      return Success(0);
    }
    var offset: nat := 0;
    var curIdx := idx - 1;
    while curIdx >= 0
      invariant -1 <= curIdx < idx && BackFrom(v, curIdx, offset) == BeginningOfIdx(v, idx)
      decreases curIdx
    {
      var e := EntryWord(v, curIdx);
      if e.Failure? {
        return Failure(e.error);
      }
      var offlen := e.value % OFF_LEN_LIMIT;
      if e.value >= IS_OFF_FLAG {
        return Success(offlen + offset);
      }
      offset := offset + offlen;
      curIdx := curIdx - 1;
    }
    return Success(offset);
  }

  /** sort.Search as FetchValKey uses it. */
  method SearchKeyLoop(v: bytes, n: nat, key: bytes) returns (i: nat)
    ensures i == SearchKey(v, n, key, 0, n)
  {
    hide KeyAtLeast;
    i := 0;
    var j := n;
    while i < j
      invariant i <= j <= n && SearchKey(v, n, key, i, j) == SearchKey(v, n, key, 0, n)
    {
      var h := (i + j) / 2;
      if !KeyAtLeast(v, n, h, key) {
        i := h + 1;
      } else {
        j := h;
      }
    }
  }

  const BSEARCH_CUTOFF := 20

  predicate SortedKeys(ks: seq<bytes>) {
    forall i, j :: 0 <= i < j < |ks| ==> CompareBytes(ks[i], ks[j]) < 0
  }

  /** findPairIndexByKey: a scan for short objects, binary search for long ones. */
  method FindPairIndexByKey(ks: seq<bytes>, key: bytes) returns (i: int, ok: bool)
    requires SortedKeys(ks)
    ensures ok ==> 0 <= i < |ks| && ks[i] == key
    ensures !ok ==> i == -1 && key !in ks
  {
    hide CompareBytes;
    i := 0;
    if |ks| < BSEARCH_CUTOFF {
      while i < |ks| && CompareBytes(ks[i], key) < 0
        invariant 0 <= i <= |ks| && forall k :: 0 <= k < i ==> CompareBytes(ks[k], key) < 0
      {
        i := i + 1;
      }
    } else {
      var j := |ks|;
      while i < j
        invariant 0 <= i <= j <= |ks|
        invariant forall k :: 0 <= k < i ==> CompareBytes(ks[k], key) < 0
        invariant j < |ks| ==> CompareBytes(ks[j], key) >= 0
      {
        var h := (i + j) / 2;
        if CompareBytes(ks[h], key) < 0 {
          forall k | 0 <= k < h ensures CompareBytes(ks[k], key) < 0 { CompareChain2(ks[k], ks[h], key); }
          i := h + 1;
        } else {
          j := h;
        }
      }
    }
    if i < |ks| && ks[i] == key {
      return i, true;
    }
    forall k | i <= k < |ks| ensures ks[k] != key {
      if k > i { CompareChain(key, ks[i], ks[k]); NotBefore(key, ks[i], ks[k]); }
    }
    forall k | 0 <= k < i ensures ks[k] != key { CompareSelf(key); }
    return -1, false;
  }

  lemma CompareSelf(a: bytes)
    ensures CompareBytes(a, a) == 0
  {
  }

  lemma NotBefore(key: bytes, a: bytes, b: bytes)
    requires CompareBytes(a, key) >= 0 && CompareBytes(a, b) < 0
    ensures b != key
  {
  }

  // ------------------------------------------------- iterators

  /** encodedArrayIterator. */
  class ArrayIterator {
    var curDataIdx: nat
    const dataOffset: nat
    var idx: nat
    const len: nat
    const data: bytes

    /** Positioned in front of items[idx] of an encoded array. */
    ghost predicate Valid(items: seq<Json>)
      reads this
    {
      && Encode(JArr(items)).Success? && EncodeItems(items).Success?
      && data == Encode(JArr(items)).value.data && len == |items|
      && dataOffset == CONTAINER_HEADER_LEN + len * JENTRY_LEN
      && idx <= len && curDataIdx == Total(EncodeItems(items).value[..idx])
    }

    /** iterArrayValues. */
    constructor (value: bytes, containerLen: nat, ghost items: seq<Json>)
      requires Denotes(LEnc(ArrayKind, containerLen, value), JArr(items))
      ensures Valid(items) && idx == 0
    {
      curDataIdx, idx := 0, 0;
      dataOffset, len, data := CONTAINER_HEADER_LEN + containerLen * JENTRY_LEN, containerLen, value;
    }

    /** nextEncoded: the next item's entry and bytes, or ok == false at the end. */
    method NextEncoded(ghost items: seq<Json>) returns (entry: JEntry, next: bytes, ok: bool)
      requires Valid(items)
      modifies this
      ensures Valid(items) && ok == (old(idx) < |items|)
      ensures ok ==> idx == old(idx) + 1 && Encode(items[old(idx)]) == Success(Piece(entry, next))
      ensures !ok ==> idx == old(idx)
    {
      hide Encode, EncodeItems, Total, EntryWord, EntryOf;
      if idx >= len {
        return JEntry(NULL_TAG, 0), [], false;
      }
      ghost var ps := EncodeItems(items).value;
      ArrayEntryAt(items, idx);
      EncodedItem(items, idx);
      var w := EntryWord(data, idx);
      entry := EntryOf(w.value, curDataIdx);
      var nextLen := entry.length;
      next := data[dataOffset + curDataIdx..dataOffset + curDataIdx + nextLen];
      idx := idx + 1;
      curDataIdx := curDataIdx + nextLen;
      ok := true;
    }
  }

  lemma ArrayEntryAt(items: seq<Json>, i: nat)
    requires Encode(JArr(items)).Success? && EncodeItems(items).Success? && i < |items|
    ensures var v, ps := Encode(JArr(items)).value.data, EncodeItems(items).value;
            && EntryWord(v, i).Success? && EntryOf(EntryWord(v, i).value, Total(ps[..i])) == ps[i].entry
            && var start, begin, end := CONTAINER_HEADER_LEN + |items| * JENTRY_LEN, Total(ps[..i]), Total(ps[..i + 1]);
               end == begin + ps[i].entry.length && start + end <= |v| && v[start + begin..start + end] == ps[i].data
  {
    hide Encode, ArrayBytes, EncodeItems, LaidOut, EntryWord, EntryOf, Total;
    EncodeArrayForm(items);
    var ps := EncodeItems(items).value;
    ItemsWellFormed(items);
    ArrayLaidOut(ps);
    EntryAt(ArrayBytes(ps), ps, |ps|, i);
  }

  /** encodedObjectIterator. */
  class ObjectIterator {
    var curKeyIdx: nat
    const keyOffset: nat
    var curValueIdx: nat
    const valueOffset: nat
    var idx: nat
    const len: nat
    const data: bytes

    ghost predicate Valid(pairs: seq<Pair>)
      reads this
    {
      && Encode(JObj(pairs)).Success? && EncodeKeys(pairs).Success? && EncodeValues(pairs).Success?
      && data == Encode(JObj(pairs)).value.data && len == |pairs| && idx <= len
      && keyOffset == CONTAINER_HEADER_LEN + len * JENTRY_LEN * 2
      && valueOffset == keyOffset + Total(EncodeKeys(pairs).value)
      && curKeyIdx == Total(EncodeKeys(pairs).value[..idx])
      && curValueIdx == Total(EncodeValues(pairs).value[..idx])
    }

    /** iterObject: the first loop seeks to where the values start. */
    constructor (value: bytes, containerLen: nat, ghost pairs: seq<Pair>)
      requires Denotes(LEnc(ObjectKind, containerLen, value), JObj(pairs))
      ensures Valid(pairs) && idx == 0
    {
      hide Encode, EncodeKeys, EncodeValues, Total, EntryWord, EntryOf;
      var start := CONTAINER_HEADER_LEN + containerLen * JENTRY_LEN * 2;
      var cur := start;
      EncodeObjectForm(pairs);
      ghost var ks := EncodeKeys(pairs).value;
      assert ks[..0] == [];
      NoTotal();
      for i := 0 to containerLen
        invariant cur == start + Total(ks[..i])
      {
        ObjectEntryAt(pairs, i);
        var w := EntryWord(value, i);
        cur := cur + EntryOf(w.value, cur - start).length;
      }
      assert ks[..containerLen] == ks && EncodeValues(pairs).value[..0] == [];
      curKeyIdx, keyOffset, curValueIdx, valueOffset := 0, start, 0, cur;
      idx, len, data := 0, containerLen, value;
    }

    /** nextEncoded: the next key's bytes and its value's entry and bytes. */
    method NextEncoded(ghost pairs: seq<Pair>) returns (key: bytes, entry: JEntry, next: bytes, ok: bool)
      requires Valid(pairs)
      modifies this
      ensures Valid(pairs) && ok == (old(idx) < |pairs|)
      ensures ok ==> idx == old(idx) + 1 && key == pairs[old(idx)].k && Encode(pairs[old(idx)].v) == Success(Piece(entry, next))
      ensures !ok ==> idx == old(idx)
    {
      hide Encode, EncodeKeys, EncodeValues, Total, EntryWord, EntryOf;
      if idx >= len {
        return [], JEntry(NULL_TAG, 0), [], false;
      }
      ObjectEntryAt(pairs, idx);
      EncodedKey(pairs, idx);
      EncodedValue(pairs, idx);
      var kw := EntryWord(data, idx);
      var keyEntry := EntryOf(kw.value, curKeyIdx);
      key := data[keyOffset + curKeyIdx..keyOffset + curKeyIdx + keyEntry.length];
      var offsetFromBeginningOfData := curValueIdx + valueOffset - keyOffset;
      var vw := EntryWord(data, idx + len);
      entry := EntryOf(vw.value, offsetFromBeginningOfData);
      next := data[valueOffset + curValueIdx..valueOffset + curValueIdx + entry.length];
      idx := idx + 1;
      curKeyIdx := curKeyIdx + keyEntry.length;
      curValueIdx := curValueIdx + entry.length;
      ok := true;
    }
  }

  lemma NoTotal()
    ensures Total([]) == 0
  {
  }

  lemma ObjectEntryAt(pairs: seq<Pair>, i: nat)
    requires Encode(JObj(pairs)).Success? && EncodeKeys(pairs).Success? && EncodeValues(pairs).Success? && i < |pairs|
    ensures var v, ks, vs, n := Encode(JObj(pairs)).value.data, EncodeKeys(pairs).value, EncodeValues(pairs).value, |pairs|;
            var start, t := CONTAINER_HEADER_LEN + n * JENTRY_LEN * 2, Total(EncodeKeys(pairs).value);
            && EntryWord(v, i).Success? && EntryOf(EntryWord(v, i).value, Total(ks[..i])) == ks[i].entry
            && EntryWord(v, i + n).Success? && EntryOf(EntryWord(v, i + n).value, t + Total(vs[..i])) == vs[i].entry
            && Total(ks[..i + 1]) == Total(ks[..i]) + ks[i].entry.length
            && Total(vs[..i + 1]) == Total(vs[..i]) + vs[i].entry.length
            && start + Total(ks[..i + 1]) <= |v| && start + t + Total(vs[..i + 1]) <= |v|
            && v[start + Total(ks[..i])..start + Total(ks[..i + 1])] == ks[i].data
            && v[start + t + Total(vs[..i])..start + t + Total(vs[..i + 1])] == vs[i].data
  {
    hide *;
    EncodeObjectForm(pairs);
    var ks, vs := EncodeKeys(pairs).value, EncodeValues(pairs).value;
    KeysWellFormed(pairs);
    ValuesWellFormed(pairs);
    ObjectLaidOut(ks, vs);
    KeyAt(ObjectBytes(ks, vs), ks, vs, i);
    ValueAt(ObjectBytes(ks, vs), ks, vs, i);
  }

  lemma KeyAt(v: bytes, ks: seq<Piece>, vs: seq<Piece>, i: nat)
    requires |ks| == |vs| && i < |ks| && LaidOut(v, ks + vs, |ks|)
    ensures var start := CONTAINER_HEADER_LEN + |ks| * JENTRY_LEN * 2;
            && EntryWord(v, i).Success? && EntryOf(EntryWord(v, i).value, Total(ks[..i])) == ks[i].entry
            && Total(ks[..i + 1]) == Total(ks[..i]) + ks[i].entry.length
            && start + Total(ks[..i + 1]) <= |v| && v[start + Total(ks[..i])..start + Total(ks[..i + 1])] == ks[i].data
  {
    hide LaidOut, EntryWord, EntryOf, Total;
    EntryAt(v, ks + vs, |ks|, i);
    assert (ks + vs)[..i] == ks[..i] && (ks + vs)[..i + 1] == ks[..i + 1];
  }

  lemma ValueAt(v: bytes, ks: seq<Piece>, vs: seq<Piece>, i: nat)
    requires |ks| == |vs| && i < |ks| && LaidOut(v, ks + vs, |ks|)
    ensures var n := |ks|;
            var start, t := CONTAINER_HEADER_LEN + n * JENTRY_LEN * 2, Total(ks);
            && EntryWord(v, i + n).Success? && EntryOf(EntryWord(v, i + n).value, t + Total(vs[..i])) == vs[i].entry
            && Total(vs[..i + 1]) == Total(vs[..i]) + vs[i].entry.length
            && start + t + Total(vs[..i + 1]) <= |v| && v[start + t + Total(vs[..i])..start + t + Total(vs[..i + 1])] == vs[i].data
  {
    hide LaidOut, EntryWord, EntryOf, Total;
    var k := i + |ks|;
    ValuePrefix(ks, vs, i);
    ValuePrefix(ks, vs, i + 1);
    assert i + 1 + |ks| == k + 1;
    var begin, end := Total(ks) + Total(vs[..i]), Total(ks) + Total(vs[..i + 1]);
    EntryAtRange(v, ks + vs, |ks|, k, begin, end);
  }

  lemma ValuePrefix(ks: seq<Piece>, vs: seq<Piece>, i: nat)
    requires i <= |vs|
    ensures Total((ks + vs)[..i + |ks|]) == Total(ks) + Total(vs[..i])
  {
    hide Total;
    assert (ks + vs)[..i + |ks|] == ks + vs[..i];
    TotalConcat(ks, vs[..i]);
  }

  lemma EntryAtRange(v: bytes, all: seq<Piece>, m: nat, k: nat, begin: nat, end: nat)
    requires LaidOut(v, all, m) && k < |all| && begin == Total(all[..k]) && end == Total(all[..k + 1])
    ensures EntryWord(v, k).Success? && EntryOf(EntryWord(v, k).value, begin) == all[k].entry
    ensures var start := CONTAINER_HEADER_LEN + |all| * JENTRY_LEN;
            end == begin + all[k].entry.length && start + end <= |v| && v[start + begin..start + end] == all[k].data
  {
    hide LaidOut, EntryWord, EntryOf, Total;
    EntryAt(v, all, m, k);
  }

  // ------------------------------------------------- the document with its cache

  datatype LazyPair = LazyPair(k: bytes, v: Lazy)

  /** Decoded forms: complete, or with members still lazy. */
  datatype Form = Full(j: Json) | ShallowArr(items: seq<Lazy>) | ShallowObj(pairs: seq<LazyPair>)

  /** What a lookup hands out: a lazy member, or one taken from a complete decoding. */
  datatype Member = Undecoded(l: Lazy) | Plain(j: Json)

  ghost predicate Stands(f: Form, doc: Json) {
    match f
    case Full(j) => j == doc
    case ShallowArr(items) => doc.JArr? && |items| == |doc.items| && forall i :: 0 <= i < |items| ==> Denotes(items[i], doc.items[i])
    case ShallowObj(pairs) =>
      doc.JObj? && |pairs| == |doc.pairs| &&
      forall i :: 0 <= i < |pairs| ==> pairs[i].k == doc.pairs[i].k && Denotes(pairs[i].v, doc.pairs[i].v)
  }

  ghost predicate Means(m: Option<Member>, want: Option<Json>) {
    match want
    case None => m == None
    case Some(j) => m.Some? && match m.value
                               case Undecoded(l) => Denotes(l, j)
                               case Plain(p) => p == j
  }

  /** The decoded answer to Exists. */
  predicate ExistsIn(j: Json, key: bytes) {
    match j
    case JStr(s) => s == key
    case JArr(items) => JStr(key) in items
    case JObj(pairs) => FindKey(pairs, key).Some?
    case _ => false
  }

  lemma {:induction false} FindKeyByIndex(pairs: seq<Pair>, key: bytes, i: int, ok: bool)
    requires SortedPairs(pairs)
    requires ok ==> 0 <= i < |pairs| && pairs[i].k == key
    requires !ok ==> key !in Keys(pairs)
    ensures FindKey(pairs, key) == if ok then Some(pairs[i].v) else None
    decreases |pairs|
  {
    hide CompareBytes;
    if pairs != [] {
      if pairs[0].k == key {
        CompareSelf(key);
        assert pairs[0].k == Keys(pairs)[0];
      } else {
        assert forall k :: 0 <= k < |pairs| - 1 ==> pairs[1..][k] == pairs[k + 1] && Keys(pairs[1..])[k] == Keys(pairs)[k + 1];
        FindKeyByIndex(pairs[1..], key, i - 1, ok);
      }
    }
  }

  /** jsonEncoded. */
  class JsonEncoded {
    const kind: Kind
    const len: nat
    const value: bytes
    var cachedDecoded: Option<Form>

    ghost predicate Valid(doc: Json)
      reads this
    {
      Denotes(LEnc(kind, len, value), doc) && (cachedDecoded.Some? ==> Stands(cachedDecoded.value, doc))
    }

    constructor (kind: Kind, len: nat, value: bytes)
      ensures this.kind == kind && this.len == len && this.value == value && cachedDecoded == None
    {
      this.kind, this.len, this.value, cachedDecoded := kind, len, value, None;
    }

    /** FetchValIdx: the cache never changes the answer. */
    method FetchValIdx(idx: int, ghost doc: Json) returns (r: Result<Option<Member>>)
      requires Valid(doc)
      ensures r.Success? && Means(r.value, FetchIdx(doc, idx))
    {
      hide Encode, LazyFetchIdx, Denotes;
      if cachedDecoded.Some? {
        match cachedDecoded.value {
          case Full(j) =>
            if j.JArr? {
              var i := if idx < 0 then |j.items| + idx else idx;
              if 0 <= i < |j.items| {
                return Success(Some(Plain(j.items[i])));
              }
            }
            return Success(None);
          case ShallowArr(items) =>
            var i := if idx < 0 then |items| + idx else idx;
            return Success(if 0 <= i < |items| then Some(Undecoded(items[i])) else None);
          case ShallowObj(_) =>
            return Success(None);
        }
      }
      FetchIdxAgrees(LEnc(kind, len, value), doc, idx);
      var lazy := LazyFetchIdx(LEnc(kind, len, value), idx);
      match lazy {
        case Failure(e) => return Failure(e);
        case Success(None) => return Success(None);
        case Success(Some(l)) => return Success(Some(Undecoded(l)));
      }
    }

    /** FetchValKey. */
    method FetchValKey(key: bytes, ghost doc: Json) returns (r: Result<Option<Member>>)
      requires Valid(doc) && (doc.JObj? ==> SortedPairs(doc.pairs))
      ensures r.Success? && Means(r.value, FetchKey(doc, key))
    {
      hide Encode, LazyFetchKey, Denotes, FindKey;
      if cachedDecoded.Some? {
        match cachedDecoded.value {
          case Full(j) =>
            if j.JObj? {
              var i, ok := FindPairIndexByKey(Keys(j.pairs), key);
              FindKeyByIndex(j.pairs, key, i, ok);
              return Success(if ok then Some(Plain(j.pairs[i].v)) else None);
            }
            return Success(None);
          case ShallowArr(_) =>
            return Success(None);
          case ShallowObj(pairs) =>
            var ks := seq(|pairs|, i requires 0 <= i < |pairs| => pairs[i].k);
            assert ks == Keys(doc.pairs);
            var i, ok := FindPairIndexByKey(ks, key);
            FindKeyByIndex(doc.pairs, key, i, ok);
            return Success(if ok then Some(Undecoded(pairs[i].v)) else None);
        }
      }
      FetchKeyAgrees(LEnc(kind, len, value), doc, key);
      var lazy := LazyFetchKey(LEnc(kind, len, value), key);
      match lazy {
        case Failure(e) => return Failure(e);
        case Success(None) => return Success(None);
        case Success(Some(l)) => return Success(Some(Undecoded(l)));
      }
    }

    /** Exists. */
    method Exists(key: bytes, ghost doc: Json) returns (r: Result<bool>)
      requires Valid(doc) && (doc.JObj? ==> SortedPairs(doc.pairs))
      modifies this
      ensures Valid(doc) && r == Success(ExistsIn(doc, key))
    {
      hide Encode, FindKey;
      if cachedDecoded.Some? && cachedDecoded.value.Full? {
        r := ExistsDecoded(cachedDecoded.value.j, key);
        return;
      }
      if kind.ObjectKind? {
        var v := FetchValKey(key, doc);
        return Success(v.value.Some?);
      } else if kind.ArrayKind? {
        r := ExistsInArray(key, doc);
      } else {
        var s := Decode(doc);
        r := ExistsDecoded(s.value, key);
      }
    }

    /** The decoded jsonArray, jsonObject and scalar Exists methods. */
    static method ExistsDecoded(j: Json, key: bytes) returns (r: Result<bool>)
      requires j.JObj? ==> SortedPairs(j.pairs)
      ensures r == Success(ExistsIn(j, key))
    {
      match j {
        case JStr(s) => return Success(s == key);
        case JArr(items) =>
          for i := 0 to |items|
            invariant JStr(key) !in items[..i]
          {
            if items[i] == JStr(key) {
              return Success(true);
            }
          }
          assert items[..|items|] == items;
          return Success(false);
        case JObj(pairs) =>
          var i, ok := FindPairIndexByKey(Keys(pairs), key);
          FindKeyByIndex(pairs, key, i, ok);
          return Success(ok);
        case _ => return Success(false);
      }
    }

    /** The array case of Exists: strings are recognized without decoding them. */
    method ExistsInArray(key: bytes, ghost doc: Json) returns (r: Result<bool>)
      requires Denotes(LEnc(kind, len, value), doc) && doc.JArr?
      ensures r == Success(JStr(key) in doc.items)
    {
      hide Encode, NewEncoded;
      var iter := new ArrayIterator(value, len, doc.items);
      while true
        invariant fresh(iter) && iter.Valid(doc.items) && JStr(key) !in doc.items[..iter.idx]
        decreases |doc.items| - iter.idx
      {
        var entry, data, ok := iter.NextEncoded(doc.items);
        if !ok {
          assert doc.items[..iter.idx] == doc.items;
          return Success(false);
        }
        ghost var item := doc.items[iter.idx - 1];
        NewEncodedDenotes(item);
        StringDenotes(NewEncoded(entry, data).value, item, key);
        var next := NewEncoded(entry, data);
        if next.value.LEnc? && next.value.kind.StringKind? && next.value.value == key {
          return Success(true);
        }
      }
    }

    /** decode: fill the cache with the complete document. */
    method Decode(ghost doc: Json) returns (r: Result<Json>)
      requires Valid(doc)
      modifies this
      ensures Valid(doc) && r == Success(doc)
    {
      hide Encode, DecodeJson, JsonNumbers.DecodeNumber;
      DecodesTo(kind, len, value, doc);
      if kind.NumberKind? {
        var d := JsonNumbers.DecodeNumber(value);
        return Success(JNum(d.value));
      } else if kind.StringKind? {
        return Success(JStr(value));
      } else if kind.TrueKind? {
        return Success(JTrue);
      } else if kind.FalseKind? {
        return Success(JFalse);
      } else if kind.NullKind? {
        return Success(JNull);
      }
      var d := DecodeJson(value);
      cachedDecoded := Some(Full(d.value));
      return Success(d.value);
    }

    /** shallowDecode: members stay lazy; objects are remembered. */
    method ShallowDecode(ghost doc: Json) returns (r: Result<Form>)
      requires Valid(doc)
      modifies this
      ensures Valid(doc) && r.Success? && Stands(r.value, doc)
    {
      hide Encode, NewEncoded;
      if cachedDecoded.Some? {
        return Success(cachedDecoded.value);
      }
      if kind.ArrayKind? {
        var items := ShallowItems(doc);
        return Success(ShallowArr(items));
      } else if kind.ObjectKind? {
        var pairs := ShallowPairs(doc);
        cachedDecoded := Some(ShallowObj(pairs));
        return Success(ShallowObj(pairs));
      }
      var s := Decode(doc);
      return Success(Full(s.value));
    }

    method ShallowItems(ghost doc: Json) returns (result: seq<Lazy>)
      requires Denotes(LEnc(kind, len, value), doc) && doc.JArr?
      ensures Stands(ShallowArr(result), doc)
    {
      hide Encode, NewEncoded, Denotes;
      Unfolded(kind, len, value, doc);
      var iter := new ArrayIterator(value, len, doc.items);
      result := [];
      for i := 0 to len
        invariant fresh(iter) && iter.Valid(doc.items) && iter.idx == i
        invariant |result| == i && forall k :: 0 <= k < i ==> Denotes(result[k], doc.items[k])
      {
        var entry, next, ok := iter.NextEncoded(doc.items);
        NewEncodedDenotes(doc.items[i]);
        var l := NewEncoded(entry, next);
        result := result + [l.value];
      }
    }

    method ShallowPairs(ghost doc: Json) returns (result: seq<LazyPair>)
      requires Denotes(LEnc(kind, len, value), doc) && doc.JObj?
      ensures Stands(ShallowObj(result), doc)
    {
      hide Encode, NewEncoded, Denotes;
      Unfolded(kind, len, value, doc);
      var iter := new ObjectIterator(value, len, doc.pairs);
      result := [];
      for i := 0 to len
        invariant fresh(iter) && iter.Valid(doc.pairs) && iter.idx == i
        invariant |result| == i
        invariant forall k :: 0 <= k < i ==> result[k].k == doc.pairs[k].k && Denotes(result[k].v, doc.pairs[k].v)
      {
        var key, entry, next, ok := iter.NextEncoded(doc.pairs);
        NewEncodedDenotes(doc.pairs[i].v);
        var l := NewEncoded(entry, next);
        result := result + [LazyPair(key, l.value)];
      }
    }
  }

  lemma Unfolded(kind: Kind, len: nat, value: bytes, doc: Json)
    requires Denotes(LEnc(kind, len, value), doc)
    ensures kind == KindOf(doc) && (doc.JArr? || doc.JObj? ==> len == Count(doc))
  {
  }

  lemma StringDenotes(l: Lazy, j: Json, key: bytes)
    requires Denotes(l, j) && (j.JStr? ==> l.LEnc?)
    ensures (l.LEnc? && l.kind.StringKind? && l.value == key) <==> j == JStr(key)
  {
  }

  lemma DecodesTo(kind: Kind, len: nat, value: bytes, doc: Json)
    requires Denotes(LEnc(kind, len, value), doc)
    ensures doc.JArr? || doc.JObj? ==> DecodeJson(value) == Ok([], doc)
    ensures doc.JNum? ==> JsonNumbers.DecodeNumber(value) == Ok([], doc.d)
    ensures doc.JStr? ==> value == doc.s
  {
    assert value + [] == value;
    hide DecodeJson, JsonNumbers.DecodeNumber, JsonNumbers.EncodeNumber, EncodeItems, EncodeKeys, EncodeValues;
    if doc.JArr? || doc.JObj? {
      ContainerInverts(doc, []);
    } else if doc.JNum? {
      JsonNumbers.NumberRoundTrip(doc.d, []);
    }
  }
}
