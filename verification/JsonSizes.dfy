/** When a JSON document can be encoded, and how long its encoding is (pkg/util/json/encode.go). */
module JsonSizes {
  import opened ByteStrings
  import opened Varint
  import opened Json
  import opened JsonNumbers
  import opened JsonEncoding

  /** The bytes of a value: strings and numbers as they are, and four bytes for the header of an array
      or object and for the entry of each member, key or value. */
  function DataSize(j: Json): nat {
    match j
    case JNum(d) => |EncodeNumber(d)|
    case JStr(s) => |s|
    case JArr(items) => 4 + ItemsSize(items)
    case JObj(pairs) => 4 + PairsSize(pairs)
    case _ => 0
  }

  function ItemsSize(items: seq<Json>): nat {
    if items == [] then 0 else 4 + DataSize(items[0]) + ItemsSize(items[1..])
  }

  function PairsSize(pairs: seq<Pair>): nat {
    if pairs == [] then 0 else 8 + |pairs[0].k| + DataSize(pairs[0].v) + PairsSize(pairs[1..])
  }

  /** No value and no key needs more than 28 bits for its length. */
  predicate Fits28(n: nat) {
    n < 0x1000_0000
  }

  predicate Fits(j: Json) {
    Fits28(DataSize(j)) &&
    match j
    case JArr(items) => forall x :: x in items ==> Fits(x)
    case JObj(pairs) => forall p: Pair :: p in pairs ==> Fits28(|p.k|) && Fits(p.v)
    case _ => true
  }

  /** Exactly the documents that fit are encoded, with the bytes they need. */
  lemma {:induction false} EncodeSucceeds(j: Json)
    ensures Encode(j).Success? <==> Fits(j)
    ensures Encode(j).Success? ==> |Encode(j).value.data| == DataSize(j)
    decreases j
  {
    match j
    case JArr(items) => ItemsSucceed(items);
    case JObj(pairs) => PairsSucceed(pairs);
    case _ =>
  }

  lemma ArrayLength(ps: seq<Piece>)
    requires AllWellFormed(ps)
    ensures |ArrayBytes(ps)| == 4 + 4 * |ps| + Total(ps)
  {
    DataLength(ps);
  }

  lemma ObjectLength(ks: seq<Piece>, vs: seq<Piece>)
    requires AllWellFormed(ks) && AllWellFormed(vs)
    ensures |ObjectBytes(ks, vs)| == 4 + 4 * |ks| + 4 * |vs| + Total(ks) + Total(vs)
  {
    DataLength(ks);
    DataLength(vs);
  }

  lemma {:induction false} ItemsSucceed(items: seq<Json>)
    ensures EncodeItems(items).Success? <==> forall x :: x in items ==> Fits(x)
    ensures EncodeItems(items).Success? ==> |ArrayBytes(EncodeItems(items).value)| == 4 + ItemsSize(items)
    decreases items, 1
  {
    hide ArrayBytes;
    ItemsTotal(items);
    if EncodeItems(items).Success? {
      ItemsWellFormed(items);
      ArrayLength(EncodeItems(items).value);
    }
  }

  lemma {:induction false} ItemsTotal(items: seq<Json>)
    ensures EncodeItems(items).Success? <==> forall x :: x in items ==> Fits(x)
    ensures EncodeItems(items).Success? ==> 4 * |items| + Total(EncodeItems(items).value) == ItemsSize(items)
    decreases items, 0
  {
    hide Fits, Encode;
    if items != [] {
      EncodeSucceeds(items[0]);
      ItemsTotal(items[1..]);
      if EncodeItems(items).Success? {
        OneWellFormed(items[0]);
        assert EncodeItems(items).value[1..] == EncodeItems(items[1..]).value;
      }
    }
  }

  lemma OneWellFormed(j: Json)
    requires Encode(j).Success?
    ensures Encode(j).value.entry.length == |Encode(j).value.data|
  {
    EncodeWellFormed(j);
  }

  lemma {:induction false} PairsSucceed(pairs: seq<Pair>)
    ensures EncodeKeys(pairs).Success? && EncodeValues(pairs).Success? <==> forall p: Pair :: p in pairs ==> Fits28(|p.k|) && Fits(p.v)
    ensures EncodeKeys(pairs).Success? && EncodeValues(pairs).Success? ==>
      |ObjectBytes(EncodeKeys(pairs).value, EncodeValues(pairs).value)| == 4 + PairsSize(pairs)
    decreases pairs, 1
  {
    hide ObjectBytes;
    PairsTotal(pairs);
    if EncodeKeys(pairs).Success? && EncodeValues(pairs).Success? {
      KeysWellFormed(pairs);
      ValuesWellFormed(pairs);
      ObjectLength(EncodeKeys(pairs).value, EncodeValues(pairs).value);
    }
  }

  lemma {:induction false} PairsTotal(pairs: seq<Pair>)
    ensures EncodeKeys(pairs).Success? <==> forall p: Pair :: p in pairs ==> Fits28(|p.k|)
    ensures EncodeValues(pairs).Success? <==> forall p: Pair :: p in pairs ==> Fits(p.v)
    ensures EncodeKeys(pairs).Success? && EncodeValues(pairs).Success? ==>
      8 * |pairs| + Total(EncodeKeys(pairs).value) + Total(EncodeValues(pairs).value) == PairsSize(pairs)
    decreases pairs, 0
  {
    hide Fits, Encode;
    if pairs != [] {
      EncodeSucceeds(pairs[0].v);
      PairsTotal(pairs[1..]);
      if EncodeKeys(pairs).Success? { assert EncodeKeys(pairs).value[1..] == EncodeKeys(pairs[1..]).value; }
      if EncodeValues(pairs).Success? {
        OneWellFormed(pairs[0].v);
        assert EncodeValues(pairs).value[1..] == EncodeValues(pairs[1..]).value;
      }
    }
  }

  /** The whole encoding: the value itself, or header, entry and data of a scalar. */
  lemma JsonSize(j: Json)
    ensures EncodeJson(j).Success? <==> Fits(j)
    ensures Fits(j) ==> |EncodeJson(j).value| == DataSize(j) + if j.JArr? || j.JObj? then 0 else 8
  {
    hide Encode, Fits;
    EncodeSucceeds(j);
  }
}
