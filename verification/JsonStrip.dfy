/** Stripping null fields from a JSON document (StripNulls in pkg/util/json/json.go). */
module JsonStrip {
  import opened ByteStrings
  import opened Wrappers
  import opened Json
  import opened JsonLazy
  import JsonObjects

  /** Fields holding null disappear from objects at every depth; null elements of arrays stay. */
  function Strip(j: Json): Json {
    match j
    case JArr(items) => JArr(StripItems(items))
    case JObj(pairs) => JObj(StripPairs(pairs))
    case _ => j
  }

  function StripItems(items: seq<Json>): (r: seq<Json>)
    ensures |r| == |items|
  {
    if items == [] then [] else [Strip(items[0])] + StripItems(items[1..])
  }

  function StripPairs(pairs: seq<Pair>): seq<Pair> {
    if pairs == [] then []
    else (if pairs[0].v.JNull? then [] else [Pair(pairs[0].k, Strip(pairs[0].v))]) + StripPairs(pairs[1..])
  }

  predicate HasNullField(j: Json) {
    match j
    case JArr(items) => exists x :: x in items && HasNullField(x)
    case JObj(pairs) => exists p: Pair :: p in pairs && (p.v.JNull? || HasNullField(p.v))
    case _ => false
  }

  lemma {:induction false} StripItemsAt(items: seq<Json>, i: nat)
    requires i < |items|
    ensures StripItems(items)[i] == Strip(items[i])
  {
    if i > 0 { StripItemsAt(items[1..], i - 1); }
  }

  lemma {:induction false} StripItemsConcat(a: seq<Json>, b: seq<Json>)
    ensures StripItems(a + b) == StripItems(a) + StripItems(b)
  {
    if a == [] {
      assert a + b == b;
    } else {
      assert (a + b)[1..] == a[1..] + b;
      StripItemsConcat(a[1..], b);
    }
  }

  lemma {:induction false} StripPairsConcat(a: seq<Pair>, b: seq<Pair>)
    ensures StripPairs(a + b) == StripPairs(a) + StripPairs(b)
  {
    if a == [] {
      assert a + b == b;
    } else {
      assert (a + b)[1..] == a[1..] + b;
      StripPairsConcat(a[1..], b);
    }
  }

  predicate NullPair(p: Pair) {
    p.v.JNull? || HasNullField(p.v)
  }

  /** Without null fields there is nothing to strip. */
  lemma {:induction false} CleanStays(j: Json)
    requires !HasNullField(j)
    ensures Strip(j) == j
    decreases j, 0
  {
    match j
    case JArr(items) => CleanItems(items);
    case JObj(pairs) => CleanPairs(pairs);
    case _ =>
  }

  lemma {:induction false} CleanItems(items: seq<Json>)
    requires forall i :: 0 <= i < |items| ==> !HasNullField(items[i])
    ensures StripItems(items) == items
    decreases items
  {
    if items != [] {
      CleanStays(items[0]);
      CleanItems(items[1..]);
      assert items == [items[0]] + items[1..];
    }
  }

  lemma {:induction false} CleanPairs(pairs: seq<Pair>)
    requires forall i :: 0 <= i < |pairs| ==> !NullPair(pairs[i])
    ensures StripPairs(pairs) == pairs
    decreases pairs
  {
    if pairs != [] {
      CleanStays(pairs[0].v);
      CleanPairs(pairs[1..]);
      assert pairs == [pairs[0]] + pairs[1..];
    }
  }

  // ------------------------------------------------- the loops

  /** StripNulls: whether a new document had to be made, and the document. */
  method StripNulls(j: Json) returns (r: Json, stripped: bool)
    ensures r == Strip(j) && (stripped <==> HasNullField(j))
    decreases j, 1
  {
    match j {
      case JArr(items) =>
        var s, changed := StripArray(items);
        return JArr(s), changed;
      case JObj(pairs) =>
        var s, changed := StripObject(pairs);
        return JObj(s), changed;
      case _ => return j, false;
    }
  }

  method StripArray(items: seq<Json>) returns (r: seq<Json>, stripped: bool)
    ensures r == StripItems(items) && (stripped <==> exists x :: x in items && HasNullField(x))
    decreases items, 0
  {
    hide HasNullField, Strip;
    for i := 0 to |items|
      invariant forall k :: 0 <= k < i ==> !HasNullField(items[k])
    {
      var json, needToStrip := StripNulls(items[i]);
      if needToStrip {
        assert items[i] in items;
        var newArr := items[..i] + [json];
        CleanItems(items[..i]);
        StripItemsConcat(items[..i], [items[i]]);
        StripOne(items[i]);
        assert items[..i + 1] == items[..i] + [items[i]];
        for k := i + 1 to |items|
          invariant newArr == StripItems(items[..k])
        {
          var elem, _ := StripNulls(items[k]);
          StripItemsConcat(items[..k], [items[k]]);
          StripOne(items[k]);
          assert items[..k + 1] == items[..k] + [items[k]];
          newArr := newArr + [elem];
        }
        assert items[..|items|] == items;
        return newArr, true;
      }
    }
    CleanItems(items);
    return items, false;
  }

  lemma StripOne(x: Json)
    ensures StripItems([x]) == [Strip(x)]
  {
    assert [x][1..] == [];
  }

  lemma StripOnePair(p: Pair)
    ensures StripPairs([p]) == if p.v.JNull? then [] else [Pair(p.k, Strip(p.v))]
  {
    assert [p][1..] == [];
  }

  method StripObject(pairs: seq<Pair>) returns (r: seq<Pair>, stripped: bool)
    ensures r == StripPairs(pairs) && (stripped <==> exists p: Pair :: p in pairs && NullPair(p))
    decreases pairs, 0, 1
  {
    hide HasNullField, Strip, NullPair, StripPairs;
    for i := 0 to |pairs|
      invariant forall k :: 0 <= k < i ==> !NullPair(pairs[k])
    {
      var e := pairs[i];
      var json, needToStrip := JNull, false;
      var hasNullValue := e.v.JNull?;
      NullPairIs(e);
      if !hasNullValue {
        json, needToStrip := StripNulls(e.v);
      }
      if hasNullValue || needToStrip {
        assert pairs[i] in pairs;
        var newObj := pairs[..i];
        if !hasNullValue {
          newObj := newObj + [Pair(e.k, json)];
        }
        CleanPairs(pairs[..i]);
        StripPairsConcat(pairs[..i], [pairs[i]]);
        StripOnePair(pairs[i]);
        assert pairs[..i + 1] == pairs[..i] + [pairs[i]];
        newObj := StripRest(pairs, i + 1, newObj);
        return newObj, true;
      }
    }
    CleanPairs(pairs);
    return pairs, false;
  }

  /** The fields from i on, behind a first field that made a copy necessary. */
  method StripRest(pairs: seq<Pair>, i: nat, start: seq<Pair>) returns (newObj: seq<Pair>)
    requires i <= |pairs| && start == StripPairs(pairs[..i])
    ensures newObj == StripPairs(pairs)
    decreases pairs, 0, 0
  {
    hide HasNullField, Strip, StripPairs;
    newObj := start;
    for k := i to |pairs|
      invariant newObj == StripPairs(pairs[..k])
    {
      var elem := pairs[k];
      StripPairsConcat(pairs[..k], [elem]);
      StripOnePair(elem);
      assert pairs[..k + 1] == pairs[..k] + [elem];
      if !elem.v.JNull? {
        var inner, _ := StripNulls(elem.v);
        newObj := newObj + [Pair(elem.k, inner)];
      }
    }
    assert pairs[..|pairs|] == pairs;
  }

  lemma NullPairIs(p: Pair)
    ensures NullPair(p) <==> p.v.JNull? || HasNullField(p.v)
  {
  }

  // ------------------------------------------------- what stripping means

  /** No null field is left at any depth. */
  lemma {:induction false} StripLeavesNone(j: Json)
    ensures !HasNullField(Strip(j)) && (Strip(j).JNull? ==> j.JNull?)
    decreases j, 0
  {
    match j
    case JArr(items) =>
      forall i | 0 <= i < |items| ensures !HasNullField(StripItems(items)[i]) {
        StripItemsAt(items, i);
        StripLeavesNone(items[i]);
      }
    case JObj(pairs) => PairsLeaveNone(pairs);
    case _ =>
  }

  lemma {:induction false} PairsLeaveNone(pairs: seq<Pair>)
    ensures forall i :: 0 <= i < |StripPairs(pairs)| ==> !NullPair(StripPairs(pairs)[i])
    decreases pairs
  {
    hide Strip, HasNullField;
    if pairs != [] {
      StripLeavesNone(pairs[0].v);
      PairsLeaveNone(pairs[1..]);
    }
  }

  /** A field of the stripped object is the stripped field, if that was not null. */
  lemma {:induction false} StripLookup(pairs: seq<Pair>, key: bytes)
    requires SortedPairs(pairs)
    ensures FindKey(StripPairs(pairs), key) ==
      match FindKey(pairs, key) case Some(v) => (if v.JNull? then None else Some(Strip(v))) case None => None
  {
    hide CompareBytes, Strip, SortedPairs, StripPairs;
    if pairs == [] {
      StripNothing();
    } else {
      var p, tail := pairs[0], StripPairs(pairs[1..]);
      JsonObjects.SortedTail(pairs);
      StripLookup(pairs[1..], key);
      StripPairsIs(pairs);
      if !p.v.JNull? { FindCons(Pair(p.k, Strip(p.v)), tail, key); }
    }
  }

  lemma StripNothing()
    ensures StripPairs([]) == []
  {
  }

  lemma StripPairsIs(pairs: seq<Pair>)
    requires pairs != []
    ensures StripPairs(pairs) ==
      if pairs[0].v.JNull? then StripPairs(pairs[1..]) else [Pair(pairs[0].k, Strip(pairs[0].v))] + StripPairs(pairs[1..])
  {
    assert [] + StripPairs(pairs[1..]) == StripPairs(pairs[1..]);
  }

  lemma FindCons(p: Pair, s: seq<Pair>, key: bytes)
    ensures FindKey([p] + s, key) == if p.k == key then Some(p.v) else FindKey(s, key)
  {
    assert ([p] + s)[1..] == s;
  }

  lemma {:induction false} StripKeys(pairs: seq<Pair>, i: nat) returns (k: nat)
    requires i < |StripPairs(pairs)|
    ensures i <= k < |pairs| && StripPairs(pairs)[i] == Pair(pairs[k].k, Strip(pairs[k].v))
    decreases |pairs|
  {
    hide Strip;
    if pairs[0].v.JNull? {
      var m := StripKeys(pairs[1..], i);
      k := m + 1;
    } else if i == 0 {
      k := 0;
    } else {
      var m := StripKeys(pairs[1..], i - 1);
      k := m + 1;
    }
  }

  lemma {:induction false} StripPairsSorted(pairs: seq<Pair>)
    requires SortedPairs(pairs)
    ensures SortedPairs(StripPairs(pairs))
    decreases |pairs|
  {
    hide CompareBytes, Strip;
    if pairs != [] {
      StripPairsSorted(pairs[1..]);
      var s := StripPairs(pairs[1..]);
      forall i | 0 <= i < |s| ensures CompareBytes(pairs[0].k, s[i].k) < 0 {
        var k := StripKeys(pairs[1..], i);
      }
      JsonObjects.SortedCons(Pair(pairs[0].k, Strip(pairs[0].v)), s);
    }
  }

  /** Keys stay strictly increasing at every depth. */
  lemma {:induction false} StripKeepsOrder(j: Json)
    requires JsonLazy.Sorted(j)
    ensures JsonLazy.Sorted(Strip(j))
    decreases j
  {
    match j
    case JArr(items) =>
      forall x | x in StripItems(items) ensures JsonLazy.Sorted(x) {
        var i :| 0 <= i < |items| && StripItems(items)[i] == x;
        StripItemsAt(items, i);
        StripKeepsOrder(items[i]);
      }
    case JObj(pairs) =>
      StripPairsSorted(pairs);
      forall p: Pair | p in StripPairs(pairs) ensures JsonLazy.Sorted(p.v) {
        var i :| 0 <= i < |StripPairs(pairs)| && StripPairs(pairs)[i] == p;
        var k := StripKeys(pairs, i);
        StripKeepsOrder(pairs[k].v);
      }
    case _ =>
  }
}
