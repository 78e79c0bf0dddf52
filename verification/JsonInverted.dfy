/** The keys of an inverted index on JSON documents (pkg/util/json/json.go), and that they are
    measured and cut as they were written. */
module JsonInverted {
  import opened ByteStrings
  import opened Varint
  import opened KeyBytes
  import KeyDecimal
  import KeyBitArray
  import opened KeyTokens
  import opened KeyRows
  import Json

  const ESCAPED_JSON_KEY_TERM: byte := 0x02
  const ESCAPED_JSON_ARRAY: byte := 0x03

  predicate Keyable(j: Json.Json) {
    match j
    case JNum(d) => d.Finite? && KeyDecimal.Representable(d)
    case JArr(items) => forall x :: x in items ==> Keyable(x)
    case JObj(pairs) => forall p: Json.Pair :: p in pairs ==> Keyable(p.v)
    case _ => true
  }

  /** encodeInvertedIndexKeys behind the prefix b: one key for each path to a leaf. */
  function KeysOf(b: bytes, j: Json.Json): set<bytes>
    requires Keyable(j)
    decreases j
  {
    var leaf := b + [ESCAPE, ESCAPED_TERM];
    match j
    case JNull => {leaf + [ENCODED_NULL]}
    case JTrue => {leaf + [TRUE_TAG]}
    case JFalse => {leaf + [FALSE_TAG]}
    case JStr(s) => {leaf + EncodeBytesAscending(s)}
    case JNum(d) => {leaf + KeyDecimal.EncodeDecimal(d, false)}
    case JArr(items) =>
      if items == [] then {leaf + [JSON_EMPTY_ARRAY]} else ItemKeys(b + [ESCAPE, ESCAPED_JSON_ARRAY], items)
    case JObj(pairs) => if pairs == [] then {leaf + [JSON_EMPTY_OBJECT]} else PairKeys(b, pairs)
  }

  function ItemKeys(b: bytes, items: seq<Json.Json>): set<bytes>
    requires forall x :: x in items ==> Keyable(x)
    decreases items
  {
    if items == [] then {} else KeysOf(b, items[0]) + ItemKeys(b, items[1..])
  }

  predicate Branches(j: Json.Json) {
    (j.JArr? && j.items != []) || (j.JObj? && j.pairs != [])
  }

  /** The key of a pair ends without a separator if its value is a leaf. */
  function KeyString(p: Json.Pair): bytes {
    var end := !Branches(p.v);
    Escaped(p.k, ASCENDING) + if end then [] else [ESCAPE, ESCAPED_JSON_KEY_TERM]
  }

  function PairKeys(b: bytes, pairs: seq<Json.Pair>): set<bytes>
    requires forall p: Json.Pair :: p in pairs ==> Keyable(p.v)
    decreases pairs
  {
    if pairs == [] then {}
    else (set c | c in KeysOf([], pairs[0].v) :: b + KeyString(pairs[0]) + c) + PairKeys(b, pairs[1..])
  }

  // ------------------------------------------------- their shape

  /** No escape pair of t ends a path, and t does not end inside one. */
  predicate Quiet(t: bytes)
    decreases |t|
  {
    t == [] ||
    (if t[0] != ESCAPE then Quiet(t[1..])
     else |t| > 1 && t[1] !in {ESCAPED_TERM, JSON_EMPTY_OBJECT, JSON_EMPTY_ARRAY} && Quiet(t[2..]))
  }

  lemma {:induction false} QuietConcat(s: bytes, t: bytes)
    requires Quiet(s) && Quiet(t)
    ensures Quiet(s + t)
    decreases |s|
  {
    if s == [] {
      assert s + t == t;
    } else if s[0] != ESCAPE {
      assert (s + t)[1..] == s[1..] + t;
      QuietConcat(s[1..], t);
    } else {
      assert (s + t)[2..] == s[2..] + t;
      QuietConcat(s[2..], t);
    }
  }

  lemma {:induction false} EscapedQuiet(s: bytes)
    ensures Quiet(Escaped(s, ASCENDING))
    decreases |s|
  {
    if s != [] {
      var e, t := Escaped(s, ASCENDING), Escaped(s[1..], ASCENDING);
      EscapedQuiet(s[1..]);
      if s[0] == ESCAPE { assert e[2..] == t; } else { assert e[1..] == t; }
    }
  }

  /** What stands behind a path is measured by itself. */
  ghost predicate Leaf(v: bytes) {
    v == [JSON_EMPTY_ARRAY] || v == [JSON_EMPTY_OBJECT] ||
    (v != [] && v[0] != JSON_EMPTY_ARRAY && v[0] != JSON_EMPTY_OBJECT && forall rest :: PeekLength(v + rest) == Success(|v|))
  }

  /** c is the path t, its terminator and the leaf v. */
  ghost predicate Splits(c: bytes, t: bytes, v: bytes) {
    c == t + [ESCAPE, ESCAPED_TERM] + v && Quiet(t) && Leaf(v)
  }

  lemma LeafValue(v: bytes, rest: bytes)
    requires v in {[ENCODED_NULL], [TRUE_TAG], [FALSE_TAG]}
    ensures PeekLength(v + rest) == Success(|v|)
  {
    SingleByteLength(v + rest);
  }

  lemma ScalarLeaf(j: Json.Json) returns (v: bytes)
    requires Keyable(j) && !j.JArr? && !j.JObj?
    ensures Leaf(v) && forall b :: KeysOf(b, j) == {b + [ESCAPE, ESCAPED_TERM] + v}
  {
    hide PeekLength, EncodeBytesAscending, KeyDecimal.EncodeDecimal;
    if j.JStr? {
      v := EncodeBytesAscending(j.s);
      StrPeek(j.s, false, []);
      StrTag(j.s);
      forall rest ensures PeekLength(v + rest) == Success(|v|) { StrPeek(j.s, false, rest); }
    } else if j.JNum? {
      v := KeyDecimal.EncodeDecimal(j.d, false);
      KeyDecimal.DecimalLength(j.d, false, []);
      assert v + [] == v;
      forall rest ensures PeekLength(v + rest) == Success(|v|) { DecPeek(j.d, false, rest); }
    } else {
      v := if j.JNull? then [ENCODED_NULL] else if j.JTrue? then [TRUE_TAG] else [FALSE_TAG];
      forall rest ensures PeekLength(v + rest) == Success(|v|) { LeafValue(v, rest); }
    }
  }

  lemma StrTag(s: bytes)
    ensures EncodeBytesAscending(s)[0] == BYTES_MARKER
  {
  }

  lemma {:induction false} KeysSplit(b: bytes, j: Json.Json, c: bytes) returns (t: bytes, v: bytes)
    requires Keyable(j) && Quiet(b) && c in KeysOf(b, j)
    ensures Splits(c, t, v)
    decreases j
  {
    hide Leaf, Quiet;
    if !j.JArr? && !j.JObj? {
      v := ScalarLeaf(j);
      t := b;
    } else if j == Json.JArr([]) || j == Json.JObj([]) {
      t, v := b, [if j.JArr? then JSON_EMPTY_ARRAY else JSON_EMPTY_OBJECT];
      assert Leaf(v) by { EmptyLeaf(); }
    } else if j.JArr? {
      ArrayMarkQuiet();
      QuietConcat(b, [ESCAPE, ESCAPED_JSON_ARRAY]);
      t, v := ItemSplit(b + [ESCAPE, ESCAPED_JSON_ARRAY], j.items, c);
    } else {
      t, v := PairSplit(b, j.pairs, c);
    }
  }

  lemma EmptyLeaf()
    ensures Leaf([JSON_EMPTY_ARRAY]) && Leaf([JSON_EMPTY_OBJECT])
  {
  }

  lemma ArrayMarkQuiet()
    ensures Quiet([]) && Quiet([ESCAPE, ESCAPED_JSON_ARRAY]) && Quiet([ESCAPE, ESCAPED_JSON_KEY_TERM]) && Quiet([JSON_INVERTED_INDEX])
  {
    assert [ESCAPE, ESCAPED_JSON_ARRAY][2..] == [] && [ESCAPE, ESCAPED_JSON_KEY_TERM][2..] == [] && [JSON_INVERTED_INDEX][1..] == [];
  }

  lemma {:induction false} ItemSplit(b: bytes, items: seq<Json.Json>, c: bytes) returns (t: bytes, v: bytes)
    requires (forall x :: x in items ==> Keyable(x)) && Quiet(b) && c in ItemKeys(b, items)
    ensures Splits(c, t, v)
    decreases items
  {
    hide Splits, Quiet;
    if c in KeysOf(b, items[0]) { t, v := KeysSplit(b, items[0], c); } else { t, v := ItemSplit(b, items[1..], c); }
  }

  lemma {:induction false} PairSplit(b: bytes, pairs: seq<Json.Pair>, c: bytes) returns (t: bytes, v: bytes)
    requires (forall p: Json.Pair :: p in pairs ==> Keyable(p.v)) && Quiet(b) && c in PairKeys(b, pairs)
    ensures Splits(c, t, v)
    decreases pairs
  {
    hide Leaf, Quiet, Escaped;
    if c in PairKeys(b, pairs[1..]) {
      t, v := PairSplit(b, pairs[1..], c);
    } else {
      var d :| d in KeysOf([], pairs[0].v) && c == b + KeyString(pairs[0]) + d;
      ArrayMarkQuiet();
      var u, w := KeysSplit([], pairs[0].v, d);
      var key := Escaped(pairs[0].k, ASCENDING);
      EscapedQuiet(pairs[0].k);
      QuietConcat(key, [ESCAPE, ESCAPED_JSON_KEY_TERM]);
      assert key + [] == key;
      QuietConcat(b, KeyString(pairs[0]));
      QuietConcat(b + KeyString(pairs[0]), u);
      t, v := b + KeyString(pairs[0]) + u, w;
      assert c == t + [ESCAPE, ESCAPED_TERM] + v;
    }
  }

  // ------------------------------------------------- measuring

  /** One escape pair of the scan. */
  lemma InvertedStep(b: bytes, p: nat, i: nat)
    requires p + i + 1 < |b| && b[p + i] == ESCAPE && forall k :: p <= k < p + i ==> b[k] != ESCAPE
    ensures InvertedKeyFrom(b, p) ==
            if b[p + i + 1] in {ESCAPED_TERM, JSON_EMPTY_OBJECT, JSON_EMPTY_ARRAY} then Success(p + i + 2)
            else InvertedKeyFrom(b, p + i + 2)
  {
    FirstEscape(b[p..], i);
  }

  /** The scan for the end of the path stops behind the terminator. */
  lemma {:induction false} PathLength(b: bytes, p: nat, t: bytes, v: bytes)
    requires p <= |b| && b[p..] == t + [ESCAPE, ESCAPED_TERM] + v && Quiet(t)
    ensures InvertedKeyFrom(b, p) == Success(p + |t| + 2)
    decreases |t|
  {
    hide InvertedKeyFrom, Quiet;
    var s := b[p..];
    assert forall k :: 0 <= k < |s| ==> s[k] == b[p + k];
    assert forall k :: 0 <= k < |t| ==> s[k] == t[k];
    assert s[|t|] == ESCAPE && s[|t| + 1] == ESCAPED_TERM;
    var i := IndexByte(t, ESCAPE);
    assert forall k :: p <= k < p + i ==> b[k] == s[k - p];
    InvertedStep(b, p, i);
    if i < |t| {
      QuietTail(t, i);
      assert b[p + i + 2..] == s[i + 2..] == t[i + 2..] + [ESCAPE, ESCAPED_TERM] + v;
      PathLength(b, p + i + 2, t[i + 2..], v);
    }
  }

  lemma FirstEscape(s: bytes, i: nat)
    requires i < |s| && s[i] == ESCAPE && forall k :: 0 <= k < i ==> s[k] != ESCAPE
    ensures IndexByte(s, ESCAPE) == i
  {
    IndexByteIs(s, ESCAPE, i);
  }

  lemma {:induction false} QuietTail(t: bytes, i: nat)
    requires Quiet(t) && i < |t| && t[i] == ESCAPE && forall k :: 0 <= k < i ==> t[k] != ESCAPE
    ensures i + 1 < |t| && t[i + 1] !in {ESCAPED_TERM, JSON_EMPTY_OBJECT, JSON_EMPTY_ARRAY} && Quiet(t[i + 2..])
    decreases i
  {
    if i > 0 { QuietTail(t[1..], i - 1); }
  }

  lemma InvertedDispatch(b: bytes, l: nat)
    requires b != [] && b[0] == JSON_INVERTED_INDEX && InvertedKeyFrom(b, 0) == Success(l) && l < |b|
    ensures PeekLength(b) ==
            if b[l] == JSON_EMPTY_ARRAY || b[l] == JSON_EMPTY_OBJECT then Success(l + 1)
            else match PeekLength(b[l..])
                 case Failure(e) => Failure(e)
                 case Success(n) => Success(l + n)
  {
    hide InvertedKeyFrom, GetVarintLen, GetBytesLength, MultiVarintFrom, KeyDecimal.GetDecimalLen, KeyBitArray.GetBitArrayLen;
  }

  /** Every key of every document is measured to its end, whatever follows it. */
  lemma InvertedKeyLength(j: Json.Json, key: bytes, rest: bytes)
    requires Keyable(j) && key in KeysOf([JSON_INVERTED_INDEX], j)
    ensures PeekLength(key + rest) == Success(|key|) && !IsNull(key + rest)
  {
    hide PeekLength, InvertedKeyFrom, Leaf, Quiet, KeysOf;
    ArrayMarkQuiet();
    var t, v := KeysSplit([JSON_INVERTED_INDEX], j, key);
    KeysPrefixed([JSON_INVERTED_INDEX], j, key);
    var b, l := key + rest, |t| + 2;
    assert b[0..] == b == t + [ESCAPE, ESCAPED_TERM] + (v + rest);
    PathLength(b, 0, t, v + rest);
    assert b[0] == key[0] == JSON_INVERTED_INDEX;
    LeafNotEmpty(v);
    assert b[l..] == v + rest;
    InvertedDispatch(b, l);
    LeafLength(v, rest);
  }

  lemma LeafNotEmpty(v: bytes)
    requires Leaf(v)
    ensures v != []
  {
  }

  lemma LeafLength(v: bytes, rest: bytes)
    requires Leaf(v) && v != []
    ensures if v[0] == JSON_EMPTY_ARRAY || v[0] == JSON_EMPTY_OBJECT then |v| == 1 else PeekLength(v + rest) == Success(|v|)
  {
  }

  lemma {:induction false} KeysPrefixed(b: bytes, j: Json.Json, c: bytes)
    requires Keyable(j) && c in KeysOf(b, j)
    ensures b <= c
    decreases j
  {
    if j.JArr? && j.items != [] {
      ItemsPrefixed(b + [ESCAPE, ESCAPED_JSON_ARRAY], j.items, c);
    } else if j.JObj? && j.pairs != [] {
      PairsPrefixed(b, j.pairs, c);
    } else if !j.JArr? && !j.JObj? {
      var v := ScalarLeaf(j);
    }
  }

  lemma {:induction false} ItemsPrefixed(b: bytes, items: seq<Json.Json>, c: bytes)
    requires (forall x :: x in items ==> Keyable(x)) && c in ItemKeys(b, items)
    ensures b <= c
    decreases items
  {
    if c in KeysOf(b, items[0]) { KeysPrefixed(b, items[0], c); } else { ItemsPrefixed(b, items[1..], c); }
  }

  lemma {:induction false} PairsPrefixed(b: bytes, pairs: seq<Json.Pair>, c: bytes)
    requires (forall p: Json.Pair :: p in pairs ==> Keyable(p.v)) && c in PairKeys(b, pairs)
    ensures b <= c
    decreases pairs
  {
    if c in PairKeys(b, pairs[1..]) {
      PairsPrefixed(b, pairs[1..], c);
    } else {
      var d :| d in KeysOf([], pairs[0].v) && c == b + KeyString(pairs[0]) + d;
    }
  }

  /** An index entry, its inverted key followed by the columns of the row it points to, is cut into
      the key and the columns. */
  lemma EntryTokens(j: Json.Json, key: bytes, schema: seq<Column>, row: seq<Datum>) returns (tokens: seq<bytes>)
    requires Keyable(j) && key in KeysOf([JSON_INVERTED_INDEX], j) && RowFits(schema, row)
    ensures Tokens(key + EncodeRow(schema, row)) == Success(([key] + tokens, Null in row))
    ensures |tokens| == |row| && forall i :: 0 <= i < |row| ==> tokens[i] == EncodeDatum(row[i], schema[i].desc)
  {
    hide PeekLength, EncodeDatum, IsNull;
    var b := EncodeRow(schema, row);
    InvertedKeyLength(j, key, b);
    var hasNull;
    tokens, hasNull := TokensAreColumns(schema, row, []);
    assert b + [] == b && tokens + [] == tokens;
    assert (key + b)[..|key|] == key && (key + b)[|key|..] == b;
  }

  /** Every document has a key. */
  lemma {:induction false} SomeKey(b: bytes, j: Json.Json)
    requires Keyable(j)
    ensures KeysOf(b, j) != {}
    decreases j
  {
    match j
    case JArr(items) => if items != [] { SomeKey(b + [ESCAPE, ESCAPED_JSON_ARRAY], items[0]); }
    case JObj(pairs) =>
      if pairs != [] {
        SomeKey([], pairs[0].v);
        var c :| c in KeysOf([], pairs[0].v);
        assert b + KeyString(pairs[0]) + c in PairKeys(b, pairs);
      }
    case _ =>
  }

  // ------------------------------------------------- one key for each path

  /** AllPaths: for each leaf the document that leads to it alone. */
  function AllPaths(j: Json.Json): seq<Json.Json>
    decreases j
  {
    match j
    case JArr(items) => if items == [] then [j] else ItemPaths(items)
    case JObj(pairs) => if pairs == [] then [j] else PairPaths(pairs)
    case _ => [j]
  }

  function ItemPaths(items: seq<Json.Json>): seq<Json.Json>
    decreases items
  {
    if items == [] then [] else InArray(AllPaths(items[0])) + ItemPaths(items[1..])
  }

  function PairPaths(pairs: seq<Json.Pair>): seq<Json.Json>
    decreases pairs
  {
    if pairs == [] then [] else InObject(pairs[0].k, AllPaths(pairs[0].v)) + PairPaths(pairs[1..])
  }

  function InArray(ps: seq<Json.Json>): (r: seq<Json.Json>)
    ensures |r| == |ps| && forall i :: 0 <= i < |ps| ==> r[i] == Json.JArr([ps[i]])
  {
    seq(|ps|, i requires 0 <= i < |ps| => Json.JArr([ps[i]]))
  }

  function InObject(k: bytes, ps: seq<Json.Json>): (r: seq<Json.Json>)
    ensures |r| == |ps| && forall i :: 0 <= i < |ps| ==> r[i] == Json.JObj([Json.Pair(k, ps[i])])
  {
    seq(|ps|, i requires 0 <= i < |ps| => Json.JObj([Json.Pair(k, ps[i])]))
  }

  /** c is a key of one of the documents ps. */
  ghost predicate KeyOfSome(b: bytes, ps: seq<Json.Json>, c: bytes) {
    exists i :: 0 <= i < |ps| && Keyable(ps[i]) && c in KeysOf(b, ps[i])
  }

  lemma SomeConcat(b: bytes, ps: seq<Json.Json>, qs: seq<Json.Json>, c: bytes)
    ensures KeyOfSome(b, ps + qs, c) <==> KeyOfSome(b, ps, c) || KeyOfSome(b, qs, c)
  {
    var both := ps + qs;
    if i :| 0 <= i < |ps| && Keyable(ps[i]) && c in KeysOf(b, ps[i]) { assert both[i] == ps[i]; }
    if i :| 0 <= i < |qs| && Keyable(qs[i]) && c in KeysOf(b, qs[i]) { assert both[|ps| + i] == qs[i]; }
  }

  lemma SingleArray(b: bytes, p: Json.Json)
    requires Keyable(p)
    ensures Keyable(Json.JArr([p])) && KeysOf(b, Json.JArr([p])) == KeysOf(b + [ESCAPE, ESCAPED_JSON_ARRAY], p)
  {
    OneItem(b + [ESCAPE, ESCAPED_JSON_ARRAY], p);
  }

  lemma OneItem(b: bytes, p: Json.Json)
    requires Keyable(p)
    ensures ItemKeys(b, [p]) == KeysOf(b, p)
  {
    hide Keyable;
    assert [p][1..] == [] && ItemKeys(b, []) == {};
  }

  lemma OnePair(b: bytes, q: Json.Pair)
    requires Keyable(q.v)
    ensures PairKeys(b, [q]) == set c | c in KeysOf([], q.v) :: b + KeyString(q) + c
  {
    hide Keyable;
    assert [q][1..] == [] && PairKeys(b, []) == {};
  }

  lemma SingleObject(b: bytes, q: Json.Pair)
    requires Keyable(q.v)
    ensures Keyable(Json.JObj([q])) && KeysOf(b, Json.JObj([q])) == set c | c in KeysOf([], q.v) :: b + KeyString(q) + c
  {
    OnePair(b, q);
  }

  /** A path branches where its document does. */
  lemma PathsBranch(j: Json.Json)
    requires Keyable(j)
    ensures forall p :: p in AllPaths(j) ==> Keyable(p) && (Branches(p) <==> Branches(j))
    decreases j
  {
    match j
    case JArr(items) => if items != [] { ItemsBranch(items); }
    case JObj(pairs) => if pairs != [] { PairsBranch(pairs); }
    case _ =>
  }

  lemma {:induction false} ItemsBranch(items: seq<Json.Json>)
    requires forall x :: x in items ==> Keyable(x)
    ensures forall p :: p in ItemPaths(items) ==> Keyable(p) && Branches(p)
    decreases items
  {
    hide AllPaths, Keyable, Branches;
    if items != [] {
      var ps := AllPaths(items[0]);
      PathsBranch(items[0]);
      ItemsBranch(items[1..]);
      forall p | p in InArray(ps) ensures Keyable(p) && Branches(p) {
        var n :| 0 <= n < |ps| && InArray(ps)[n] == p;
        assert ps[n] in ps;
        SingleArray([], ps[n]);
        SingleBranches(ps[n], []);
      }
    }
  }

  lemma {:induction false} PairsBranch(pairs: seq<Json.Pair>)
    requires forall p: Json.Pair :: p in pairs ==> Keyable(p.v)
    ensures forall p :: p in PairPaths(pairs) ==> Keyable(p) && Branches(p)
    decreases pairs
  {
    hide AllPaths, Keyable, Branches;
    if pairs != [] {
      var k, ps := pairs[0].k, AllPaths(pairs[0].v);
      PathsBranch(pairs[0].v);
      PairsBranch(pairs[1..]);
      forall p | p in InObject(k, ps) ensures Keyable(p) && Branches(p) {
        var n :| 0 <= n < |ps| && InObject(k, ps)[n] == p;
        assert ps[n] in ps;
        SingleObject([], Json.Pair(k, ps[n]));
        SingleBranches(ps[n], k);
      }
    }
  }

  lemma SingleBranches(p: Json.Json, k: bytes)
    ensures Branches(Json.JArr([p])) && Branches(Json.JObj([Json.Pair(k, p)]))
  {
  }

  /** The keys of a document are exactly those of its paths. */
  lemma {:induction false} KeysArePaths(b: bytes, j: Json.Json, c: bytes)
    requires Keyable(j)
    ensures c in KeysOf(b, j) <==> KeyOfSome(b, AllPaths(j), c)
    decreases j, 0
  {
    if Branches(j) {
      if j.JArr? { ItemKeysArePaths(b, j.items, c); } else { PairKeysArePaths(b, j.pairs, c); }
    } else {
      assert AllPaths(j)[0] == j;
    }
  }

  lemma {:induction false} ItemKeysArePaths(b: bytes, items: seq<Json.Json>, c: bytes)
    requires forall x :: x in items ==> Keyable(x)
    ensures c in ItemKeys(b + [ESCAPE, ESCAPED_JSON_ARRAY], items) <==> KeyOfSome(b, ItemPaths(items), c)
    decreases items
  {
    hide KeysOf, AllPaths, Keyable;
    if items != [] {
      var inner, ps := b + [ESCAPE, ESCAPED_JSON_ARRAY], AllPaths(items[0]);
      ItemKeysArePaths(b, items[1..], c);
      KeysArePaths(inner, items[0], c);
      PathsBranch(items[0]);
      SomeConcat(b, InArray(ps), ItemPaths(items[1..]), c);
      forall i | 0 <= i < |ps| ensures Keyable(ps[i]) && Keyable(InArray(ps)[i]) && KeysOf(b, InArray(ps)[i]) == KeysOf(inner, ps[i]) {
        assert ps[i] in ps;
        SingleArray(b, ps[i]);
      }
    }
  }

  lemma {:induction false} PairKeysArePaths(b: bytes, pairs: seq<Json.Pair>, c: bytes)
    requires forall p: Json.Pair :: p in pairs ==> Keyable(p.v)
    ensures c in PairKeys(b, pairs) <==> KeyOfSome(b, PairPaths(pairs), c)
    decreases pairs
  {
    hide KeysOf, AllPaths, Keyable, Branches, KeyString;
    if pairs != [] {
      var k, v := pairs[0].k, pairs[0].v;
      PairKeysArePaths(b, pairs[1..], c);
      SomeConcat(b, InObject(k, AllPaths(v)), PairPaths(pairs[1..]), c);
      FirstPairKeys(b, pairs[0], c);
    }
  }

  lemma {:induction false} FirstPairKeys(b: bytes, q: Json.Pair, c: bytes)
    requires Keyable(q.v)
    ensures (exists d :: d in KeysOf([], q.v) && c == b + KeyString(q) + d) <==> KeyOfSome(b, InObject(q.k, AllPaths(q.v)), c)
    decreases q.v, 1
  {
    hide KeysOf, AllPaths, Keyable, Branches;
    var ps := AllPaths(q.v);
    var qs := InObject(q.k, ps);
    PathsBranch(q.v);
    forall i | 0 <= i < |ps|
      ensures Keyable(ps[i]) && Keyable(qs[i]) && KeysOf(b, qs[i]) == set d | d in KeysOf([], ps[i]) :: b + KeyString(q) + d
    {
      assert ps[i] in ps;
      SingleObject(b, Json.Pair(q.k, ps[i]));
      SameKeyString(q, ps[i]);
    }
    if d :| d in KeysOf([], q.v) && c == b + KeyString(q) + d {
      KeysArePaths([], q.v, d);
      var i :| 0 <= i < |ps| && Keyable(ps[i]) && d in KeysOf([], ps[i]);
      assert c in KeysOf(b, qs[i]);
    }
    if i :| 0 <= i < |qs| && Keyable(qs[i]) && c in KeysOf(b, qs[i]) {
      var d :| d in KeysOf([], ps[i]) && c == b + KeyString(q) + d;
      KeysArePaths([], q.v, d);
    }
  }

  lemma SameKeyString(q: Json.Pair, p: Json.Json)
    requires Branches(p) <==> Branches(q.v)
    ensures KeyString(Json.Pair(q.k, p)) == KeyString(q)
  {
  }
}
