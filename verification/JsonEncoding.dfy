/** The binary JSON format (pkg/util/json/encode.go and jentry.go). */
module JsonEncoding {
  import opened ByteStrings
  import opened Varint
  import opened Bitwise
  import opened Json
  import opened JsonNumbers

  const NULL_TAG := 0x0000_0000
  const STRING_TAG := 0x1000_0000
  const NUMBER_TAG := 0x2000_0000
  const FALSE_TAG := 0x3000_0000
  const TRUE_TAG := 0x4000_0000
  const CONTAINER_TAG := 0x5000_0000
  const IS_OFF_FLAG := 0x8000_0000
  const OFF_LEN_LIMIT := 0x1000_0000
  const ARRAY_CONTAINER_TAG := 0x8000_0000
  const OBJECT_CONTAINER_TAG := 0x4000_0000
  const SCALAR_CONTAINER_TAG := 0x2000_0000
  const HEADER_LEN_LIMIT := 0x2000_0000
  const TWO32 := 0x1_0000_0000
  const OFFLEN_STRIDE := 32
  const MAX_BYTE_LENGTH := 0x0FFF_FFFF

  datatype JEntry = JEntry(typCode: nat, length: nat)

  /** What encoding one value contributes: its entry and its bytes. */
  datatype Piece = Piece(entry: JEntry, data: bytes)

  function U32(x: nat): (b: bytes)
    ensures |b| == 4
  {
    BigEndian(x, 4)
  }

  /** jEntry.encoded under encodingModeForIdx: every 32nd entry stores its end offset. */
  function EncodedEntry(e: JEntry, i: nat, end: nat): nat {
    if i % OFFLEN_STRIDE == 0 then Or(Or(IS_OFF_FLAG, e.typCode), end) else Or(e.typCode, e.length)
  }

  /** The entry table from index i on, with `off` data bytes before it. */
  function Table(ps: seq<Piece>, i: nat, off: nat): (b: bytes)
    ensures |b| == 4 * |ps|
  {
    if ps == [] then []
    else
      var end := (off + ps[0].entry.length) % TWO32;
      U32(EncodedEntry(ps[0].entry, i, end)) + Table(ps[1..], i + 1, end)
  }

  function Data(ps: seq<Piece>): bytes {
    if ps == [] then [] else ps[0].data + Data(ps[1..])
  }

  function Total(ps: seq<Piece>): nat {
    if ps == [] then 0 else ps[0].entry.length + Total(ps[1..])
  }

  function Checked(tag: nat, data: bytes): (r: Result<Piece>)
    ensures r.Failure? ==> r.error == TooLarge
  {
    if |data| > MAX_BYTE_LENGTH then Failure(TooLarge) else Success(Piece(JEntry(tag, |data|), data))
  }

  function ArrayBytes(ps: seq<Piece>): bytes {
    U32(Or(ARRAY_CONTAINER_TAG, |ps| % TWO32)) + Table(ps, 0, 0) + Data(ps)
  }

  function ObjectBytes(ks: seq<Piece>, vs: seq<Piece>): bytes {
    U32(Or(OBJECT_CONTAINER_TAG, |ks| % TWO32)) + Table(ks, 0, 0) + Table(vs, 0, Total(ks) % TWO32) + Data(ks) + Data(vs)
  }

  /** The encode methods of every JSON type. */
  function Encode(j: Json): (r: Result<Piece>)
    ensures r.Failure? ==> r.error == TooLarge
    decreases j, 0
  {
    match j
    case JNull => Success(Piece(JEntry(NULL_TAG, 0), []))
    case JFalse => Success(Piece(JEntry(FALSE_TAG, 0), []))
    case JTrue => Success(Piece(JEntry(TRUE_TAG, 0), []))
    case JNum(d) => Checked(NUMBER_TAG, EncodeNumber(d))
    case JStr(s) => Checked(STRING_TAG, s)
    case JArr(items) =>
      (match EncodeItems(items)
       case Failure(e) => Failure(e)
       case Success(ps) => Checked(CONTAINER_TAG, ArrayBytes(ps)))
    case JObj(pairs) =>
      match EncodeKeys(pairs)
      case Failure(e) => Failure(e)
      case Success(ks) =>
        match EncodeValues(pairs)
        case Failure(e) => Failure(e)
        case Success(vs) => Checked(CONTAINER_TAG, ObjectBytes(ks, vs))
  }

  function EncodeItems(items: seq<Json>): (r: Result<seq<Piece>>)
    ensures r.Failure? ==> r.error == TooLarge
    ensures r.Success? ==> |r.value| == |items|
    decreases items
  {
    if items == [] then Success([])
    else
      match Encode(items[0])
      case Failure(e) => Failure(e)
      case Success(p) =>
        match EncodeItems(items[1..])
        case Failure(e) => Failure(e)
        case Success(ps) => Success([p] + ps)
  }

  function EncodeKeys(pairs: seq<Pair>): (r: Result<seq<Piece>>)
    ensures r.Failure? ==> r.error == TooLarge
    ensures r.Success? ==> |r.value| == |pairs|
  {
    if pairs == [] then Success([])
    else
      match Checked(STRING_TAG, pairs[0].k)
      case Failure(e) => Failure(e)
      case Success(p) =>
        match EncodeKeys(pairs[1..])
        case Failure(e) => Failure(e)
        case Success(ps) => Success([p] + ps)
  }

  function EncodeValues(pairs: seq<Pair>): (r: Result<seq<Piece>>)
    ensures r.Failure? ==> r.error == TooLarge
    ensures r.Success? ==> |r.value| == |pairs|
    decreases pairs
  {
    if pairs == [] then Success([])
    else
      match Encode(pairs[0].v)
      case Failure(e) => Failure(e)
      case Success(p) =>
        match EncodeValues(pairs[1..])
        case Failure(e) => Failure(e)
        case Success(ps) => Success([p] + ps)
  }

  /** EncodeJSON: a scalar at the top gets a container of its own. */
  function EncodeJson(j: Json): Result<bytes> {
    match Encode(j)
    case Failure(e) => Failure(e)
    case Success(p) =>
      if j.JArr? || j.JObj? then Success(p.data)
      else Success(U32(SCALAR_CONTAINER_TAG) + U32(Or(p.entry.typCode, p.entry.length)) + p.data)
  }

  // ---------------------------------------------------------------- decoder

  /** decodeJEntry on a stored word, with `off` the offset reached so far. */
  function EntryOf(word: nat, off: nat): JEntry {
    var low := word % OFF_LEN_LIMIT;
    JEntry((word / OFF_LEN_LIMIT % 8) * OFF_LEN_LIMIT, if word >= IS_OFF_FLAG then (low - off) % TWO32 else low)
  }

  function DecodeEntries(n: nat, b: bytes, off: nat): (r: Decoded<seq<JEntry>>)
    ensures r.Ok? ==> |r.value| == n && |r.rest| <= |b|
    decreases n
  {
    if n == 0 then Ok(b, [])
    else if |b| < 4 then Err(Insufficient)
    else
      var e := EntryOf(FromBigEndian(b[..4]), off);
      match DecodeEntries(n - 1, b[4..], (off + e.length) % TWO32)
      case Err(err) => Err(err)
      case Ok(rest, es) => Ok(rest, [e] + es)
  }

  /** decodeJSONValue; slicing past the end panics in the source. */
  function DecodeValue(e: JEntry, b: bytes): (r: Decoded<Json>)
    ensures r.Ok? ==> |r.rest| <= |b|
    decreases |b|, 1
  {
    if e.typCode == TRUE_TAG then Ok(b, JTrue)
    else if e.typCode == FALSE_TAG then Ok(b, JFalse)
    else if e.typCode == NULL_TAG then Ok(b, JNull)
    else if e.typCode == STRING_TAG then
      (if e.length > |b| then Err(IndexPanic) else Ok(b[e.length..], JStr(b[..e.length])))
    else if e.typCode == NUMBER_TAG then
      (match DecodeNumber(b)
       case Err(err) => Err(err)
       case Ok(rest, d) => Ok(rest, JNum(d)))
    else if e.typCode == CONTAINER_TAG then DecodeJson(b)
    else Err(UnknownTag)
  }

  function DecodeItems(es: seq<JEntry>, b: bytes): (r: Decoded<seq<Json>>)
    ensures r.Ok? ==> |r.rest| <= |b| && |r.value| == |es|
    decreases |b|, 2, |es|
  {
    if es == [] then Ok(b, [])
    else
      match DecodeValue(es[0], b)
      case Err(err) => Err(err)
      case Ok(b1, j) =>
        match DecodeItems(es[1..], b1)
        case Err(err) => Err(err)
        case Ok(rest, js) => Ok(rest, [j] + js)
  }

  function DecodeKeys(es: seq<JEntry>, b: bytes): (r: Decoded<seq<bytes>>)
    ensures r.Ok? ==> |r.rest| <= |b| && |r.value| == |es|
    decreases |b|, 2, |es|
  {
    if es == [] then Ok(b, [])
    else
      match DecodeValue(es[0], b)
      case Err(err) => Err(err)
      case Ok(b1, j) =>
        if !j.JStr? then Err(KeyNotString)
        else
          match DecodeKeys(es[1..], b1)
          case Err(err) => Err(err)
          case Ok(rest, ks) => Ok(rest, [j.s] + ks)
  }

  function Keys(pairs: seq<Pair>): (ks: seq<bytes>)
    ensures |ks| == |pairs| && forall i :: 0 <= i < |pairs| ==> ks[i] == pairs[i].k
  {
    seq(|pairs|, i requires 0 <= i < |pairs| => pairs[i].k)
  }

  function Vals(pairs: seq<Pair>): (vs: seq<Json>)
    ensures |vs| == |pairs| && forall i :: 0 <= i < |pairs| ==> vs[i] == pairs[i].v
  {
    seq(|pairs|, i requires 0 <= i < |pairs| => pairs[i].v)
  }

  function ZipPairs(ks: seq<bytes>, vs: seq<Json>): (ps: seq<Pair>)
    requires |ks| == |vs|
    ensures |ps| == |ks|
  {
    seq(|ks|, i requires 0 <= i < |ks| => Pair(ks[i], vs[i]))
  }

  /** DecodeJSON. */
  function DecodeJson(b: bytes): (r: Decoded<Json>)
    ensures r.Ok? ==> |r.rest| <= |b|
    decreases |b|, 0
  {
    if |b| < 4 then Err(Insufficient)
    else
      var header, b1 := FromBigEndian(b[..4]), b[4..];
      var typ, n := header / HEADER_LEN_LIMIT * HEADER_LEN_LIMIT, header % HEADER_LEN_LIMIT;
      if typ == SCALAR_CONTAINER_TAG then
        (if |b1| < 4 then Err(Insufficient) else DecodeValue(EntryOf(FromBigEndian(b1[..4]), 0), b1[4..]))
      else if typ == ARRAY_CONTAINER_TAG then
        (match DecodeEntries(n, b1, 0)
         case Err(err) => Err(err)
         case Ok(b2, es) =>
           match DecodeItems(es, b2)
           case Err(err) => Err(err)
           case Ok(rest, items) => Ok(rest, JArr(items)))
      else if typ == OBJECT_CONTAINER_TAG then
        (match DecodeEntries(2 * n, b1, 0)
         case Err(err) => Err(err)
         case Ok(b2, es) =>
           match DecodeKeys(es[..n], b2)
           case Err(err) => Err(err)
           case Ok(b3, ks) =>
             match DecodeItems(es[n..], b3)
             case Err(err) => Err(err)
             case Ok(rest, vs) => Ok(rest, JObj(ZipPairs(ks, vs))))
      else Err(UnknownTag)
  }

  // ---------------------------------------------------------------- entries

  predicate ValidTag(t: nat) {
    t in {NULL_TAG, STRING_TAG, NUMBER_TAG, FALSE_TAG, TRUE_TAG, CONTAINER_TAG}
  }

  /** Pieces as Encode makes them. */
  predicate WellFormed(p: Piece) {
    ValidTag(p.entry.typCode) && p.entry.length == |p.data| <= MAX_BYTE_LENGTH
  }

  predicate AllWellFormed(ps: seq<Piece>) {
    forall i :: 0 <= i < |ps| ==> WellFormed(ps[i])
  }

  /** A field of whole top nibbles or'ed with a field of the low 28 bits. */
  lemma NibbleOr(c: nat, low: nat)
    requires low < OFF_LEN_LIMIT
    ensures Or(c * OFF_LEN_LIMIT, low) == c * OFF_LEN_LIMIT + low
  {
    hide Or, Pow2;
    Pow2Values();
    OrDisjoint(c, low, 28);
  }

  lemma FlagOr(c: nat)
    requires c < 8
    ensures Or(IS_OFF_FLAG, c * OFF_LEN_LIMIT) == (8 + c) * OFF_LEN_LIMIT
  {
    hide Or, Pow2;
    Pow2Values();
    OrDisjoint(1, c * OFF_LEN_LIMIT, 31);
  }

  /** The stored word, whether it holds an offset or a length. */
  lemma EncodedEntryIs(e: JEntry, i: nat, end: nat)
    requires ValidTag(e.typCode) && e.length <= MAX_BYTE_LENGTH && end <= MAX_BYTE_LENGTH
    ensures EncodedEntry(e, i, end) ==
            if i % OFFLEN_STRIDE == 0 then IS_OFF_FLAG + e.typCode + end else e.typCode + e.length
  {
    hide Or;
    var c := e.typCode / OFF_LEN_LIMIT;
    assert e.typCode == c * OFF_LEN_LIMIT;
    NibbleOr(c, e.length);
    FlagOr(c);
    NibbleOr(8 + c, end);
  }

  lemma EntryInverts(e: JEntry, i: nat, off: nat)
    requires ValidTag(e.typCode) && off + e.length <= MAX_BYTE_LENGTH
    ensures var w := EncodedEntry(e, i, off + e.length); w < TWO32 && EntryOf(w, off) == e
  {
    hide EncodedEntry;
    EncodedEntryIs(e, i, off + e.length);
    if i % OFFLEN_STRIDE == 0 {
      WordFields(e.typCode / OFF_LEN_LIMIT + 8, off + e.length);
    } else {
      WordFields(e.typCode / OFF_LEN_LIMIT, e.length);
    }
  }

  lemma WordFields(c: nat, low: nat)
    requires low < OFF_LEN_LIMIT
    ensures var w := c * OFF_LEN_LIMIT + low; w % OFF_LEN_LIMIT == low && w / OFF_LEN_LIMIT == c
  {
  }

  lemma U32Inverts(x: nat)
    requires x < TWO32
    ensures FromBigEndian(U32(x)) == x
  {
    Pow256Values();
    BigEndianRoundTrip(x, 4);
  }

  function Entries(ps: seq<Piece>): (es: seq<JEntry>)
    ensures |es| == |ps| && forall i :: 0 <= i < |ps| ==> es[i] == ps[i].entry
  {
    seq(|ps|, i requires 0 <= i < |ps| => ps[i].entry)
  }

  lemma TableStep(ps: seq<Piece>, i: nat, off: nat)
    requires ps != [] && AllWellFormed(ps) && off + Total(ps) <= MAX_BYTE_LENGTH
    ensures var end := off + ps[0].entry.length;
            && Table(ps, i, off) == U32(EncodedEntry(ps[0].entry, i, end)) + Table(ps[1..], i + 1, end)
            && end + Total(ps[1..]) <= MAX_BYTE_LENGTH
            && EncodedEntry(ps[0].entry, i, end) < TWO32 && EntryOf(EncodedEntry(ps[0].entry, i, end), off) == ps[0].entry
            && FromBigEndian(U32(EncodedEntry(ps[0].entry, i, end))) == EncodedEntry(ps[0].entry, i, end)
  {
    hide EncodedEntry, EntryOf, FromBigEndian, U32;
    EntryInverts(ps[0].entry, i, off);
    U32Inverts(EncodedEntry(ps[0].entry, i, off + ps[0].entry.length));
  }

  lemma EntriesStep(w: bytes, n: nat, b: bytes, off: nat)
    requires |w| == 4
    ensures DecodeEntries(n + 1, w + b, off) ==
            var e := EntryOf(FromBigEndian(w), off);
            match DecodeEntries(n, b, (off + e.length) % TWO32)
            case Err(err) => Err(err)
            case Ok(rest, es) => Ok(rest, [e] + es)
  {
    hide FromBigEndian, EntryOf;
    assert (w + b)[..4] == w && (w + b)[4..] == b;
  }

  /** decodeJEntries reads any table back, then whatever table follows with m more entries. */
  lemma {:induction false} TableInverts(ps: seq<Piece>, i: nat, off: nat, m: nat, rest: bytes)
    requires AllWellFormed(ps) && off + Total(ps) <= MAX_BYTE_LENGTH
    ensures DecodeEntries(|ps| + m, Table(ps, i, off) + rest, off) ==
            match DecodeEntries(m, rest, off + Total(ps))
            case Err(err) => Err(err)
            case Ok(r, es) => Ok(r, Entries(ps) + es)
    decreases |ps|
  {
    hide DecodeEntries, EntryOf, EncodedEntry, FromBigEndian, U32;
    if ps == [] {
      assert Table(ps, i, off) + rest == rest;
      match DecodeEntries(m, rest, off) case Err(_) => case Ok(_, es) => assert Entries(ps) + es == es;
    } else {
      var e := ps[0].entry;
      var end := off + e.length;
      TableStep(ps, i, off);
      var w, t := U32(EncodedEntry(e, i, end)), Table(ps[1..], i + 1, end);
      TableInverts(ps[1..], i + 1, end, m, rest);
      assert Table(ps, i, off) + rest == w + (t + rest);
      hide Table;
      EntriesStep(w, |ps| - 1 + m, t + rest, off);
      match DecodeEntries(m, rest, off + Total(ps))
      case Err(_) =>
      case Ok(_, es) => assert [e] + (Entries(ps[1..]) + es) == Entries(ps) + es;
    }
  }

  // ---------------------------------------------------------------- round trip

  lemma {:induction false} DataLength(ps: seq<Piece>)
    requires AllWellFormed(ps)
    ensures |Data(ps)| == Total(ps)
  {
    if ps != [] { DataLength(ps[1..]); }
  }

  lemma {:induction false} EncodeWellFormed(j: Json)
    ensures Encode(j).Success? ==> WellFormed(Encode(j).value)
  {
  }

  lemma {:induction false} ItemsWellFormed(items: seq<Json>)
    ensures EncodeItems(items).Success? ==> AllWellFormed(EncodeItems(items).value)
    decreases |items|
  {
    if items != [] {
      EncodeWellFormed(items[0]);
      ItemsWellFormed(items[1..]);
    }
  }

  lemma {:induction false} KeysWellFormed(pairs: seq<Pair>)
    ensures EncodeKeys(pairs).Success? ==> AllWellFormed(EncodeKeys(pairs).value)
    decreases |pairs|
  {
    if pairs != [] { KeysWellFormed(pairs[1..]); }
  }

  lemma {:induction false} ValuesWellFormed(pairs: seq<Pair>)
    ensures EncodeValues(pairs).Success? ==> AllWellFormed(EncodeValues(pairs).value)
    decreases |pairs|
  {
    if pairs != [] {
      EncodeWellFormed(pairs[0].v);
      ValuesWellFormed(pairs[1..]);
    }
  }

  lemma HeaderInverts(tag: nat, n: nat)
    requires tag == ARRAY_CONTAINER_TAG || tag == OBJECT_CONTAINER_TAG
    requires n < HEADER_LEN_LIMIT
    ensures var h := Or(tag, n % TWO32);
            && FromBigEndian(U32(h)) == h
            && h / HEADER_LEN_LIMIT * HEADER_LEN_LIMIT == tag && h % HEADER_LEN_LIMIT == n
  {
    hide Or, Pow2, FromBigEndian, U32;
    Pow2Values();
    OrDisjoint(tag / HEADER_LEN_LIMIT, n, 29);
    U32Inverts(Or(tag, n));
  }

  lemma ArrayShape(ps: seq<Piece>, rest: bytes)
    requires |ArrayBytes(ps)| <= MAX_BYTE_LENGTH
    ensures |ps| < HEADER_LEN_LIMIT
    ensures var b := ArrayBytes(ps) + rest;
            |b| >= 4 && b[..4] == U32(Or(ARRAY_CONTAINER_TAG, |ps| % TWO32)) && b[4..] == Table(ps, 0, 0) + (Data(ps) + rest)
  {
    hide Table, Data, U32;
  }

  lemma FiveShape(h: bytes, t: bytes, u: bytes, d: bytes, e: bytes, rest: bytes)
    ensures h + t + u + d + e + rest == h + (t + (u + (d + (e + rest))))
  {
  }

  lemma ObjectShape(ks: seq<Piece>, vs: seq<Piece>, rest: bytes)
    requires |ObjectBytes(ks, vs)| <= MAX_BYTE_LENGTH && |ks| == |vs|
    ensures |ks| < HEADER_LEN_LIMIT
    ensures var b := ObjectBytes(ks, vs) + rest;
            && |b| >= 4 && b[..4] == U32(Or(OBJECT_CONTAINER_TAG, |ks| % TWO32))
            && b[4..] == Table(ks, 0, 0) + (Table(vs, 0, Total(ks) % TWO32) + (Data(ks) + (Data(vs) + rest)))
  {
    hide Table, Data, U32, Total, Or;
    var h, t, u := U32(Or(OBJECT_CONTAINER_TAG, |ks| % TWO32)), Table(ks, 0, 0), Table(vs, 0, Total(ks) % TWO32);
    FiveShape(h, t, u, Data(ks), Data(vs), rest);
    CutHeader(h, t + (u + (Data(ks) + (Data(vs) + rest))));
  }

  lemma CutHeader(h: bytes, r: bytes)
    ensures (h + r)[..|h|] == h && (h + r)[|h|..] == r
  {
  }

  lemma ArrayEntries(ps: seq<Piece>, rest: bytes)
    requires AllWellFormed(ps) && |ArrayBytes(ps)| <= MAX_BYTE_LENGTH
    ensures DecodeEntries(|ps|, Table(ps, 0, 0) + rest, 0) == Ok(rest, Entries(ps))
  {
    DataLength(ps);
    TableInverts(ps, 0, 0, 0, rest);
    assert Entries(ps) + [] == Entries(ps);
  }

  lemma ObjectEntries(ks: seq<Piece>, vs: seq<Piece>, rest: bytes)
    requires AllWellFormed(ks) && AllWellFormed(vs) && |ks| == |vs| && |ObjectBytes(ks, vs)| <= MAX_BYTE_LENGTH
    ensures DecodeEntries(2 * |ks|, Table(ks, 0, 0) + (Table(vs, 0, Total(ks) % TWO32) + rest), 0) == Ok(rest, Entries(ks) + Entries(vs))
  {
    hide Table, Data, Total, DecodeEntries, EncodedEntry, EntryOf, ObjectBytes, U32, FromBigEndian;
    ObjectFits(ks, vs);
    var t := Total(ks);
    assert t % TWO32 == t && 0 + t == t;
    TableInverts(vs, 0, t, 0, rest);
    NoEntries(rest, t + Total(vs));
    assert |vs| + 0 == |vs| && Entries(vs) + [] == Entries(vs);
    TableInverts(ks, 0, 0, |vs|, Table(vs, 0, t) + rest);
    assert |ks| + |vs| == 2 * |ks|;
  }

  lemma ObjectFits(ks: seq<Piece>, vs: seq<Piece>)
    requires AllWellFormed(ks) && AllWellFormed(vs) && |ObjectBytes(ks, vs)| <= MAX_BYTE_LENGTH
    ensures Total(ks) + Total(vs) <= MAX_BYTE_LENGTH
  {
    DataLength(ks);
    DataLength(vs);
    hide Table, Data, Total, U32;
  }

  lemma NoEntries(b: bytes, off: nat)
    ensures DecodeEntries(0, b, off) == Ok(b, [])
  {
  }

  lemma KeysUnfold(pairs: seq<Pair>)
    requires pairs != [] && EncodeKeys(pairs).Success?
    ensures EncodeKeys(pairs[1..]).Success?
    ensures EncodeKeys(pairs).value == [Piece(JEntry(STRING_TAG, |pairs[0].k|), pairs[0].k)] + EncodeKeys(pairs[1..]).value
  {
  }

  lemma {:induction false} KeysInvert(pairs: seq<Pair>, rest: bytes)
    requires EncodeKeys(pairs).Success?
    ensures var ks := EncodeKeys(pairs).value;
            DecodeKeys(Entries(ks), Data(ks) + rest) == Ok(rest, Keys(pairs))
    decreases |pairs|
  {
    hide Data, DecodeKeys, DecodeItems, EncodeKeys, EncodeItems, EncodeValues, DecodeValue;
    NothingDecodes(rest);
    NoData(rest);
    if pairs == [] {
      assert Keys(pairs) == [];
    } else {
      KeysUnfold(pairs);
      var k, ps := pairs[0].k, EncodeKeys(pairs[1..]).value;
      FrontPiece(Piece(JEntry(STRING_TAG, |k|), k), ps, rest);
      KeysInvert(pairs[1..], rest);
      KeyStep(JEntry(STRING_TAG, |k|), Entries(ps), k, Data(ps) + rest);
      assert [k] + Keys(pairs[1..]) == Keys(pairs);
    }
  }

  lemma NothingDecodes(b: bytes)
    ensures DecodeKeys([], b) == Ok(b, []) && DecodeItems([], b) == Ok(b, [])
  {
  }

  lemma KeyStep(e: JEntry, es: seq<JEntry>, k: bytes, tail: bytes)
    requires e == JEntry(STRING_TAG, |k|) && DecodeKeys(es, tail).Ok?
    ensures var d := DecodeKeys(es, tail); DecodeKeys([e] + es, k + tail) == Ok(d.rest, [k] + d.value)
  {
    assert (k + tail)[..|k|] == k && (k + tail)[|k|..] == tail;
    assert ([e] + es)[1..] == es;
  }

  lemma ItemStep(e: JEntry, es: seq<JEntry>, j: Json, b: bytes, tail: bytes)
    requires DecodeValue(e, b) == Ok(tail, j) && DecodeItems(es, tail).Ok?
    ensures var d := DecodeItems(es, tail); DecodeItems([e] + es, b) == Ok(d.rest, [j] + d.value)
  {
    hide DecodeValue;
    assert ([e] + es)[1..] == es;
  }

  /** Decoding a value's bytes under its entry gives the value back and leaves the rest. */
  lemma {:induction false} ValueInverts(j: Json, rest: bytes)
    requires Encode(j).Success?
    ensures var p := Encode(j).value; DecodeValue(p.entry, p.data + rest) == Ok(rest, j)
    decreases j, 1
  {
    if j.JArr? || j.JObj? {
      ContainerInverts(j, rest);
      ContainerDispatch(j, rest);
    } else {
      ScalarValueInverts(j, rest);
    }
  }

  lemma ContainerDispatch(j: Json, rest: bytes)
    requires (j.JArr? || j.JObj?) && Encode(j).Success?
    ensures var p := Encode(j).value; DecodeValue(p.entry, p.data + rest) == DecodeJson(p.data + rest)
  {
    hide DecodeJson, EncodeItems, EncodeKeys, EncodeValues, ArrayBytes, ObjectBytes;
  }

  lemma ScalarValueInverts(j: Json, rest: bytes)
    requires !j.JArr? && !j.JObj? && Encode(j).Success?
    ensures var p := Encode(j).value; DecodeValue(p.entry, p.data + rest) == Ok(rest, j)
  {
    hide DecodeJson, EncodeNumber, DecodeNumber;
    assert [] + rest == rest;
    match j
    case JNum(d) => NumberRoundTrip(d, rest);
    case JStr(s) => assert (s + rest)[..|s|] == s && (s + rest)[|s|..] == rest;
    case _ =>
  }

  lemma ItemsUnfold(items: seq<Json>)
    requires items != [] && EncodeItems(items).Success?
    ensures Encode(items[0]).Success? && EncodeItems(items[1..]).Success?
    ensures EncodeItems(items).value == [Encode(items[0]).value] + EncodeItems(items[1..]).value
  {
    hide Encode;
  }

  lemma ValuesUnfold(pairs: seq<Pair>)
    requires pairs != [] && EncodeValues(pairs).Success?
    ensures Encode(pairs[0].v).Success? && EncodeValues(pairs[1..]).Success?
    ensures EncodeValues(pairs).value == [Encode(pairs[0].v).value] + EncodeValues(pairs[1..]).value
  {
    hide Encode;
  }

  /** The first piece in front of the others' data, and its entry in front of theirs. */
  lemma FrontPiece(p: Piece, ps: seq<Piece>, rest: bytes)
    ensures Data([p] + ps) + rest == p.data + (Data(ps) + rest) && Entries([p] + ps) == [p.entry] + Entries(ps)
  {
    assert ([p] + ps)[1..] == ps;
  }

  lemma NoData(rest: bytes)
    ensures Data([]) + rest == rest && Entries([]) == [] && EncodeItems([]) == Success([]) && EncodeValues([]) == Success([]) && EncodeKeys([]) == Success([])
  {
  }

  lemma {:induction false} ItemsInvert(items: seq<Json>, rest: bytes)
    requires EncodeItems(items).Success?
    ensures var ps := EncodeItems(items).value; DecodeItems(Entries(ps), Data(ps) + rest) == Ok(rest, items)
    decreases items
  {
    hide *;
    NothingDecodes(rest);
    NoData(rest);
    if items != [] {
      ItemsUnfold(items);
      var p, ps := Encode(items[0]).value, EncodeItems(items[1..]).value;
      FrontPiece(p, ps, rest);
      ValueInverts(items[0], Data(ps) + rest);
      ItemsInvert(items[1..], rest);
      ItemStep(p.entry, Entries(ps), items[0], p.data + (Data(ps) + rest), Data(ps) + rest);
      assert [items[0]] + items[1..] == items;
    }
  }

  lemma {:induction false} ValuesInvert(pairs: seq<Pair>, rest: bytes)
    requires EncodeValues(pairs).Success?
    ensures var vs := EncodeValues(pairs).value;
            DecodeItems(Entries(vs), Data(vs) + rest) == Ok(rest, Vals(pairs))
    decreases pairs
  {
    hide *;
    NothingDecodes(rest);
    NoData(rest);
    if pairs == [] {
      assert Vals(pairs) == [];
    } else {
      ValuesUnfold(pairs);
      var p, ps := Encode(pairs[0].v).value, EncodeValues(pairs[1..]).value;
      FrontPiece(p, ps, rest);
      ValueInverts(pairs[0].v, Data(ps) + rest);
      ValuesInvert(pairs[1..], rest);
      ItemStep(p.entry, Entries(ps), pairs[0].v, p.data + (Data(ps) + rest), Data(ps) + rest);
      assert [pairs[0].v] + Vals(pairs[1..]) == Vals(pairs);
    }
  }

  lemma {:induction false} ContainerInverts(j: Json, rest: bytes)
    requires (j.JArr? || j.JObj?) && Encode(j).Success?
    ensures DecodeJson(Encode(j).value.data + rest) == Ok(rest, j)
    decreases j, 0
  {
    hide Table, Data, DecodeEntries, DecodeItems, DecodeKeys, EncodeItems, EncodeKeys, EncodeValues, FromBigEndian, U32, ArrayBytes, ObjectBytes;
    match j
    case JArr(items) =>
      var ps := EncodeItems(items).value;
      ItemsWellFormed(items);
      ArrayShape(ps, rest);
      HeaderInverts(ARRAY_CONTAINER_TAG, |ps|);
      ArrayEntries(ps, Data(ps) + rest);
      ItemsInvert(items, rest);
    case JObj(pairs) =>
      var ks, vs := EncodeKeys(pairs).value, EncodeValues(pairs).value;
      KeysWellFormed(pairs);
      ValuesWellFormed(pairs);
      ObjectShape(ks, vs, rest);
      HeaderInverts(OBJECT_CONTAINER_TAG, |ks|);
      ObjectEntries(ks, vs, Data(ks) + (Data(vs) + rest));
      var es := Entries(ks) + Entries(vs);
      assert es[..|ks|] == Entries(ks) && es[|ks|..] == Entries(vs);
      KeysInvert(pairs, Data(vs) + rest);
      ValuesInvert(pairs, rest);
      assert ZipPairs(Keys(pairs), Vals(pairs)) == pairs;
  }

  /** DecodeJSON undoes EncodeJSON and consumes exactly the bytes written. */
  lemma JsonRoundTrip(j: Json, rest: bytes)
    requires EncodeJson(j).Success?
    ensures DecodeJson(EncodeJson(j).value + rest) == Ok(rest, j)
  {
    var p := Encode(j).value;
    if j.JArr? || j.JObj? {
      ContainerInverts(j, rest);
    } else {
      ScalarInverts(j, rest);
    }
  }

  lemma ScalarInverts(j: Json, rest: bytes)
    requires !j.JArr? && !j.JObj? && EncodeJson(j).Success?
    ensures DecodeJson(EncodeJson(j).value + rest) == Ok(rest, j)
  {
    hide FromBigEndian, U32, DecodeValue, Encode, WellFormed, Or, EntryOf;
    var p := Encode(j).value;
    var w := EncodedEntry(p.entry, 1, p.entry.length);
    EncodeWellFormed(j);
    EntryInverts(p.entry, 1, 0);
    U32Inverts(w);
    U32Inverts(SCALAR_CONTAINER_TAG);
    ValueInverts(j, rest);
    ScalarShape(U32(SCALAR_CONTAINER_TAG), U32(w), p.data, rest);
  }

  lemma ScalarShape(a: bytes, b: bytes, d: bytes, rest: bytes)
    requires |a| == 4 && |b| == 4
    ensures var s := a + b + d + rest; |s| >= 8 && s[..4] == a && s[4..][..4] == b && s[4..][4..] == d + rest
  {
  }
}
