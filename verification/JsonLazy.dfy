/** Answers read straight off encoded documents (pkg/util/json/encoded.go), as functions
    of the bytes, and their agreement with the decoded document. */
module JsonLazy {
  import opened ByteStrings
  import opened GoInts
  import opened Varint
  import opened Wrappers
  import opened Bitwise
  import opened Json
  import opened JsonNumbers
  import opened JsonEncoding

  datatype Kind = NullKind | StringKind | NumberKind | FalseKind | TrueKind | ArrayKind | ObjectKind | UnknownKind

  const CONTAINER_HEADER_LEN := 4
  const JENTRY_LEN := 4

  /** A value not decoded yet, or one of the singletons newEncoded returns at once. */
  datatype Lazy = LNull | LFalse | LTrue | LEnc(kind: Kind, len: nat, value: bytes)

  function KindOf(j: Json): Kind {
    match j
    case JNull => NullKind
    case JFalse => FalseKind
    case JTrue => TrueKind
    case JNum(_) => NumberKind
    case JStr(_) => StringKind
    case JArr(_) => ArrayKind
    case JObj(_) => ObjectKind
  }

  function Count(j: Json): nat {
    if j.JArr? then |j.items| else if j.JObj? then |j.pairs| else 0
  }

  /** l stands for the document j. */
  ghost predicate Denotes(l: Lazy, j: Json) {
    match l
    case LNull => j.JNull?
    case LFalse => j.JFalse?
    case LTrue => j.JTrue?
    case LEnc(kind, len, value) =>
      Encode(j).Success? && value == Encode(j).value.data && kind == KindOf(j) && (j.JArr? || j.JObj? ==> len == Count(j))
  }

  // ------------------------------------------------- reading entries

  /** getUint32At on the k-th entry. */
  function EntryWord(v: bytes, k: nat): Result<nat> {
    var at := CONTAINER_HEADER_LEN + k * JENTRY_LEN;
    if at + 4 > |v| then Failure(Insufficient) else Success(FromBigEndian(v[at..at + 4]))
  }

  /** beginningOfIdx from entry cur backwards, `offset` bytes already counted. */
  function BackFrom(v: bytes, cur: int, offset: nat): Result<nat>
    decreases cur
  {
    if cur < 0 then Success(offset)
    else
      match EntryWord(v, cur)
      case Failure(e) => Failure(e)
      case Success(w) =>
        var offlen := w % OFF_LEN_LIMIT;
        if w >= IS_OFF_FLAG then Success(offlen + offset) else BackFrom(v, cur - 1, offset + offlen)
  }

  function BeginningOfIdx(v: bytes, idx: nat): Result<nat> {
    BackFrom(v, idx - 1, 0)
  }

  /** getNthEntryBounds. */
  function Bounds(v: bytes, k: nat): Result<(nat, nat, JEntry)> {
    match BeginningOfIdx(v, k)
    case Failure(e) => Failure(e)
    case Success(begin) =>
      match EntryWord(v, k)
      case Failure(e) => Failure(e)
      case Success(w) =>
        var entry := EntryOf(w, begin);
        Success((begin, begin + entry.length, entry))
  }

  /** arrayGetDataRange and objectGetDataRange over the k-th of `entries` entries. */
  function NthData(v: bytes, entries: nat, k: nat): Result<(bytes, JEntry)> {
    match Bounds(v, k)
    case Failure(e) => Failure(e)
    case Success((begin, end, entry)) =>
      var start := CONTAINER_HEADER_LEN + entries * JENTRY_LEN;
      if start + end > |v| then Failure(IndexPanic) else Success((v[start + begin..start + end], entry))
  }

  function HeaderKind(header: nat): Kind {
    var typ := header / HEADER_LEN_LIMIT * HEADER_LEN_LIMIT;
    if typ == ARRAY_CONTAINER_TAG then ArrayKind else if typ == OBJECT_CONTAINER_TAG then ObjectKind else UnknownKind
  }

  /** newEncoded. */
  function NewEncoded(e: JEntry, v: bytes): Result<Lazy> {
    if e.typCode == STRING_TAG then Success(LEnc(StringKind, 0, v))
    else if e.typCode == NUMBER_TAG then Success(LEnc(NumberKind, 0, v))
    else if e.typCode == NULL_TAG then Success(LNull)
    else if e.typCode == FALSE_TAG then Success(LFalse)
    else if e.typCode == TRUE_TAG then Success(LTrue)
    else if e.typCode == CONTAINER_TAG then
      if |v| < 4 then Failure(Insufficient)
      else
        var header := FromBigEndian(v[..4]);
        Success(LEnc(HeaderKind(header), header % HEADER_LEN_LIMIT, v))
    else Success(LEnc(UnknownKind, 0, v))
  }

  /** newEncodedFromRoot with jsonTypeFromRootBuffer. */
  function FromRoot(v: bytes): Result<Lazy> {
    if |v| < 4 then Failure(Insufficient)
    else
      var header := FromBigEndian(v[..4]);
      var typ := header / HEADER_LEN_LIMIT * HEADER_LEN_LIMIT;
      if typ == ARRAY_CONTAINER_TAG || typ == OBJECT_CONTAINER_TAG then
        Success(LEnc(HeaderKind(header), header % HEADER_LEN_LIMIT, v))
      else if typ == SCALAR_CONTAINER_TAG then
        if |v| < 8 then Failure(Insufficient)
        else
          var t := FromBigEndian(v[4..8]) / OFF_LEN_LIMIT % 8 * OFF_LEN_LIMIT;
          if t == NULL_TAG then Success(LEnc(NullKind, 0, v[8..]))
          else if t == TRUE_TAG then Success(LEnc(TrueKind, 0, v[8..]))
          else if t == FALSE_TAG then Success(LEnc(FalseKind, 0, v[8..]))
          else if t == NUMBER_TAG then Success(LEnc(NumberKind, 0, v[8..]))
          else if t == STRING_TAG then Success(LEnc(StringKind, 0, v[8..]))
          else Failure(UnknownTag)
      else Failure(UnknownTag)
  }

  /** FetchValIdx without a cached decoding; negative indices count from the end. */
  function LazyFetchIdx(l: Lazy, idx: int): Result<Option<Lazy>> {
    if l.LEnc? && l.kind.ArrayKind? then
      var i := if idx < 0 then l.len + idx else idx;
      if i < 0 || i >= l.len then Success(None)
      else
        match NthData(l.value, l.len, i)
        case Failure(e) => Failure(e)
        case Success((data, entry)) =>
          match NewEncoded(entry, data)
          case Failure(e) => Failure(e)
          case Success(r) => Success(Some(r))
    else Success(None)
  }

  /** The test sort.Search runs: the idx-th key is not smaller than `key`. */
  function KeyAtLeast(v: bytes, n: nat, idx: nat, key: bytes): bool {
    match NthData(v, 2 * n, idx)
    case Failure(_) => false
    case Success((data, _)) => CompareBytes(data, key) >= 0
  }

  /** sort.Search over [lo, hi). */
  function SearchKey(v: bytes, n: nat, key: bytes, lo: nat, hi: nat): (i: nat)
    requires lo <= hi
    ensures lo <= i <= hi
    decreases hi - lo
  {
    if lo == hi then lo
    else
      var h := (lo + hi) / 2;
      if KeyAtLeast(v, n, h, key) then SearchKey(v, n, key, lo, h) else SearchKey(v, n, key, h + 1, hi)
  }

  /** FetchValKey without a cached decoding. */
  function LazyFetchKey(l: Lazy, key: bytes): Result<Option<Lazy>> {
    if l.LEnc? && l.kind.ObjectKind? then
      var i := SearchKey(l.value, l.len, key, 0, l.len);
      if i >= l.len then Success(None)
      else
        match NthData(l.value, 2 * l.len, i)
        case Failure(e) => Failure(e)
        case Success((data, _)) =>
          if data != key then Success(None)
          else
            match NthData(l.value, 2 * l.len, l.len + i)
            case Failure(e) => Failure(e)
            case Success((vdata, entry)) =>
              match NewEncoded(entry, vdata)
              case Failure(e) => Failure(e)
              case Success(r) => Success(Some(r))
    else Success(None)
  }

  // ------------------------------------------------- the decoded answers

  function FetchIdx(j: Json, idx: int): Option<Json> {
    if j.JArr? then
      var i := if idx < 0 then |j.items| + idx else idx;
      if 0 <= i < |j.items| then Some(j.items[i]) else None
    else None
  }

  function FindKey(pairs: seq<Pair>, key: bytes): Option<Json> {
    if pairs == [] then None else if pairs[0].k == key then Some(pairs[0].v) else FindKey(pairs[1..], key)
  }

  function FetchKey(j: Json, key: bytes): Option<Json> {
    if j.JObj? then FindKey(j.pairs, key) else None
  }

  /** Keys strictly increasing, as every constructor of objects leaves them. */
  predicate SortedPairs(pairs: seq<Pair>) {
    forall i, j :: 0 <= i < j < |pairs| ==> CompareBytes(pairs[i].k, pairs[j].k) < 0
  }

  /** SortedPairs at every depth. */
  predicate Sorted(j: Json) {
    match j
    case JArr(items) => forall x :: x in items ==> Sorted(x)
    case JObj(pairs) => SortedPairs(pairs) && forall p: Pair :: p in pairs ==> Sorted(p.v)
    case _ => true
  }

  // ------------------------------------------------- layout of an encoded container

  /** v holds the entry words of `all`, restarting the stride at entry m, and then their data. */
  ghost predicate LaidOut(v: bytes, all: seq<Piece>, m: nat) {
    && AllWellFormed(all) && Total(all) <= MAX_BYTE_LENGTH
    && |v| == CONTAINER_HEADER_LEN + JENTRY_LEN * |all| + Total(all)
    && v[CONTAINER_HEADER_LEN + JENTRY_LEN * |all|..] == Data(all)
    && forall k :: 0 <= k < |all| ==>
         EntryWord(v, k) == Success(EncodedEntry(all[k].entry, if k < m then k else k - m, Total(all[..k + 1])))
  }

  lemma {:induction false} TotalConcat(ps: seq<Piece>, qs: seq<Piece>)
    ensures Total(ps + qs) == Total(ps) + Total(qs) && Data(ps + qs) == Data(ps) + Data(qs)
  {
    if ps == [] {
      assert ps + qs == qs;
    } else {
      TotalConcat(ps[1..], qs);
      assert (ps + qs)[1..] == ps[1..] + qs;
      AppendAssoc(ps[0].data, Data(ps[1..]), Data(qs));
    }
  }

  lemma AppendAssoc(a: bytes, b: bytes, c: bytes)
    ensures a + (b + c) == a + b + c
  {
  }

  lemma TotalPrefix(ps: seq<Piece>, k: nat)
    requires k < |ps|
    ensures Total(ps[..k + 1]) == Total(ps[..k]) + ps[k].entry.length
    ensures Total(ps[..k + 1]) <= Total(ps)
  {
    hide Total, Data;
    assert ps[..k + 1] == ps[..k] + [ps[k]];
    TotalConcat(ps[..k], [ps[k]]);
    OnePiece(ps[k]);
    TotalConcat(ps[..k + 1], ps[k + 1..]);
    assert ps == ps[..k + 1] + ps[k + 1..];
  }

  lemma OnePiece(p: Piece)
    ensures Data([p]) == p.data && Total([p]) == p.entry.length
  {
    assert [p][1..] == [] && p.data + [] == p.data;
  }

  /** The k-th word of a table. */
  lemma {:induction false} TableWord(ps: seq<Piece>, i: nat, off: nat, k: nat)
    requires k < |ps| && AllWellFormed(ps) && off + Total(ps) <= MAX_BYTE_LENGTH
    ensures Table(ps, i, off)[4 * k..4 * k + 4] == U32(EncodedEntry(ps[k].entry, i + k, off + Total(ps[..k + 1])))
    decreases k
  {
    hide EncodedEntry, U32, Table;
    TableStep(ps, i, off);
    var end := off + ps[0].entry.length;
    var w, t := U32(EncodedEntry(ps[0].entry, i, end)), Table(ps[1..], i + 1, end);
    if k == 0 {
      assert ps[..1][1..] == [];
      assert (w + t)[..4] == w;
    } else {
      TableWord(ps[1..], i + 1, end, k - 1);
      assert ps[..k + 1][1..] == ps[1..][..k];
      assert (w + t)[4 * k..4 * k + 4] == t[4 * (k - 1)..4 * (k - 1) + 4];
    }
  }

  lemma WordReads(v: bytes, k: nat, w: nat)
    requires w < TWO32 && 4 + 4 * k + 4 <= |v| && v[4 + 4 * k..4 + 4 * k + 4] == U32(w)
    ensures EntryWord(v, k) == Success(w)
  {
    hide U32, FromBigEndian;
    U32Inverts(w);
  }

  lemma EntryFits(e: JEntry, i: nat, end: nat)
    requires ValidTag(e.typCode) && e.length <= end <= MAX_BYTE_LENGTH
    ensures EncodedEntry(e, i, end) < TWO32
  {
    hide EncodedEntry;
    EntryInverts(e, i, end - e.length);
  }

  lemma SliceShift(v: bytes, a: nat, s: bytes, i: nat, j: nat)
    requires a <= |v| && v[a..] == s && i <= j <= |s|
    ensures v[a + i..a + j] == s[i..j]
  {
    assert v[a..][i..j] == v[a + i..a + j];
  }

  lemma SliceOfConcat(p: bytes, q: bytes, i: nat, j: nat)
    requires i <= j <= |p| + |q|
    ensures j <= |p| ==> (p + q)[i..j] == p[i..j]
    ensures i >= |p| ==> (p + q)[i..j] == q[i - |p|..j - |p|]
  {
  }

  lemma ArrayWord(ps: seq<Piece>, k: nat)
    requires AllWellFormed(ps) && |ArrayBytes(ps)| <= MAX_BYTE_LENGTH && k < |ps|
    ensures EntryWord(ArrayBytes(ps), k) == Success(EncodedEntry(ps[k].entry, k, Total(ps[..k + 1])))
  {
    hide EncodedEntry, Table, Data, U32, EntryWord, Total, ArrayBytes;
    var v, t := ArrayBytes(ps), Table(ps, 0, 0);
    ArrayTotal(ps);
    TotalPrefix(ps, k);
    TableWord(ps, 0, 0, k);
    assert 0 + k == k;
    EntryFits(ps[k].entry, k, Total(ps[..k + 1]));
    ArrayShape(ps, []);
    assert v + [] == v;
    SliceShift(v, 4, t + (Data(ps) + []), 4 * k, 4 * k + 4);
    SliceOfConcat(t, Data(ps) + [], 4 * k, 4 * k + 4);
    WordReads(v, k, EncodedEntry(ps[k].entry, k, Total(ps[..k + 1])));
  }

  lemma ArrayTotal(ps: seq<Piece>)
    requires AllWellFormed(ps)
    ensures |ArrayBytes(ps)| == 4 + 4 * |ps| + Total(ps) && ArrayBytes(ps)[4 + 4 * |ps|..] == Data(ps)
  {
    DataLength(ps);
    hide Table, Data, U32;
  }

  lemma ObjectTotal(ks: seq<Piece>, vs: seq<Piece>)
    requires AllWellFormed(ks) && AllWellFormed(vs) && |ks| == |vs|
    ensures |ObjectBytes(ks, vs)| == 4 + 8 * |ks| + Total(ks) + Total(vs)
    ensures ObjectBytes(ks, vs)[4 + 8 * |ks|..] == Data(ks) + Data(vs)
  {
    hide Table, Data, U32, Total;
    DataLength(ks);
    DataLength(vs);
    FiveParts(U32(Or(OBJECT_CONTAINER_TAG, |ks| % TWO32)), Table(ks, 0, 0), Table(vs, 0, Total(ks) % TWO32), Data(ks), Data(vs));
  }

  lemma FiveParts(h: bytes, t: bytes, u: bytes, d: bytes, e: bytes)
    ensures (h + t + u + d + e)[|h| + |t| + |u|..] == d + e
  {
    assert h + t + u + d + e == (h + t + u) + (d + e);
  }

  lemma ArrayLaidOut(ps: seq<Piece>)
    requires AllWellFormed(ps) && |ArrayBytes(ps)| <= MAX_BYTE_LENGTH
    ensures LaidOut(ArrayBytes(ps), ps, |ps|)
  {
    hide EncodedEntry, Table, Data, U32, EntryWord, Total, ArrayBytes;
    ArrayTotal(ps);
    forall k | 0 <= k < |ps|
      ensures EntryWord(ArrayBytes(ps), k) == Success(EncodedEntry(ps[k].entry, k, Total(ps[..k + 1])))
    {
      ArrayWord(ps, k);
    }
  }

  /** A window of the tables of an encoded object. */
  lemma ObjectWindow(ks: seq<Piece>, vs: seq<Piece>, k: nat)
    requires |ks| == |vs| && |ObjectBytes(ks, vs)| <= MAX_BYTE_LENGTH && k < 2 * |ks| && 4 + 8 * |ks| <= |ObjectBytes(ks, vs)|
    ensures var w := ObjectBytes(ks, vs)[4 + 4 * k..4 + 4 * k + 4];
            if k < |ks| then w == Table(ks, 0, 0)[4 * k..4 * k + 4]
            else w == Table(vs, 0, Total(ks) % TWO32)[4 * (k - |ks|)..4 * (k - |ks|) + 4]
  {
    hide Table, Data, Total, U32, ObjectBytes;
    var v := ObjectBytes(ks, vs);
    ObjectShape(ks, vs, []);
    assert v + [] == v;
    var t, u := Table(ks, 0, 0), Table(vs, 0, Total(ks) % TWO32);
    var d := Data(ks) + (Data(vs) + []);
    SliceShift(v, 4, t + (u + d), 4 * k, 4 * k + 4);
    SliceOfConcat(t, u + d, 4 * k, 4 * k + 4);
    if k >= |ks| { SliceOfConcat(u, d, 4 * (k - |ks|), 4 * (k - |ks|) + 4); }
  }

  lemma ObjectWord(ks: seq<Piece>, vs: seq<Piece>, k: nat)
    requires AllWellFormed(ks) && AllWellFormed(vs) && |ks| == |vs| && |ObjectBytes(ks, vs)| <= MAX_BYTE_LENGTH
    requires k < 2 * |ks|
    ensures var n, all := |ks|, ks + vs;
            EntryWord(ObjectBytes(ks, vs), k) == Success(EncodedEntry(all[k].entry, if k < n then k else k - n, Total(all[..k + 1])))
  {
    hide EncodedEntry, Table, Data, U32, EntryWord, Total, ObjectBytes;
    var n, all, v := |ks|, ks + vs, ObjectBytes(ks, vs);
    ObjectTotal(ks, vs);
    TotalConcat(ks, vs);
    TotalPrefix(all, k);
    var i := if k < n then k else k - n;
    var w := EncodedEntry(all[k].entry, i, Total(all[..k + 1]));
    EntryFits(all[k].entry, i, Total(all[..k + 1]));
    ObjectWindow(ks, vs, k);
    assert 0 + i == i && 0 + Total(ks[..i + 1]) == Total(ks[..i + 1]);
    if k < n {
      TableWord(ks, 0, 0, k);
      assert all[..k + 1] == ks[..k + 1];
    } else {
      TableWord(vs, 0, Total(ks), i);
      assert all[..k + 1] == ks + vs[..i + 1];
      TotalConcat(ks, vs[..i + 1]);
      assert Total(ks) % TWO32 == Total(ks);
    }
    WordReads(v, k, w);
  }

  lemma ObjectLaidOut(ks: seq<Piece>, vs: seq<Piece>)
    requires AllWellFormed(ks) && AllWellFormed(vs) && |ks| == |vs| && |ObjectBytes(ks, vs)| <= MAX_BYTE_LENGTH
    ensures LaidOut(ObjectBytes(ks, vs), ks + vs, |ks|)
  {
    hide EncodedEntry, Table, Data, U32, EntryWord, ObjectBytes, Total;
    var all, v := ks + vs, ObjectBytes(ks, vs);
    ObjectTotal(ks, vs);
    TotalConcat(ks, vs);
    forall k | 0 <= k < |all|
      ensures EntryWord(v, k) == Success(EncodedEntry(all[k].entry, if k < |ks| then k else k - |ks|, Total(all[..k + 1])))
    {
      ObjectWord(ks, vs, k);
    }
  }

  // ------------------------------------------------- random access is exact

  lemma {:induction false} BackFromExact(v: bytes, all: seq<Piece>, m: nat, cur: int, offset: nat)
    requires LaidOut(v, all, m) && -1 <= cur < |all|
    ensures BackFrom(v, cur, offset) == Success(Total(all[..cur + 1]) + offset)
    decreases cur
  {
    hide LaidOut, EncodedEntry, EntryWord, Total;
    if cur >= 0 {
      var e, i, end := all[cur].entry, if cur < m then cur else cur - m, Total(all[..cur + 1]);
      LaidWord(v, all, m, cur);
      StoredWord(e, i, end);
      BackFromExact(v, all, m, cur - 1, offset + e.length);
    } else {
      assert all[..0] == [];
      TotalNone();
    }
  }

  lemma TotalNone()
    ensures Total([]) == 0
  {
  }

  lemma LaidWord(v: bytes, all: seq<Piece>, m: nat, k: nat)
    requires LaidOut(v, all, m) && k < |all|
    ensures EntryWord(v, k) == Success(EncodedEntry(all[k].entry, if k < m then k else k - m, Total(all[..k + 1])))
    ensures ValidTag(all[k].entry.typCode) && Total(all[..k + 1]) == Total(all[..k]) + all[k].entry.length <= MAX_BYTE_LENGTH
  {
    TotalPrefix(all, k);
  }

  /** What the backward walk reads off one stored word. */
  lemma StoredWord(e: JEntry, i: nat, end: nat)
    requires ValidTag(e.typCode) && e.length <= end <= MAX_BYTE_LENGTH
    ensures var w := EncodedEntry(e, i, end);
            if i % OFFLEN_STRIDE == 0 then w >= IS_OFF_FLAG && w % OFF_LEN_LIMIT == end
            else w < IS_OFF_FLAG && w % OFF_LEN_LIMIT == e.length
  {
    hide EncodedEntry;
    EncodedEntryIs(e, i, end);
    if i % OFFLEN_STRIDE == 0 {
      WordFields(e.typCode / OFF_LEN_LIMIT + 8, end);
    } else {
      WordFields(e.typCode / OFF_LEN_LIMIT, e.length);
    }
  }

  /** beginningOfIdx is the sum of all earlier lengths, although only every 32nd entry is an offset. */
  lemma BeginningIsSum(v: bytes, all: seq<Piece>, m: nat, idx: nat)
    requires LaidOut(v, all, m) && idx <= |all|
    ensures BeginningOfIdx(v, idx) == Success(Total(all[..idx]))
  {
    BackFromExact(v, all, m, idx - 1, 0);
  }

  lemma DataSlice(ps: seq<Piece>, k: nat)
    requires AllWellFormed(ps) && k < |ps|
    ensures Total(ps[..k]) <= Total(ps[..k + 1]) <= |Data(ps)| && Data(ps)[Total(ps[..k])..Total(ps[..k + 1])] == ps[k].data
  {
    hide Total, Data;
    var a, b := ps[..k], ps[k + 1..];
    assert ps == ps[..k + 1] + b;
    TotalConcat(ps[..k + 1], b);
    assert ps[..k + 1] == a + [ps[k]];
    TotalConcat(a, [ps[k]]);
    TotalPrefix(ps, k);
    DataLength(a);
    DataLength(ps[..k + 1]);
    OnePiece(ps[k]);
    assert Data(ps) == Data(a) + ps[k].data + Data(b);
  }

  /** Entry k and its data, read at the offset where it begins. */
  lemma EntryAt(v: bytes, all: seq<Piece>, m: nat, k: nat)
    requires LaidOut(v, all, m) && k < |all|
    ensures EntryWord(v, k).Success? && EntryOf(EntryWord(v, k).value, Total(all[..k])) == all[k].entry
    ensures var start, begin, end := CONTAINER_HEADER_LEN + |all| * JENTRY_LEN, Total(all[..k]), Total(all[..k + 1]);
            end == begin + all[k].entry.length && start + end <= |v| && v[start + begin..start + end] == all[k].data
  {
    hide LaidOut, Total, Data, EncodedEntry, EntryOf, EntryWord;
    LaidWord(v, all, m, k);
    LaidData(v, all, m);
    DataSlice(all, k);
    var begin := Total(all[..k]);
    EntryInverts(all[k].entry, if k < m then k else k - m, begin);
    SliceShift(v, 4 + 4 * |all|, Data(all), begin, Total(all[..k + 1]));
  }

  lemma NthExact(v: bytes, all: seq<Piece>, m: nat, k: nat)
    requires LaidOut(v, all, m) && k < |all|
    ensures NthData(v, |all|, k) == Success((all[k].data, all[k].entry))
  {
    hide LaidOut, Total, EntryOf, EntryWord, BeginningOfIdx;
    BeginningIsSum(v, all, m, k);
    EntryAt(v, all, m, k);
  }

  lemma LaidData(v: bytes, all: seq<Piece>, m: nat)
    requires LaidOut(v, all, m)
    ensures AllWellFormed(all) && |v| == 4 + 4 * |all| + |Data(all)| && v[4 + 4 * |all|..] == Data(all)
  {
    DataLength(all);
  }

  // ------------------------------------------------- containers

  lemma {:induction false} EncodedItem(items: seq<Json>, i: nat)
    requires i < |items| && EncodeItems(items).Success?
    ensures Encode(items[i]) == Success(EncodeItems(items).value[i])
  {
    hide Encode;
    if i > 0 { EncodedItem(items[1..], i - 1); }
  }

  lemma {:induction false} EncodedKey(pairs: seq<Pair>, i: nat)
    requires i < |pairs| && EncodeKeys(pairs).Success?
    ensures EncodeKeys(pairs).value[i].data == pairs[i].k
  {
    if i > 0 { EncodedKey(pairs[1..], i - 1); }
  }

  lemma {:induction false} EncodedValue(pairs: seq<Pair>, i: nat)
    requires i < |pairs| && EncodeValues(pairs).Success?
    ensures Encode(pairs[i].v) == Success(EncodeValues(pairs).value[i])
  {
    hide Encode;
    if i > 0 { EncodedValue(pairs[1..], i - 1); }
  }

  lemma ArrayItem(items: seq<Json>, i: nat)
    requires Encode(JArr(items)).Success? && i < |items|
    ensures Encode(items[i]).Success?
    ensures NthData(Encode(JArr(items)).value.data, |items|, i) ==
            Success((Encode(items[i]).value.data, Encode(items[i]).value.entry))
  {
    hide Encode, ArrayBytes, EncodeItems, LaidOut;
    EncodeArrayForm(items);
    var ps := EncodeItems(items).value;
    ItemsWellFormed(items);
    ArrayLaidOut(ps);
    EncodedItem(items, i);
    NthExact(ArrayBytes(ps), ps, |ps|, i);
  }

  lemma ObjectEntry(pairs: seq<Pair>, i: nat)
    requires Encode(JObj(pairs)).Success? && i < |pairs|
    ensures var v := Encode(JObj(pairs)).value.data;
            && Encode(pairs[i].v).Success?
            && NthData(v, 2 * |pairs|, i).Success? && NthData(v, 2 * |pairs|, i).value.0 == pairs[i].k
            && NthData(v, 2 * |pairs|, i).value.1 == JEntry(STRING_TAG, |pairs[i].k|)
            && NthData(v, 2 * |pairs|, |pairs| + i) == Success((Encode(pairs[i].v).value.data, Encode(pairs[i].v).value.entry))
  {
    hide ObjectBytes, EncodeKeys, EncodeValues, LaidOut, NthData, Encode;
    EncodeObjectForm(pairs);
    var ks, vs := EncodeKeys(pairs).value, EncodeValues(pairs).value;
    KeysWellFormed(pairs);
    ValuesWellFormed(pairs);
    KeyEntry(pairs, i);
    ObjectLaidOut(ks, vs);
    EncodedKey(pairs, i);
    EncodedValue(pairs, i);
    NthExact(ObjectBytes(ks, vs), ks + vs, |ks|, i);
    NthExact(ObjectBytes(ks, vs), ks + vs, |ks|, |pairs| + i);
  }

  lemma EncodeArrayForm(items: seq<Json>)
    requires Encode(JArr(items)).Success?
    ensures EncodeItems(items).Success? && Encode(JArr(items)).value.data == ArrayBytes(EncodeItems(items).value)
    ensures |ArrayBytes(EncodeItems(items).value)| <= MAX_BYTE_LENGTH
  {
    hide ArrayBytes, EncodeItems;
  }

  lemma EncodeObjectForm(pairs: seq<Pair>)
    requires Encode(JObj(pairs)).Success?
    ensures EncodeKeys(pairs).Success? && EncodeValues(pairs).Success?
    ensures Encode(JObj(pairs)).value.data == ObjectBytes(EncodeKeys(pairs).value, EncodeValues(pairs).value)
    ensures |ObjectBytes(EncodeKeys(pairs).value, EncodeValues(pairs).value)| <= MAX_BYTE_LENGTH
  {
    hide ObjectBytes, EncodeKeys, EncodeValues;
  }

  lemma {:induction false} KeyEntry(pairs: seq<Pair>, i: nat)
    requires i < |pairs| && EncodeKeys(pairs).Success?
    ensures EncodeKeys(pairs).value[i].entry == JEntry(STRING_TAG, |pairs[i].k|)
  {
    if i > 0 { KeyEntry(pairs[1..], i - 1); }
  }

  lemma ContainerHeader(j: Json)
    requires (j.JArr? || j.JObj?) && Encode(j).Success?
    ensures var v := Encode(j).value.data;
            && |v| >= 4
            && HeaderKind(FromBigEndian(v[..4])) == KindOf(j)
            && FromBigEndian(v[..4]) / HEADER_LEN_LIMIT * HEADER_LEN_LIMIT == (if j.JArr? then ARRAY_CONTAINER_TAG else OBJECT_CONTAINER_TAG)
            && FromBigEndian(v[..4]) % HEADER_LEN_LIMIT == Count(j)
  {
    hide FromBigEndian, U32, ArrayBytes, ObjectBytes, EncodeItems, EncodeKeys, EncodeValues, Or;
    var v := Encode(j).value.data;
    assert v + [] == v;
    if j.JArr? {
      var ps := EncodeItems(j.items).value;
      ArrayShape(ps, []);
      HeaderInverts(ARRAY_CONTAINER_TAG, |ps|);
    } else {
      var ks, vs := EncodeKeys(j.pairs).value, EncodeValues(j.pairs).value;
      ObjectShape(ks, vs, []);
      HeaderInverts(OBJECT_CONTAINER_TAG, |ks|);
    }
  }

  /** newEncoded on a member's entry and bytes stands for the member. */
  lemma NewEncodedDenotes(j: Json)
    requires Encode(j).Success?
    ensures var p, r := Encode(j).value, NewEncoded(Encode(j).value.entry, Encode(j).value.data);
            r.Success? && Denotes(r.value, j)
  {
    hide FromBigEndian, HeaderKind, EncodeItems, EncodeKeys, EncodeValues, EncodeNumber;
    if j.JArr? || j.JObj? { ContainerHeader(j); }
  }

  // ------------------------------------------------- main results

  ghost predicate Agrees(r: Result<Option<Lazy>>, want: Option<Json>) {
    r.Success? && match want
                  case None => r.value == None
                  case Some(j) => r.value.Some? && Denotes(r.value.value, j)
  }

  /** Opening an encoded document gives a lazy value that stands for it. */
  lemma FromRootDenotes(j: Json)
    requires EncodeJson(j).Success?
    ensures var r := FromRoot(EncodeJson(j).value); r.Success? && Denotes(r.value, j)
  {
    hide FromBigEndian, HeaderKind, Encode;
    if j.JArr? || j.JObj? { ContainerHeader(j); } else { ScalarRoot(j); }
  }

  lemma ScalarBytes(j: Json)
    requires !j.JArr? && !j.JObj? && EncodeJson(j).Success?
    ensures var v, p := EncodeJson(j).value, Encode(j).value;
            && |v| >= 8 && FromBigEndian(v[..4]) == SCALAR_CONTAINER_TAG && v[8..] == p.data
            && FromBigEndian(v[4..8]) / OFF_LEN_LIMIT % 8 * OFF_LEN_LIMIT == p.entry.typCode
  {
    hide FromBigEndian, U32, Encode, Or;
    var p := Encode(j).value;
    EncodeWellFormed(j);
    NibbleOr(p.entry.typCode / OFF_LEN_LIMIT, p.entry.length);
    WordFields(p.entry.typCode / OFF_LEN_LIMIT, p.entry.length);
    U32Inverts(Or(p.entry.typCode, p.entry.length));
    U32Inverts(SCALAR_CONTAINER_TAG);
    TwoWords(U32(SCALAR_CONTAINER_TAG), U32(Or(p.entry.typCode, p.entry.length)), p.data);
  }

  lemma TwoWords(a: bytes, b: bytes, d: bytes)
    requires |a| == |b| == 4
    ensures var v := a + b + d; v[..4] == a && v[4..8] == b && v[8..] == d
  {
  }

  lemma ScalarRoot(j: Json)
    requires !j.JArr? && !j.JObj? && EncodeJson(j).Success?
    ensures var r := FromRoot(EncodeJson(j).value); r.Success? && Denotes(r.value, j)
  {
    hide FromBigEndian, EncodeJson, HeaderKind, EncodeNumber;
    ScalarBytes(j);
    ScalarEncodes(j);
  }

  lemma ScalarEncodes(j: Json)
    requires EncodeJson(j).Success?
    ensures Encode(j).Success?
  {
  }

  /** FetchValIdx straight from the bytes is FetchValIdx on the decoded document. */
  lemma FetchIdxAgrees(l: Lazy, j: Json, idx: int)
    requires Denotes(l, j)
    ensures Agrees(LazyFetchIdx(l, idx), FetchIdx(j, idx))
  {
    hide NthData, NewEncoded, Encode;
    var i := if j.JArr? && idx < 0 then |j.items| + idx else idx;
    if l.LEnc? && j.JArr? && 0 <= i < |j.items| {
      ArrayItem(j.items, i);
      NewEncodedDenotes(j.items[i]);
    }
  }

  lemma SearchSpec(pairs: seq<Pair>, key: bytes, lo: nat, hi: nat)
    requires Encode(JObj(pairs)).Success? && SortedPairs(pairs) && lo <= hi <= |pairs|
    requires forall k :: 0 <= k < lo ==> CompareBytes(pairs[k].k, key) < 0
    requires forall k :: hi <= k < |pairs| ==> CompareBytes(pairs[k].k, key) >= 0
    ensures var i := SearchKey(Encode(JObj(pairs)).value.data, |pairs|, key, lo, hi);
            && (forall k :: 0 <= k < i ==> CompareBytes(pairs[k].k, key) < 0)
            && (forall k :: i <= k < |pairs| ==> CompareBytes(pairs[k].k, key) >= 0)
    decreases hi - lo
  {
    hide Encode, NthData;
    if lo < hi {
      var h := (lo + hi) / 2;
      ObjectEntry(pairs, h);
      if CompareBytes(pairs[h].k, key) >= 0 {
        forall k | h <= k < |pairs| ensures CompareBytes(pairs[k].k, key) >= 0 {
          if h < k { CompareChain(key, pairs[h].k, pairs[k].k); }
        }
        SearchSpec(pairs, key, lo, h);
      } else {
        forall k | 0 <= k < h + 1 ensures CompareBytes(pairs[k].k, key) < 0 {
          if k < h { CompareChain2(pairs[k].k, pairs[h].k, key); }
        }
        SearchSpec(pairs, key, h + 1, hi);
      }
    }
  }

  lemma {:induction false} CompareFlip(a: bytes, b: bytes)
    ensures CompareBytes(b, a) == -CompareBytes(a, b)
  {
    if a != [] && b != [] { CompareFlip(a[1..], b[1..]); }
  }

  lemma {:induction false} CompareChain2(a: bytes, b: bytes, c: bytes)
    requires CompareBytes(a, b) < 0 && CompareBytes(b, c) < 0
    ensures CompareBytes(a, c) < 0
  {
    if a != [] && a[0] == b[0] && b[0] == c[0] { CompareChain2(a[1..], b[1..], c[1..]); }
  }

  lemma CompareChain(key: bytes, a: bytes, b: bytes)
    requires CompareBytes(a, key) >= 0 && CompareBytes(a, b) < 0
    ensures CompareBytes(b, key) >= 0
  {
    CompareFlip(b, key);
    CompareFlip(a, key);
    if CompareBytes(b, key) < 0 { CompareChain2(a, b, key); }
  }

  /** FindKey in a sorted list, from the position binary search returns. */
  lemma {:induction false} FindKeyAt(pairs: seq<Pair>, key: bytes, i: nat)
    requires i <= |pairs| && forall k :: 0 <= k < i ==> CompareBytes(pairs[k].k, key) < 0
    requires SortedPairs(pairs) && forall k :: i <= k < |pairs| ==> CompareBytes(pairs[k].k, key) >= 0
    ensures FindKey(pairs, key) == if i < |pairs| && pairs[i].k == key then Some(pairs[i].v) else None
    decreases |pairs|
  {
    if pairs != [] {
      if i > 0 {
        assert pairs[0].k != key;
        FindKeyAt(pairs[1..], key, i - 1);
      } else if pairs[0].k != key {
        assert |pairs| > 1 ==> CompareBytes(pairs[0].k, pairs[1].k) < 0;
        assert |pairs| > 1 ==> pairs[1].k != key;
        assert forall k :: 0 <= k < |pairs| - 1 ==> pairs[1..][k] == pairs[k + 1];
        FindKeyAt(pairs[1..], key, 0);
      }
    }
  }

  /** FetchValKey straight from the bytes, by binary search, is the lookup in the decoded object. */
  lemma FetchKeyAgrees(l: Lazy, j: Json, key: bytes)
    requires Denotes(l, j) && (j.JObj? ==> SortedPairs(j.pairs))
    ensures Agrees(LazyFetchKey(l, key), FetchKey(j, key))
  {
    hide NthData, NewEncoded, Encode, SearchKey, FindKey;
    if l.LEnc? && j.JObj? {
      var pairs, v := j.pairs, l.value;
      SearchSpec(pairs, key, 0, |pairs|);
      var i := SearchKey(v, |pairs|, key, 0, |pairs|);
      FindKeyAt(pairs, key, i);
      if i < |pairs| {
        ObjectEntry(pairs, i);
        NewEncodedDenotes(pairs[i].v);
      }
    }
  }

  // ------------------------------------------------- whole paths

  datatype Step = Key(k: bytes) | Idx(i: int)

  function LazyStep(l: Lazy, s: Step): Result<Option<Lazy>> {
    match s
    case Key(k) => LazyFetchKey(l, k)
    case Idx(i) => LazyFetchIdx(l, i)
  }

  function JsonStep(j: Json, s: Step): Option<Json> {
    match s
    case Key(k) => FetchKey(j, k)
    case Idx(i) => FetchIdx(j, i)
  }

  /** FetchPath: stop at the first missing step. */
  function LazyPath(l: Lazy, path: seq<Step>): Result<Option<Lazy>>
    decreases |path|
  {
    if path == [] then Success(Some(l))
    else
      match LazyStep(l, path[0])
      case Failure(e) => Failure(e)
      case Success(None) => Success(None)
      case Success(Some(next)) => LazyPath(next, path[1..])
  }

  function JsonPath(j: Json, path: seq<Step>): Option<Json>
    decreases |path|
  {
    if path == [] then Some(j)
    else
      match JsonStep(j, path[0])
      case None => None
      case Some(next) => JsonPath(next, path[1..])
  }

  lemma {:induction false} FoundSorted(pairs: seq<Pair>, key: bytes)
    requires FindKey(pairs, key).Some?
    ensures exists p :: p in pairs && p.v == FindKey(pairs, key).value
  {
    if pairs[0].k != key { FoundSorted(pairs[1..], key); }
  }

  lemma StepSorted(j: Json, s: Step)
    requires Sorted(j) && JsonStep(j, s).Some?
    ensures Sorted(JsonStep(j, s).value)
  {
    if s.Key? { FoundSorted(j.pairs, s.k); }
  }

  /** Laziness is invisible along any path of lookups, starting from any encoded document. */
  lemma {:induction false} PathAgrees(l: Lazy, j: Json, path: seq<Step>)
    requires Denotes(l, j) && Sorted(j)
    ensures Agrees(LazyPath(l, path), JsonPath(j, path))
    decreases |path|
  {
    if path != [] {
      hide Denotes, LazyFetchIdx, LazyFetchKey, FetchIdx, FetchKey;
      SortedTop(j);
      if path[0].Key? { FetchKeyAgrees(l, j, path[0].k); } else { FetchIdxAgrees(l, j, path[0].i); }
      if JsonStep(j, path[0]).Some? {
        StepSorted(j, path[0]);
        PathAgrees(LazyStep(l, path[0]).value.value, JsonStep(j, path[0]).value, path[1..]);
      }
    }
  }

  lemma SortedTop(j: Json)
    requires Sorted(j)
    ensures j.JObj? ==> SortedPairs(j.pairs)
  {
  }
}
