/** The bit array codec (pkg/util/encoding/encoding.go, bit array section). */
module KeyBitArray {
  import opened ByteStrings
  import opened GoInts
  import opened Varint
  import opened BitArrays
  import opened BitWords

  const BIT_ARRAY_MARKER: byte := 58
  const BIT_ARRAY_DESC_MARKER: byte := 59
  const DATA_TERMINATOR: byte := 0x00
  const DATA_DESC_TERMINATOR: byte := 0xff

  function Marker(desc: bool): byte {
    if desc then BIT_ARRAY_DESC_MARKER else BIT_ARRAY_MARKER
  }

  function Terminator(desc: bool): byte {
    if desc then DATA_DESC_TERMINATOR else DATA_TERMINATOR
  }

  function EncodeWord(w: uint64, desc: bool): bytes {
    if desc then EncodeUvarintDescending(w) else EncodeUvarintAscending(w)
  }

  function DecodeWord(b: bytes, desc: bool): Decoded<uint64> {
    if desc then DecodeUvarintDescending(b) else DecodeUvarintAscending(b)
  }

  function EncodeWords(ws: seq<word>, desc: bool): bytes {
    if ws == [] then [] else EncodeWord(ws[0] as int, desc) + EncodeWords(ws[1..], desc)
  }

  /** EncodeBitArrayAscending and EncodeBitArrayDescending. */
  function EncodeBitArray(d: BitArray, desc: bool): bytes
    requires d.lastBitsUsed < TWO64
  {
    [Marker(desc)] + Tail(d, desc)
  }

  function Tail(d: BitArray, desc: bool): bytes
    requires d.lastBitsUsed < TWO64
  {
    EncodeWords(d.words, desc) + ([Terminator(desc)] + EncodeWord(d.lastBitsUsed, desc))
  }

  /** getBitArrayWordsLen: word count and byte size up to the terminator. */
  function WordsLen(b: bytes, term: byte): (r: Result<(nat, nat)>)
    ensures r.Success? ==> r.value.1 < |b| && b[r.value.1] == term
    decreases |b|
  {
    if b == [] then Failure(Insufficient)
    else if b[0] == term then Success((0, 0))
    else
      match GetVarintLen(b)
      case Failure(e) => Failure(e)
      case Success(n) =>
        match WordsLen(b[n..], term)
        case Failure(e) => Failure(e)
        case Success((count, size)) => Success((count + 1, size + n))
  }

  function DecodeWords(b: bytes, n: nat, desc: bool): Decoded<seq<word>>
    decreases n
  {
    if n == 0 then Ok(b, [])
    else
      match DecodeWord(b, desc)
      case Err(e) => Err(e)
      case Ok(r, w) =>
        match DecodeWords(r, n - 1, desc)
        case Err(e) => Err(e)
        case Ok(rest, ws) => Ok(rest, [w as word] + ws)
  }

  function FromEncodingParts(words: seq<word>, lastBitsUsed: uint64): Result<BitArray> {
    if lastBitsUsed > BITS_PER_WORD then Failure(BadBitCount) else Success(BitArray(words, lastBitsUsed))
  }

  /** DecodeBitArrayAscending and DecodeBitArrayDescending. */
  function DecodeBitArray(b: bytes, desc: bool): Decoded<BitArray> {
    if b == [] || b[0] != Marker(desc) then Err(MissingMarker)
    else
      match WordsLen(b[1..], Terminator(desc))
      case Failure(e) => Err(e)
      case Success((count, _)) =>
        match DecodeWords(b[1..], count, desc)
        case Err(e) => Err(e)
        case Ok(r, words) =>
          if r == [] || r[0] != Terminator(desc) then Err(MissingTerminator)
          else
            match DecodeWord(r[1..], desc)
            case Err(e) => Err(e)
            case Ok(rest, last) =>
              match FromEncodingParts(words, last)
              case Failure(e) => Err(e)
              case Success(d) => Ok(rest, d)
  }

  /** The bit array case of PeekLength. */
  function GetBitArrayLen(b: bytes, desc: bool): (r: Result<nat>)
    requires b != []
    ensures r.Success? ==> 1 <= r.value <= |b|
  {
    match WordsLen(b[1..], Terminator(desc))
    case Failure(e) => Failure(e)
    case Success((_, n)) =>
      if n + 2 >= |b| then Failure(IndexPanic)
      else
        match GetVarintLen(b[n + 2..])
        case Failure(e) => Failure(e)
        case Success(m) => Success(1 + n + m + 1)
  }

  // ---------------------------------------------------------------- the loops

  /** getBitArrayWordsLen. */
  method WordsLenLoop(b: bytes, term: byte) returns (r: Result<(nat, nat)>)
    ensures r == WordsLen(b, term)
  {
    var bSearch, numWords: nat, sz: nat := b, 0, 0;
    while true
      invariant WordsLen(b, term) ==
                match WordsLen(bSearch, term)
                case Failure(e) => Failure(e)
                case Success((count, size)) => Success((count + numWords, size + sz))
      decreases |bSearch|
    {
      if bSearch == [] {
        return Failure(Insufficient);
      }
      if bSearch[0] == term {
        return Success((numWords, sz));
      }
      var l := GetVarintLen(bSearch);
      if l.Failure? {
        return Failure(l.error);
      }
      bSearch := bSearch[l.value..];
      numWords := numWords + 1;
      sz := sz + l.value;
    }
  }

  /** The word-decoding loop of DecodeBitArrayAscending and DecodeBitArrayDescending. */
  method DecodeWordsLoop(buf: bytes, n: nat, desc: bool) returns (d: Decoded<seq<word>>)
    ensures d == DecodeWords(buf, n, desc)
  {
    var b, words := buf, [];
    assert forall ws: seq<word> :: [] + ws == ws;
    for i := 0 to n
      invariant |words| == i
      invariant DecodeWords(buf, n, desc) ==
                match DecodeWords(b, n - i, desc)
                case Err(e) => Err(e)
                case Ok(rest, ws) => Ok(rest, words + ws)
    {
      var w := DecodeWord(b, desc);
      if w.Err? {
        return Err(w.error);
      }
      b := w.rest;
      words := words + [w.value as word];
      assert forall ws :: words[..i] + ([w.value as word] + ws) == words + ws;
    }
    assert words + [] == words;
    return Ok(b, words);
  }

  // ---------------------------------------------------------------- theorems

  lemma WordTag(w: uint64, desc: bool)
    ensures EncodeWord(w, desc) != [] && EncodeWord(w, desc)[0] != Terminator(desc)
    ensures if desc then EncodeWord(w, desc)[0] < Terminator(desc) else EncodeWord(w, desc)[0] > Terminator(desc)
  {
    UvarintLength(w, []);
  }

  lemma WordOrder(v: uint64, w: uint64, desc: bool)
    requires v < w
    ensures if desc then Before(EncodeWord(w, desc), EncodeWord(v, desc)) else Before(EncodeWord(v, desc), EncodeWord(w, desc))
  {
    if desc { UvarintDescendingOrder(v, w); } else { UvarintAscendingOrder(v, w); }
  }

  lemma {:induction false} TailOrder(a: BitArray, b: BitArray, desc: bool)
    requires Compare(a, b) < 0 && a.lastBitsUsed < TWO64 && b.lastBitsUsed < TWO64
    ensures if desc then Before(Tail(b, desc), Tail(a, desc)) else Before(Tail(a, desc), Tail(b, desc))
    decreases |a.words|
  {
    hide EncodeWord;
    if a.words == [] {
      assert Tail(a, desc) == [Terminator(desc)] + EncodeWord(a.lastBitsUsed, desc);
      if b.words == [] {
        assert Tail(b, desc) == [Terminator(desc)] + EncodeWord(b.lastBitsUsed, desc);
        WordOrder(a.lastBitsUsed, b.lastBitsUsed, desc);
        BeforeUnderPrefix([Terminator(desc)], EncodeWord(a.lastBitsUsed, desc), EncodeWord(b.lastBitsUsed, desc));
        BeforeUnderPrefix([Terminator(desc)], EncodeWord(b.lastBitsUsed, desc), EncodeWord(a.lastBitsUsed, desc));
      } else {
        WordTag(b.words[0] as int, desc);
      }
    } else {
      var v, w := a.words[0], b.words[0];
      var ta, tb := Tail(a.(words := a.words[1..]), desc), Tail(b.(words := b.words[1..]), desc);
      var x, y := EncodeWord(v as int, desc), EncodeWord(w as int, desc);
      assert Tail(a, desc) == x + ta && Tail(b, desc) == y + tb;
      hide Tail, EncodeWords;
      if v < w {
        WordOrder(v as int, w as int, desc);
        if desc { BeforeExtends(y, x, tb, ta); } else { BeforeExtends(x, y, ta, tb); }
      } else {
        TailOrder(a.(words := a.words[1..]), b.(words := b.words[1..]), desc);
        BeforeUnderPrefix(x, ta, tb);
        BeforeUnderPrefix(x, tb, ta);
      }
    }
  }

  /** Encodings order as Compare does, ascending or reversed. */
  lemma BitArrayOrder(a: BitArray, b: BitArray, desc: bool)
    requires Compare(a, b) < 0 && a.lastBitsUsed < TWO64 && b.lastBitsUsed < TWO64
    ensures if desc then Before(EncodeBitArray(b, desc), EncodeBitArray(a, desc))
            else Before(EncodeBitArray(a, desc), EncodeBitArray(b, desc))
  {
    hide *;
    TailOrder(a, b, desc);
    EncodingIs(a, desc);
    EncodingIs(b, desc);
    BeforeUnderPrefix([Marker(desc)], Tail(a, desc), Tail(b, desc));
    BeforeUnderPrefix([Marker(desc)], Tail(b, desc), Tail(a, desc));
  }

  lemma EncodingIs(d: BitArray, desc: bool)
    requires d.lastBitsUsed < TWO64
    ensures EncodeBitArray(d, desc) == [Marker(desc)] + Tail(d, desc)
  {
  }

  /** One encoded word in front of anything: how the scanners see it. */
  lemma WordInFront(w: uint64, desc: bool, tail: bytes)
    ensures var b := EncodeWord(w, desc) + tail;
            && b != [] && b[0] != Terminator(desc)
            && GetVarintLen(b) == Success(|EncodeWord(w, desc)|)
            && b[|EncodeWord(w, desc)|..] == tail
            && DecodeWord(b, desc) == Ok(tail, w)
  {
    UvarintLength(w, tail);
    WordTag(w, desc);
    if desc { UvarintDescendingRoundTrip(w, tail); } else { UvarintAscendingRoundTrip(w, tail); }
    hide EncodeUvarintAscending, EncodeUvarintDescending, GetVarintLen, DecodeUvarintAscending, DecodeUvarintDescending;
  }

  lemma WordsStep(w: uint64, tail: bytes, n: nat, desc: bool, count: nat, size: nat, rest: bytes, ws: seq<word>)
    requires WordsLen(tail, Terminator(desc)) == Success((count, size)) && DecodeWords(tail, n, desc) == Ok(rest, ws)
    ensures var b := EncodeWord(w, desc) + tail;
            && WordsLen(b, Terminator(desc)) == Success((count + 1, size + |EncodeWord(w, desc)|))
            && DecodeWords(b, n + 1, desc) == Ok(rest, [w as word] + ws)
  {
    hide EncodeWord, DecodeWord, GetVarintLen;
    WordInFront(w, desc, tail);
  }

  lemma NoWords(rest: bytes, desc: bool)
    requires rest != [] && rest[0] == Terminator(desc)
    ensures WordsLen(rest, Terminator(desc)) == Success((0, 0)) && DecodeWords(rest, 0, desc) == Ok(rest, [])
  {
  }

  lemma {:induction false} WordsRoundTrip(ws: seq<word>, desc: bool, rest: bytes)
    requires rest != [] && rest[0] == Terminator(desc)
    ensures WordsLen(EncodeWords(ws, desc) + rest, Terminator(desc)) == Success((|ws|, |EncodeWords(ws, desc)|))
    ensures DecodeWords(EncodeWords(ws, desc) + rest, |ws|, desc) == Ok(rest, ws)
  {
    hide EncodeWord, DecodeWords, WordsLen;
    if ws == [] {
      assert EncodeWords(ws, desc) + rest == rest;
      NoWords(rest, desc);
    } else {
      var w: uint64 := ws[0] as int;
      var tail := EncodeWords(ws[1..], desc) + rest;
      WordsRoundTrip(ws[1..], desc, rest);
      WordsStep(w, tail, |ws| - 1, desc, |ws| - 1, |EncodeWords(ws[1..], desc)|, rest, ws[1..]);
      assert EncodeWords(ws, desc) + rest == EncodeWord(w, desc) + tail;
      assert [ws[0]] + ws[1..] == ws;
    }
  }

  /** The encoding as its readers cut it: marker, words, terminator, last bits, rest. */
  lemma Shape(d: BitArray, desc: bool, rest: bytes)
    requires d.lastBitsUsed < TWO64
    ensures var b := EncodeBitArray(d, desc) + rest;
            var n := |EncodeWords(d.words, desc)|;
            && b != [] && b[0] == Marker(desc)
            && b[1..] == EncodeWords(d.words, desc) + ([Terminator(desc)] + (EncodeWord(d.lastBitsUsed, desc) + rest))
            && n + 2 < |b| && b[n + 2..] == EncodeWord(d.lastBitsUsed, desc) + rest
            && |EncodeBitArray(d, desc)| == n + 2 + |EncodeWord(d.lastBitsUsed, desc)|
  {
    WordTag(d.lastBitsUsed, desc);
    hide EncodeWord, EncodeWords;
    Cuts(Marker(desc), EncodeWords(d.words, desc), Terminator(desc), EncodeWord(d.lastBitsUsed, desc), rest);
  }

  lemma Cuts(m: byte, w: bytes, t: byte, l: bytes, rest: bytes)
    ensures var b := [m] + (w + ([t] + l)) + rest;
            b[1..] == w + ([t] + (l + rest)) && b[|w| + 2..] == l + rest
  {
  }

  lemma BitArrayRoundTrip(d: BitArray, desc: bool, rest: bytes)
    requires d.lastBitsUsed <= BITS_PER_WORD
    ensures DecodeBitArray(EncodeBitArray(d, desc) + rest, desc) == Ok(rest, d)
  {
    hide EncodeWord, EncodeWords, EncodeBitArray, DecodeWord, DecodeWords, WordsLen;
    var last := EncodeWord(d.lastBitsUsed, desc) + rest;
    Shape(d, desc, rest);
    WordsRoundTrip(d.words, desc, [Terminator(desc)] + last);
    assert ([Terminator(desc)] + last)[1..] == last;
    WordInFront(d.lastBitsUsed, desc, rest);
  }

  lemma BitArrayLength(d: BitArray, desc: bool, rest: bytes)
    requires d.lastBitsUsed < TWO64
    ensures GetBitArrayLen(EncodeBitArray(d, desc) + rest, desc) == Success(|EncodeBitArray(d, desc)|)
  {
    hide EncodeWord, EncodeWords, EncodeBitArray, WordsLen, GetVarintLen, DecodeWord, DecodeWords;
    var last := EncodeWord(d.lastBitsUsed, desc) + rest;
    Shape(d, desc, rest);
    WordsRoundTrip(d.words, desc, [Terminator(desc)] + last);
    WordInFront(d.lastBitsUsed, desc, rest);
  }
}
