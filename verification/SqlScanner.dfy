/** The scanner as it runs (pkg/sql/parser/scan.go): a position moving over the input. */
module SqlScanner {
  import opened ByteStrings
  import opened Wrappers
  import opened Utf8
  import opened SqlEscapes
  import opened SqlLiterals

  const DOLLAR: byte := 36

  /** Byte-wise naive search: where pattern first occurs in text. */
  function Find(text: bytes, pattern: bytes): (r: Option<nat>)
    ensures r.Some? ==> r.value + |pattern| <= |text|
  {
    if |text| < |pattern| then None
    else if text[..|pattern|] == pattern then Some(0)
    else if text == [] then None
    else
      var r := Find(text[1..], pattern);
      if r.None? then None else Some(r.value + 1)
  }

  predicate OccursAt(text: bytes, pattern: bytes, k: nat) {
    k + |pattern| <= |text| && text[k..k + |pattern|] == pattern
  }

  lemma SliceShift(text: bytes, a: nat, b: nat)
    requires 1 <= a <= b <= |text|
    ensures text[1..][a - 1..b - 1] == text[a..b]
  {
  }

  lemma {:induction false} FindIs(text: bytes, pattern: bytes)
    ensures var r := Find(text, pattern);
            if r.Some? then OccursAt(text, pattern, r.value) && forall k: nat :: k < r.value ==> !OccursAt(text, pattern, k)
            else forall k: nat :: !OccursAt(text, pattern, k)
  {
    if |text| >= |pattern| && text[..|pattern|] != pattern && text != [] {
      FindIs(text[1..], pattern);
      forall k: nat | k > 0 ensures OccursAt(text, pattern, k) <==> OccursAt(text[1..], pattern, k - 1) {
        if k + |pattern| <= |text| { SliceShift(text, k, k + |pattern|); }
      }
      assert !OccursAt(text, pattern, 0);
    } else if |text| >= |pattern| && text[..|pattern|] == pattern {
      assert text[0..0 + |pattern|] == text[..|pattern|];
    }
  }

  predicate IdentStart(ch: byte) {
    65 <= ch <= 90 || 97 <= ch <= 122 || ch >= 128 || ch == 95
  }

  /** The tag between the first two dollars, if only tag characters come before the second. */
  function Tag(s: bytes): Option<bytes> {
    if s == [] then None
    else if s[0] == DOLLAR then Some([])
    else if !IdentStart(s[0]) then None
    else
      var r := Tag(s[1..]);
      if r.None? then None else Some([s[0]] + r.value)
  }

  datatype Dollar = NoTag | Text(value: bytes, rest: bytes) | NoEnd | NotUtf8

  /** Dollar quoting by naive search, from just behind the first dollar. */
  function DollarQuoted(s: bytes): Dollar {
    var tag := Tag(s);
    if tag.None? then NoTag
    else
      TagIs(s);
      var body := s[|tag.value| + 1..];
      var pattern := [DOLLAR] + tag.value + [DOLLAR];
      var end := Find(body, pattern);
      if end.None? then NoEnd
      else if !Valid(body[..end.value]) then NotUtf8
      else Text(body[..end.value], body[end.value + |pattern|..])
  }

  lemma {:induction false} TagIs(s: bytes)
    ensures var t := Tag(s); t.Some? ==> |t.value| < |s| && s[..|t.value|] == t.value && s[|t.value|] == DOLLAR && DOLLAR !in t.value
  {
    if s != [] && s[0] != DOLLAR && IdentStart(s[0]) { TagIs(s[1..]); }
  }

  /** Letters, the underscore and every byte above ASCII. */
  predicate TagChar(b: byte) {
    b >= 128 || var c := b as int as char; 'a' <= c <= 'z' || 'A' <= c <= 'Z' || c == '_'
  }

  ghost predicate Opens(s: bytes, tag: bytes) {
    (forall i :: 0 <= i < |tag| ==> TagChar(tag[i])) && tag + [DOLLAR] <= s
  }

  lemma {:induction false} TagMeans(s: bytes, tag: bytes)
    ensures Tag(s) == Some(tag) <==> Opens(s, tag)
    decreases |s|
  {
    if s == [] {
      assert !(tag + [DOLLAR] <= s);
    } else if tag == [] {
      assert tag + [DOLLAR] == [DOLLAR];
    } else {
      TagMeans(s[1..], tag[1..]);
      assert tag == [tag[0]] + tag[1..];
      assert tag + [DOLLAR] <= s <==> tag[0] == s[0] && tag[1..] + [DOLLAR] <= s[1..] by {
        assert tag + [DOLLAR] == [tag[0]] + (tag[1..] + [DOLLAR]);
        assert s == [s[0]] + s[1..];
      }
      assert forall i :: 1 <= i < |tag| ==> tag[i] == tag[1..][i - 1];
      assert forall i :: 0 <= i < |tag| - 1 ==> tag[1..][i] == tag[i + 1];
    }
  }

  /** A dollar quote is its tag, the text up to the first repetition of the tag between dollars, and
      that repetition. There is no end exactly if the tag is never repeated. */
  lemma DollarMeans(s: bytes, tag: bytes)
    requires Opens(s, tag)
    ensures var close := [DOLLAR] + tag + [DOLLAR]; var body := s[|tag| + 1..];
      match DollarQuoted(s)
      case NoTag => false
      case Text(value, rest) => body == value + close + rest && Utf8.Valid(value) && forall k: nat :: k < |value| ==> !OccursAt(body, close, k)
      case NoEnd => forall k: nat :: !OccursAt(body, close, k)
      case NotUtf8 => exists k: nat :: OccursAt(body, close, k) && !Utf8.Valid(body[..k]) && forall m: nat :: m < k ==> !OccursAt(body, close, m)
  {
    hide Tag, Find;
    TagMeans(s, tag);
    var close, body := [DOLLAR] + tag + [DOLLAR], s[|tag| + 1..];
    FindIs(body, close);
    var end := Find(body, close);
    if end.Some? {
      assert body == body[..end.value] + body[end.value..end.value + |close|] + body[end.value + |close|..];
    }
  }

  /** Without a tag there is no dollar quote. */
  lemma NoDollar(s: bytes)
    ensures DollarQuoted(s) == NoTag <==> forall tag :: !Opens(s, tag)
  {
    if Tag(s).Some? { TagMeans(s, Tag(s).value); }
    forall tag | Opens(s, tag) ensures DollarQuoted(s) != NoTag { TagMeans(s, tag); }
  }

  lemma Drops(s: bytes, i: nat, j: nat)
    requires i + j <= |s|
    ensures s[i..][j..] == s[i + j..]
  {
  }

  datatype Escape = Pending | Piece(value: bytes) | Dropped | Invalid

  function EscapeAt(s: bytes, ch: byte): Escape {
    if s == [] then Dropped
    else if s[0] == ch then Pending
    else if !IsEscape(s[0]) then Dropped
    else if UnquoteAt(s, ch).Bad? then Invalid
    else Piece(Appended(UnquoteAt(s, ch)))
  }

  class Scanner {
    const input: bytes
    var pos: nat

    predicate Valid()
      reads this
    {
      pos <= |input|
    }

    function Rest(): bytes
      reads this
      requires Valid()
    {
      input[pos..]
    }

    constructor (input: bytes)
      ensures Valid() && Rest() == input && this.input == input
    {
      this.input := input;
      pos := 0;
    }

    /** peek; None is eof. */
    function Peek(): (r: Option<byte>)
      requires Valid()
      reads this
      ensures r == if Rest() == [] then None else Some(Rest()[0])
    {
      if pos == |input| then None else Some(input[pos])
    }

    method Next() returns (ch: Option<byte>)
      requires Valid()
      modifies this`pos
      ensures Valid() && ch == old(Peek()) && pos == old(pos) + if ch.Some? then 1 else 0
    {
      ch := Peek();
      if ch.Some? {
        pos := pos + 1;
      }
    }

    /** skipWhitespace without comments. */
    method SkipWhitespace() returns (newline: bool)
      requires Valid()
      modifies this`pos
      ensures Valid() && pos >= old(pos) && Space(newline, Rest()) == SkipSpace(old(Rest()))
    {
      newline := false;
      ghost var start := Rest();
      while pos < |input| && Blank(input[pos])
        invariant old(pos) <= pos <= |input|
        invariant SkipSpace(start) == Space(newline || SkipSpace(Rest()).newline, SkipSpace(Rest()).rest)
        decreases |input| - pos
      {
        assert Rest()[0] == input[pos] && Rest()[1..] == input[pos + 1..];
        if input[pos] == 10 {
          newline := true;
        }
        pos := pos + 1;
      }
    }

    /** What scanString does behind a backslash: a quote is left pending, an escape gives bytes,
        and before anything else the backslash is dropped. */
    method ScanEscape(ch: byte) returns (e: Escape)
      requires Valid()
      modifies this`pos
      ensures Valid() && e == EscapeAt(old(Rest()), ch)
      ensures pos == old(pos) + (if e.Pending? then 1 else if e.Piece? then UnquoteAt(old(Rest()), ch).used else 0)
    {
      hide UnquoteAt, Appended;
      var t := Peek();
      if t == Some(ch) {
        pos := pos + 1;
        return Pending;
      }
      if t.Some? && IsEscape(t.value) {
        var u := UnquoteAt(input[pos..], ch);
        if u == Bad {
          return Invalid;
        }
        pos := pos + u.used;
        return Piece(Appended(u));
      }
      return Dropped;
    }

    /** scanString, from just behind the opening quote. */
    method ScanString(ch: byte, allowEscapes: bool, requireUtf8: bool) returns (r: Scan)
      requires Valid() && ch != BACKSLASH
      modifies this`pos
      ensures Valid() && r == SqlLiterals.ScanString(old(Rest()), ch, allowEscapes, requireUtf8)
      ensures r.Done? ==> Rest() == r.rest
    {
      hide Body, UnquoteChar, Appended, SkipSpace, IsEscape, Utf8.Valid, Prepend, UnquoteAt, Joins;
      var buf: bytes := [];
      var start: nat := pos;
      ghost var all := Body(Rest(), ch, allowEscapes);
      assert buf + input[start..pos] == [];
      PrependNothing(all);
      while true
        invariant start <= pos <= |input|
        invariant all == Prepend(buf + input[start..pos], Body(input[pos..], ch, allowEscapes))
        decreases |input| - pos
      {
        ghost var here := input[pos..];
        ghost var was := buf + input[start..pos];
        if pos < |input| { assert here[0] == input[pos] && here[1..] == input[pos + 1..]; }
        if pos + 1 < |input| { assert here[1] == input[pos + 1] && here[2..] == input[pos + 2..]; }
        var c := Next();
        if c == None {
          Unfinished(all, was, ch, allowEscapes);
          return Unterminated;
        } else if c == Some(ch) {
          buf := buf + input[start..pos - 1];
          assert buf == was;
          if Peek() == Some(ch) {
            start := pos;
            pos := pos + 1;
            Reopened(all, was, here, ch, allowEscapes, input[start..pos], input[pos..]);
            continue;
          }
          var newline := SkipWhitespace();
          JoinsIs(here[1..], ch);
          if newline && Peek() == Some(ch) {
            pos := pos + 1;
            start := pos;
            Rejoined(all, was, here, ch, allowEscapes, input[start..pos], input[pos..]);
            continue;
          }
          Closed(all, was, here, ch, allowEscapes);
          break;
        } else if c == Some(BACKSLASH) && allowEscapes {
          buf := buf + input[start..pos - 1];
          assert buf == was;
          start := pos;
          var e := ScanEscape(ch);
          if e.Invalid? {
            Rejected(all, was, here, ch);
            return BadEscape;
          }
          if e.Piece? {
            buf := buf + e.value;
            start := pos;
          }
          Resumed(all, was, e, here, ch, input, start, pos);
        } else {
          CopiedOne(all, was, here, ch, allowEscapes);
          assert buf + input[start..pos] == was + [c.value] by {
            assert input[start..pos] == input[start..pos - 1] + [c.value];
          }
        }
      }
      if requireUtf8 && !Utf8.Valid(buf) {
        return InvalidUtf8;
      }
      return Done(buf, Rest());
    }

    /** scan, at a quoted literal. */
    method ScanQuoted() returns (t: Token)
      requires Valid()
      modifies this`pos
      ensures Valid() && t == ScanLiteral(old(Rest()))
      ensures t.Literal? ==> Rest() == t.rest
    {
      hide Body, SqlLiterals.ScanString;
      ghost var all := Rest();
      var ch := Next();
      if ch.None? {
        return NotALiteral;
      }
      assert all[1..] == Rest();
      if ch == Some(IDENT_QUOTE) {
        var r := ScanString(IDENT_QUOTE, false, true);
        return ToToken(Ident, r);
      }
      if ch == Some(QUOTE) {
        var r := ScanString(QUOTE, false, true);
        return ToToken(StringConst, r);
      }
      if Peek() != Some(QUOTE) {
        return NotALiteral;
      }
      assert all[2..] == input[pos + 1..];
      if ch == Some(LITERAL_B) {
        pos := pos + 1;
        var r := ScanString(QUOTE, true, false);
        return ToToken(BytesConst, r);
      }
      if ch == Some(LITERAL_E) || ch == Some(LITERAL_UPPER_E) {
        pos := pos + 1;
        var r := ScanString(QUOTE, true, true);
        return ToToken(StringConst, r);
      }
      return NotALiteral;
    }

    /** scanDollarQuotedString, from just behind the first dollar: one pass, no going back. */
    method ScanDollarQuotedString() returns (r: Dollar)
      requires Valid()
      modifies this`pos
      ensures Valid() && r == DollarQuoted(old(Rest()))
      ensures r.Text? ==> Rest() == r.rest
      ensures r.NoTag? && Rest() != [] ==> pos == old(pos) || !IdentStart(Rest()[0])
    {
      hide Find, Tag, TagAfter, Utf8.Valid, IdentStart, Matching, DollarQuoted;
      var start: nat := pos;
      ghost var all := Rest();
      TagIs(all);
      NothingSeen(all);
      assert input[start..pos] == [];
      var foundStartTag, possibleEndTag := false, false;
      var startTagIndex := -1;
      var startTag: bytes := [];
      while true
        invariant start <= pos <= |input|
        invariant !foundStartTag ==> !possibleEndTag && Tag(all) == TagAfter(input[start..pos], input[pos..])
        invariant foundStartTag ==> Tag(all) == Some(startTag) && start + |startTag| < pos
        invariant foundStartTag ==> Matching(input, start + |startTag| + 1, pos, startTag, possibleEndTag, startTagIndex)
        invariant possibleEndTag ==> 0 <= startTagIndex <= |startTag| && start + |startTag| + 1 <= pos - startTagIndex - 1
        invariant !possibleEndTag ==> startTagIndex == -1
        decreases |input| - pos
      {
        var ch := Peek();
        if ch == Some(DOLLAR) {
          pos := pos + 1;
          if foundStartTag {
            if possibleEndTag {
              if |startTag| == startTagIndex {
                break;
              }
              DollarRestarts(input, start + |startTag| + 1, pos - 1, startTag, true, startTagIndex);
              startTagIndex := 0;
            } else {
              DollarRestarts(input, start + |startTag| + 1, pos - 1, startTag, false, startTagIndex);
              possibleEndTag := true;
              startTagIndex := 0;
            }
          } else {
            TagEnds(input[start..pos - 1], input[pos - 1..]);
            startTag := input[start..pos - 1];
            foundStartTag := true;
            MatchingStarts(input, pos, startTag);
          }
        } else if ch.None? {
          if foundStartTag {
            NoMatch(input, start, startTag, possibleEndTag, startTagIndex);
            assert all == input[start..];
            return NoEnd;
          }
          TagStops(input[start..pos], input[pos..]);
          NotTagged(all);
          pos := start;
          return NoTag;
        } else {
          if !foundStartTag && !IdentStart(ch.value) {
            TagStops(input[start..pos], input[pos..]);
            NotTagged(all);
            return NoTag;
          }
          pos := pos + 1;
          if foundStartTag {
            OtherAdvances(input, start + |startTag| + 1, pos - 1, startTag, possibleEndTag, startTagIndex);
          } else {
            TagGrows(input, start, pos - 1);
          }
          if possibleEndTag {
            if startTagIndex >= |startTag| || ch.value != startTag[startTagIndex] {
              possibleEndTag := false;
              startTagIndex := -1;
            } else {
              startTagIndex := startTagIndex + 1;
            }
          }
        }
      }
      var buf := input[start + |startTag| + 1..pos - |startTag| - 2];
      Matched(input, start, pos - 1, startTag);
      assert all == input[start..];
      if !Utf8.Valid(buf) {
        return NotUtf8;
      }
      return Text(buf, Rest());
    }
  }

  /** Tag, having passed the tag characters `seen`. */
  function TagAfter(seen: bytes, s: bytes): Option<bytes> {
    var r := Tag(s);
    if r.None? then None else Some(seen + r.value)
  }

  lemma NothingSeen(s: bytes)
    ensures TagAfter([], s) == Tag(s)
  {
    var r := Tag(s);
    if r.Some? { assert [] + r.value == r.value; }
  }

  lemma NotTagged(s: bytes)
    requires Tag(s) == None
    ensures DollarQuoted(s) == NoTag
  {
  }

  lemma TagStops(seen: bytes, s: bytes)
    requires s == [] || (s[0] != DOLLAR && !IdentStart(s[0]))
    ensures TagAfter(seen, s) == None
  {
  }

  lemma TagEnds(seen: bytes, s: bytes)
    requires s != [] && s[0] == DOLLAR
    ensures TagAfter(seen, s) == Some(seen)
  {
    assert seen + [] == seen;
  }

  lemma TagGrows(input: bytes, start: nat, pos: nat)
    requires start <= pos < |input| && input[pos] != DOLLAR && IdentStart(input[pos])
    ensures TagAfter(input[start..pos], input[pos..]) == TagAfter(input[start..pos + 1], input[pos + 1..])
  {
    assert input[pos..][1..] == input[pos + 1..];
    assert input[start..pos + 1] == input[start..pos] + [input[pos]];
    var r := Tag(input[pos + 1..]);
    if r.Some? { assert input[start..pos] + ([input[pos]] + r.value) == input[start..pos + 1] + r.value; }
  }

  /** A dollar at k starts an end tag that the text up to pos agrees with. */
  predicate Candidate(input: bytes, k: nat, pos: nat, tag: bytes)
    requires k < pos <= |input|
  {
    input[k] == DOLLAR && input[k + 1..pos] <= tag
  }

  /** An end tag lies between k and pos. */
  predicate EndTag(input: bytes, k: nat, pos: nat, tag: bytes)
    requires pos <= |input|
  {
    k + |tag| + 2 <= pos && input[k..k + |tag| + 2] == [DOLLAR] + tag + [DOLLAR]
  }

  /** No end tag has been passed, and the last `index` characters are the only ones that may
      belong to one. */
  ghost predicate Matching(input: bytes, from: nat, pos: nat, tag: bytes, possible: bool, index: int) {
    && from <= pos <= |input| && DOLLAR !in tag
    && (possible ==> 0 <= index <= |tag| && from <= pos - index - 1 && Candidate(input, pos - index - 1, pos, tag))
    && (forall k: nat :: from <= k < pos && !(possible && k == pos - index - 1) ==> !Candidate(input, k, pos, tag))
    && forall k: nat :: from <= k ==> !EndTag(input, k, pos, tag)
  }

  lemma MatchingStarts(input: bytes, pos: nat, tag: bytes)
    requires pos <= |input| && DOLLAR !in tag
    ensures Matching(input, pos, pos, tag, false, -1)
  {
  }

  /** A complete end tag was a candidate with all of the tag behind it. */
  lemma EndTagWas(input: bytes, from: nat, k: nat, pos: nat, tag: bytes)
    requires from <= k && pos < |input| && EndTag(input, k, pos + 1, tag) && k + |tag| + 2 == pos + 1
    ensures k < pos && Candidate(input, k, pos, tag) && input[pos] == DOLLAR
  {
    var e, t := [DOLLAR] + tag + [DOLLAR], input[k..k + |tag| + 2];
    assert t == e;
    assert t[0] == input[k] && e[0] == DOLLAR;
    assert t[|tag| + 1] == input[pos] && e[|tag| + 1] == DOLLAR;
    assert t[1..|tag| + 1] == input[k + 1..pos] && e[1..|tag| + 1] == tag;
  }

  /** No end tag ends at pos unless a candidate has all of the tag behind it. */
  lemma NoEndTag(input: bytes, from: nat, k: nat, pos: nat, tag: bytes)
    requires from <= k && pos < |input| && !EndTag(input, k, pos, tag)
    requires k < pos && Candidate(input, k, pos, tag) && pos - k - 1 == |tag| ==> input[pos] != DOLLAR
    ensures !EndTag(input, k, pos + 1, tag)
  {
    if EndTag(input, k, pos + 1, tag) && k + |tag| + 2 == pos + 1 { EndTagWas(input, from, k, pos, tag); }
  }

  lemma CandidateAtDollar(input: bytes, k: nat, pos: nat, tag: bytes)
    requires k < pos < |input| && input[pos] == DOLLAR && DOLLAR !in tag
    ensures !Candidate(input, k, pos + 1, tag)
  {
    assert input[k + 1..pos + 1][pos - k - 1] == input[pos];
  }

  lemma CandidateAtOther(input: bytes, k: nat, pos: nat, tag: bytes)
    requires k < pos < |input|
    ensures Candidate(input, k, pos + 1, tag) <==> Candidate(input, k, pos, tag) && pos - k - 1 < |tag| && tag[pos - k - 1] == input[pos]
  {
    var seen := input[k + 1..pos];
    assert input[k + 1..pos + 1] == seen + [input[pos]];
    if seen <= tag && |seen| < |tag| && tag[|seen|] == input[pos] {
      assert tag[..|seen| + 1] == seen + [input[pos]];
    }
    if seen + [input[pos]] <= tag {
      assert tag[..|seen|] == seen && tag[|seen|] == input[pos];
    }
  }

  lemma DollarRestarts(input: bytes, from: nat, pos: nat, tag: bytes, possible: bool, index: int)
    requires pos < |input| && input[pos] == DOLLAR && Matching(input, from, pos, tag, possible, index)
    requires possible ==> index != |tag|
    ensures Matching(input, from, pos + 1, tag, true, 0)
  {
    hide Candidate, EndTag;
    var next := pos + 1;
    forall k: nat | from <= k < pos ensures !Candidate(input, k, next, tag) { CandidateAtDollar(input, k, pos, tag); }
    forall k: nat | from <= k ensures !EndTag(input, k, next, tag) { NoEndTag(input, from, k, pos, tag); }
    FreshCandidate(input, pos, tag);
  }

  lemma FreshCandidate(input: bytes, pos: nat, tag: bytes)
    requires pos < |input|
    ensures Candidate(input, pos, pos + 1, tag) <==> input[pos] == DOLLAR
  {
    assert input[pos + 1..pos + 1] == [] && [] <= tag;
  }

  lemma OtherAdvances(input: bytes, from: nat, pos: nat, tag: bytes, possible: bool, index: int)
    requires pos < |input| && input[pos] != DOLLAR && Matching(input, from, pos, tag, possible, index)
    ensures if possible && index < |tag| && input[pos] == tag[index] then Matching(input, from, pos + 1, tag, true, index + 1)
            else Matching(input, from, pos + 1, tag, false, -1)
  {
    hide Candidate, EndTag;
    var next := pos + 1;
    forall k: nat | from <= k < pos
      ensures Candidate(input, k, next, tag) <==> Candidate(input, k, pos, tag) && pos - k - 1 < |tag| && tag[pos - k - 1] == input[pos]
    {
      CandidateAtOther(input, k, pos, tag);
    }
    forall k: nat | from <= k ensures !EndTag(input, k, next, tag) { NoEndTag(input, from, k, pos, tag); }
    FreshCandidate(input, pos, tag);
  }

  lemma FindFirst(text: bytes, pattern: bytes, k: nat)
    requires OccursAt(text, pattern, k) && forall m: nat :: m < k ==> !OccursAt(text, pattern, m)
    ensures Find(text, pattern) == Some(k)
  {
    FindIs(text, pattern);
  }

  lemma OccursIsEnd(input: bytes, from: nat, tag: bytes, k: nat)
    requires from <= |input|
    ensures OccursAt(input[from..], [DOLLAR] + tag + [DOLLAR], k) <==> EndTag(input, from + k, |input|, tag)
  {
    if from + k + |tag| + 2 <= |input| {
      assert input[from..][k..k + |tag| + 2] == input[from + k..from + k + |tag| + 2];
    }
  }

  /** At the end of input without an end tag, naive search finds none either. */
  lemma NoMatch(input: bytes, start: nat, tag: bytes, possible: bool, index: int)
    requires start + |tag| + 1 <= |input| && Matching(input, start + |tag| + 1, |input|, tag, possible, index)
    requires Tag(input[start..]) == Some(tag)
    ensures DollarQuoted(input[start..]) == NoEnd
  {
    var from := start + |tag| + 1;
    var body := input[from..];
    var pattern := [DOLLAR] + tag + [DOLLAR];
    assert input[start..][|tag| + 1..] == body;
    FindIs(body, pattern);
    forall k: nat ensures !OccursAt(body, pattern, k) { OccursIsEnd(input, from, tag, k); }
  }

  /** At the dollar behind a fully matched tag, the first end tag has been found. */
  lemma Matched(input: bytes, start: nat, pos: nat, tag: bytes)
    requires start + |tag| + 1 <= pos < |input| && input[pos] == DOLLAR
    requires Matching(input, start + |tag| + 1, pos, tag, true, |tag|) && Tag(input[start..]) == Some(tag)
    ensures var value := input[start + |tag| + 1..pos - |tag| - 1];
            DollarQuoted(input[start..]) == if Utf8.Valid(value) then Text(value, input[pos + 1..]) else NotUtf8
  {
    hide Utf8.Valid, Tag, Find, DollarQuoted, Matching, OccursAt;
    var from := start + |tag| + 1;
    var body := input[from..];
    var k := pos - |tag| - 1;
    Drops(input, start, |tag| + 1);
    FirstEndTag(input, from, pos, tag);
    FindFirst(body, [DOLLAR] + tag + [DOLLAR], k - from);
    DollarFound(input[start..], tag, k - from);
    Drops(input, from, k - from + |tag| + 2);
    assert body[..k - from] == input[from..k];
  }

  lemma DollarFound(s: bytes, tag: bytes, k: nat)
    requires Tag(s) == Some(tag) && |tag| < |s| && Find(s[|tag| + 1..], [DOLLAR] + tag + [DOLLAR]) == Some(k)
    ensures k + |tag| + 2 <= |s| - |tag| - 1
    ensures var body := s[|tag| + 1..];
            DollarQuoted(s) == if Utf8.Valid(body[..k]) then Text(body[..k], body[k + |tag| + 2..]) else NotUtf8
  {
    hide Utf8.Valid, Tag, Find;
  }

  lemma FirstEndTag(input: bytes, from: nat, pos: nat, tag: bytes)
    requires pos < |input| && input[pos] == DOLLAR && Matching(input, from, pos, tag, true, |tag|)
    ensures var first := pos - |tag| - 1 - from; var pattern := [DOLLAR] + tag + [DOLLAR];
            first >= 0 && OccursAt(input[from..], pattern, first) && forall m: nat :: m < first ==> !OccursAt(input[from..], pattern, m)
  {
    var k := pos - |tag| - 1;
    EndTagNow(input, k, pos, tag);
    OccursIsEnd(input, from, tag, k - from);
    forall m: nat | m < k - from ensures !OccursAt(input[from..], [DOLLAR] + tag + [DOLLAR], m) {
      OccursIsEnd(input, from, tag, m);
      EndTagStays(input, from + m, pos, tag);
    }
  }

  lemma EndTagNow(input: bytes, k: nat, pos: nat, tag: bytes)
    requires k < pos < |input| && k == pos - |tag| - 1 && Candidate(input, k, pos, tag) && input[pos] == DOLLAR
    ensures EndTag(input, k, |input|, tag)
  {
    assert input[k + 1..pos] == tag;
    assert input[k..k + |tag| + 2] == [input[k]] + input[k + 1..pos] + [input[pos]];
  }

  lemma EndTagStays(input: bytes, k: nat, pos: nat, tag: bytes)
    requires pos <= |input| && k + |tag| + 2 <= pos
    ensures EndTag(input, k, |input|, tag) <==> EndTag(input, k, pos, tag)
  {
  }

  lemma PrependEnds(v: bytes, rest: bytes)
    ensures Prepend(v, Unterminated) == Unterminated && Prepend(v, BadEscape) == BadEscape
    ensures Prepend(v, Done([], rest)) == Done(v, rest)
  {
    assert v + [] == v;
  }

  /** One turn of scanString's loop, by the character read: nothing, a bad escape, an ordinary one. */
  lemma Unfinished(all: Scan, was: bytes, ch: byte, allowEscapes: bool)
    requires all == Prepend(was, Body([], ch, allowEscapes)) && ch != BACKSLASH
    ensures all == Unterminated
  {
    BodyIs([], ch, allowEscapes);
  }

  lemma Rejected(all: Scan, was: bytes, here: bytes, ch: byte)
    requires all == Prepend(was, Body(here, ch, true)) && ch != BACKSLASH
    requires here != [] && here[0] == BACKSLASH && EscapeAt(here[1..], ch).Invalid?
    ensures all == BadEscape
  {
    BodyIs(here, ch, true);
    hide UnquoteAt;
  }

  lemma CopiedOne(all: Scan, was: bytes, here: bytes, ch: byte, allowEscapes: bool)
    requires all == Prepend(was, Body(here, ch, allowEscapes)) && ch != BACKSLASH
    requires here != [] && here[0] != ch && (here[0] != BACKSLASH || !allowEscapes)
    ensures all == Prepend(was + [here[0]], Body(here[1..], ch, allowEscapes))
  {
    BodyIs(here, ch, allowEscapes);
    hide Body, Prepend;
    Prepends(was, [here[0]], Body(here[1..], ch, allowEscapes));
  }

  /** After a doubled quote, behind a joining piece, and at the end. */
  lemma Reopened(all: Scan, was: bytes, here: bytes, ch: byte, allowEscapes: bool, pending: bytes, after: bytes)
    requires all == Prepend(was, Body(here, ch, allowEscapes)) && ch != BACKSLASH
    requires |here| > 1 && here[0] == ch && here[1] == ch && pending == [ch] && after == here[2..]
    ensures all == Prepend(was + pending, Body(after, ch, allowEscapes))
  {
    BodyIs(here, ch, allowEscapes);
    hide Body, Prepend;
    Prepends(was, [ch], Body(after, ch, allowEscapes));
  }

  lemma Rejoined(all: Scan, was: bytes, here: bytes, ch: byte, allowEscapes: bool, pending: bytes, after: bytes)
    requires all == Prepend(was, Body(here, ch, allowEscapes)) && ch != BACKSLASH
    requires here != [] && here[0] == ch && (|here| > 1 ==> here[1] != ch) && Joins(here[1..], ch)
    requires pending == [] && after == SkipSpace(here[1..]).rest[1..]
    ensures all == Prepend(was + pending, Body(after, ch, allowEscapes))
  {
    BodyIs(here, ch, allowEscapes);
    hide Body, Prepend;
    assert was + pending == was;
  }

  lemma Closed(all: Scan, was: bytes, here: bytes, ch: byte, allowEscapes: bool)
    requires all == Prepend(was, Body(here, ch, allowEscapes)) && ch != BACKSLASH
    requires here != [] && here[0] == ch && (|here| > 1 ==> here[1] != ch) && !Joins(here[1..], ch)
    ensures all == Done(was, SkipSpace(here[1..]).rest)
  {
    BodyIs(here, ch, allowEscapes);
    hide Body, Prepend;
    PrependEnds(was, SkipSpace(here[1..]).rest);
  }

  /** After an escape the loop's account of what was read still holds. */
  lemma Resumed(all: Scan, was: bytes, e: Escape, here: bytes, ch: byte, input: bytes, start: nat, pos: nat)
    requires here != [] && here[0] == BACKSLASH && ch != BACKSLASH && e == EscapeAt(here[1..], ch) && !e.Invalid?
    requires all == Prepend(was, Body(here, ch, true)) && |here| <= |input| && start <= pos <= |input|
    requires var used := if e.Pending? then 1 else if e.Piece? then UnquoteAt(here[1..], ch).used else 0;
             1 + used <= |here| && here == input[|input| - |here|..] && pos == |input| - |here| + 1 + used
    requires start == if e.Piece? then pos else |input| - |here| + 1
    ensures all == Prepend((if e.Piece? then was + e.value else was) + input[start..pos], Body(input[pos..], ch, true))
  {
    hide Body, UnquoteAt, Appended, Prepend;
    BodyIs(here, ch, true);
    assert input[pos..] == here[|here| - (|input| - pos)..];
    match e
    case Pending =>
      assert input[start..pos] == [ch] by { assert input[start] == here[1]; }
      Prepends(was, [ch], Body(input[pos..], ch, true));
    case Piece(value) =>
      assert was + value + input[start..pos] == was + value;
      Prepends(was, value, Body(input[pos..], ch, true));
    case Dropped =>
      assert was + input[start..pos] == was;
      PrependEnds(was, []);
  }

  lemma JoinsIs(s: bytes, ch: byte)
    ensures Joins(s, ch) <==> SkipSpace(s).newline && SkipSpace(s).rest != [] && SkipSpace(s).rest[0] == ch
  {
  }

  /** One turn of scanString's loop. */
  lemma BodyIs(s: bytes, ch: byte, allowEscapes: bool)
    requires ch != BACKSLASH
    ensures Body(s, ch, allowEscapes) ==
      if s == [] then Unterminated
      else if s[0] == ch then
        if |s| > 1 && s[1] == ch then Prepend([ch], Body(s[2..], ch, allowEscapes))
        else if Joins(s[1..], ch) then Body(SkipSpace(s[1..]).rest[1..], ch, allowEscapes)
        else Done([], SkipSpace(s[1..]).rest)
      else if s[0] == BACKSLASH && allowEscapes && |s| > 1 then
        if s[1] == ch then Prepend([ch], Body(s[2..], ch, allowEscapes))
        else if IsEscape(s[1]) then
          var u := UnquoteAt(s[1..], ch);
          if u.Bad? then BadEscape else Prepend(Appended(u), Body(s[1 + u.used..], ch, allowEscapes))
        else Body(s[1..], ch, allowEscapes)
      else if s[0] == BACKSLASH && allowEscapes then Unterminated
      else Prepend([s[0]], Body(s[1..], ch, allowEscapes))
    ensures |s| == 1 && s[0] == BACKSLASH ==> Body(s[1..], ch, allowEscapes) == Unterminated
  {
    hide UnquoteAt, Appended, SkipSpace;
  }
}
