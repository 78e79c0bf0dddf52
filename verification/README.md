# Verified models of CockroachDB utility packages

This project models the self-contained algorithms below a SQL front end and proves what they
promise: the order-preserving key codec, binary JSON with lazy access, the pretty printer, packed
bit arrays, SQL literals and the scanner that reads them, the hybrid logical clock, interval
arithmetic and network addresses. `dafny verify dfyconfig.toml` checks everything.

How the modules fit together:

- **Keys.** `ByteStrings` defines `Before(a, b)`: two byte strings differ at some byte and `a` has
  the smaller one there. It is the one relation that is monotone and prefix-free at once, so it
  survives concatenation. `Varint`, `KeyBytes`, `KeyDecimal`, `KeyBitArray` and `KeyFloat` prove it of each
  codec in both directions, together with the round trip and the exact length; `KeyRows` lifts all
  of this to rows of columns and to `DecomposeKeyTokens` (`KeyTokens`). `DecimalValues` holds the
  arithmetic of digit strings, `DecimalLoops` the loops that work in buffers. `JsonInverted` are the
  keys of inverted indexes, and `KnownBytes` fixes the formats by the examples of the tests.
- **JSON.** `JsonEncoding` is the format as functions with its inverse, `JsonEncodeLoops` the
  encoder that appends to one buffer and patches reserved slots, `JsonLazy` the reader that answers
  from the bytes, `JsonReader` its classes (iterators, cache), `JsonSizes` what can be encoded. `JsonContains` is the `@>` test next to
  its naive definition, `JsonCompare` the order of documents, `JsonObjects` and `JsonStrip` are the
  operations on sorted key lists, `JsonPaths` says what these mean for the members of a document, and
  `ComparisonSorts` proves the fact about comparison sorts on which `unique` relies.
- **Pretty printer.** `PrettyDocs` (documents and constructors), `PrettyLayout` (choosing without
  memoisation, and the layouts a document denotes), `PrettyExec` (interned work lists, memo table,
  string builder), `PrettyProperties` (what every result satisfies), `PrettyForms` (the layouts of
  the compound constructors and of tables).
- **Bit arrays.** `BitWords` gives 64-bit operators bit by bit; `BitArrayOps`, `BitArrayForms`,
  `BitArrayInts` and `BitArrayOrder` relate the packed operations to sequences of booleans.
- **SQL literals.** `Utf8`, `SqlEscapes`, `SqlLiterals` (writer and reader as functions, round
  trips), `SqlGrammar` (the grammar of literals and that exactly it is read), `SqlScanner` (the scanner
  class).
- **Clock.** `Hlc` is one clock as a class, `HlcRuns` a state machine of many clocks whose
  goroutines read the physical clock, take the lock, exchange timestamps, persist bounds and halt.
- **Durations**, **IpAddrs**: int64 saturation and 128-bit arithmetic.

Where a claim one would expect is false of the code, the code is kept and the exact condition is
proved: decoding a decimal changes its value when the exponent leaves 32 bits
(`KeyDecimal.DecodedValue`), `getBytesLength` indexes out of range on a buffer cut behind an escape
byte (`KeyBytes.PanicsExactly`), a literal is read back only if the text behind does not continue
it (`SqlLiterals.BytesRoundTrip` and its siblings), the two sides of `AlignUnder` differ when the
head is `Nil` (`PrettyDocs.AlignUnderKeeps`), negative nesting makes tracked columns unreal
(`PrettyProperties.PrettyExact`), readings before 1970 defeat the offset check (`Hlc.TrustedMeans`),
a refreshed bound may overflow or be overtaken (`HlcRuns.RefreshCovers`, `HlcRuns.RunBounds`),
durations with mixed signs may compare wrongly (`Durations.NormalExact`, `Durations.CompareExact`),
and the least int64 adds nothing in `AddMicros` (`Durations.AddThenDiff`).

## Model

| member | source | states |
|---|---|---|
| Varint.VarintAscendingOrder | pkg/util/encoding/encoding.go:225-251 | smaller int64 values get byte strings that differ at a smaller byte, for all pairs |
| Varint.VarintDescendingOrder | pkg/util/encoding/encoding.go:255-257 | the descending form reverses the order of all int64 pairs |
| Varint.UvarintAscendingOrder | pkg/util/encoding/encoding.go:325-350 | the same for all uint64 pairs |
| Varint.UvarintDescendingOrder | pkg/util/encoding/encoding.go:354-387 | and reversed in the descending form |
| Varint.VarintAscendingRoundTrip | pkg/util/encoding/encoding.go:282-311 | decoding undoes encoding and leaves the following bytes untouched |
| Varint.VarintDescendingRoundTrip | pkg/util/encoding/encoding.go:315-318 | the same for the complemented form, including the least int64 |
| Varint.UvarintAscendingRoundTrip | pkg/util/encoding/encoding.go:427-449 | the unsigned form round-trips |
| Varint.UvarintDescendingRoundTrip | pkg/util/encoding/encoding.go:453-469 | the unsigned descending form round-trips |
| Varint.AccumulateUint64 | pkg/util/encoding/encoding.go:427-451 | the decoder's shifting loop computes the big-endian value of up to eight bytes |
| Varint.AccumulateInt64 | pkg/util/encoding/encoding.go:282-311 | the loop over complemented bytes computes the negative value with int64 wrap-around |
| Varint.EncLenIsLength | pkg/util/encoding/encoding.go:408-419 | the length functions agree with what the unsigned encoders write |
| Varint.VarintLength | pkg/util/encoding/encoding.go:261-279 | the tag byte alone gives the encoded length of every signed value, in both directions |
| Varint.UvarintLength | pkg/util/encoding/encoding.go:261-279 | the same for every unsigned value |
| KeyBytes.AppendEscaped | pkg/util/encoding/encoding.go:528-541 | the chunk-copying loop appends exactly the escaped form of the data |
| KeyBytes.EncodeBytesDescendingInPlace | pkg/util/encoding/encoding.go:547-553 | complementing the freshly written part in place leaves the prefix alone and gives the descending form |
| KeyBytes.DecodeBytesLoop | pkg/util/encoding/encoding.go:578-612 | the decoding loop agrees with the recursive definition on every buffer, errors included |
| KeyBytes.GetBytesLengthLoop | pkg/util/encoding/encoding.go:615-631 | the length loop agrees with the recursive definition on every buffer, errors and the out-of-range index included |
| KeyBytes.EscapedOrder | pkg/util/encoding/encoding.go:528-553 | escaped and terminated strings keep the byte order and none is a prefix of another |
| KeyBytes.BytesAscendingOrder | pkg/util/encoding/encoding.go:500-502 | the ascending encoding is monotone and prefix-free |
| KeyBytes.BytesDescendingOrder | pkg/util/encoding/encoding.go:547-553 | the descending encoding reverses the order and is prefix-free |
| KeyBytes.BytesAscendingRoundTrip | pkg/util/encoding/encoding.go:559-561 | decoding gives the data back and the rest of the buffer |
| KeyBytes.BytesDescendingRoundTrip | pkg/util/encoding/encoding.go:567-576 | the same for the descending form |
| KeyBytes.BytesLength | pkg/util/encoding/encoding.go:615-631 | the length scan finds the end of either encoding, whatever follows |
| KeyBytes.DecodesOnlyEncodings | pkg/util/encoding/encoding.go:578-612 | in both directions the decoder succeeds exactly on encodings followed by the rest it returns |
| KeyBytes.TruncatedEscapePanics | pkg/util/encoding/encoding.go:615-631 | a two-byte buffer on which the scan indexes out of range |
| KeyBytes.PanicsExactly | pkg/util/encoding/encoding.go:615-631 | it does so exactly when the bytes behind the marker, paired at escapes from the left with no terminating pair, end in an escape without a partner; the malformed-escape error is unreachable |
| KeyDecimal.CanonicalEandM | pkg/util/encoding/decimal.go:96-148 | exponent and base-100 mantissa have a nonzero first and last digit pair and denote the decimal's value |
| KeyDecimal.EandMOrder | pkg/util/encoding/decimal.go:153-169 | across the small, medium and large forms, bytes order as exponent then mantissa, reversed for negatives |
| KeyDecimal.MagnitudeOrder | pkg/util/encoding/decimal.go:96-147 | comparing exponent then mantissa compares the real magnitudes |
| KeyDecimal.DecimalOrder | pkg/util/encoding/decimal.go:54-79 | smaller decimals (NaN first, infinities outermost) get byte strings before those of larger ones, reversed when descending |
| KeyDecimal.DecimalEqual | pkg/util/encoding/decimal.go:54-79 | numerically equal decimals get identical bytes |
| KeyDecimal.DecimalRoundTrip | pkg/util/encoding/decimal.go:258-323 | decoding gives the decimal without trailing zeros in its coefficient and the untouched remainder |
| KeyDecimal.DecodedValue | pkg/util/encoding/decimal.go:353-388 | the decoded number equals the original exactly when the coefficient is zero or its exponent still fits 32 bits once trailing zeros are moved there |
| KeyDecimal.ExponentWraps | pkg/util/encoding/decimal.go:353-388 | a decimal whose exponent wraps to the least int32 |
| KeyDecimal.DecimalLength | pkg/util/encoding/decimal.go:326-349 | the length scan equals what the encoder wrote |
| DecimalLoops.PackInPlace | pkg/util/encoding/decimal.go:96-147 | packing two digits per byte inside one buffer, reading ahead of the write position, gives the mantissa of the digits |
| DecimalLoops.DecimalEandM | pkg/util/encoding/decimal.go:96-148 | with or without spare room in the buffer, the loops that make room for a leading zero, strip and pack return the specified exponent and mantissa |
| DecimalLoops.EncodeVarExpNumber | pkg/util/encoding/decimal.go:179-201 | tag, exponent and mantissa are written to the front of the buffer and nothing behind them changes |
| DecimalLoops.MakeDecimalLoop | pkg/util/encoding/decimal.go:353-388 | unpacking digit pairs in a loop gives the specified decimal or the specified error |
| KeyBitArray.BitArrayOrder | pkg/util/encoding/encoding.go:1126-1135 | bit arrays ordered by Compare get byte strings in that order, reversed when descending |
| KeyBitArray.BitArrayRoundTrip | pkg/util/encoding/encoding.go:1152-1182 | decoding gives back words, used bits and the remainder, in both directions |
| KeyBitArray.BitArrayLength | pkg/util/encoding/encoding.go:1189-1209 | the word scan plus the trailing varint equals the encoded length |
| KeyBitArray.WordsLenLoop | pkg/util/encoding/encoding.go:1189-1209 | the scanning loop agrees with its recursive definition |
| KeyBitArray.DecodeWordsLoop | pkg/util/encoding/encoding.go:1152-1185 | the word-decoding loop agrees with its recursive definition |
| KeyFloat.SpecialBits | pkg/util/encoding/float.go:36-46 | which bits are NaN and which are zero |
| KeyFloat.NumberOrder | pkg/util/encoding/float.go:20-57 | the value of IEEE bits, zeros and infinities included, orders as sign and magnitude |
| KeyFloat.FloatOrder | pkg/util/encoding/float.go:20-57 | float encodings order as the values with NaN first, reversed when descending |
| KeyFloat.FloatTotal | pkg/util/encoding/float.go:20-57 | any two floats are ordered or the same, and the same ones get identical bytes |
| KeyFloat.FloatRoundTrip | pkg/util/encoding/float.go:66-104 | decoding gives the same float and the rest; all bits come back but those of NaN and zero |
| KeyTokens.DecomposeKeyTokens | pkg/util/encoding/encoding.go:2521-2539 | the cutting loop agrees with its definition on every key, errors included |
| KeyTokens.GetMultiVarintLen | pkg/util/encoding/encoding.go:1343-1353 | the loop over several varints sums their lengths |
| KeyTokens.TaggedLength | pkg/util/encoding/encoding.go:1346-1358 | times and durations are measured with their two or three varints whatever follows, and keys that end between varints to their end |
| KeyTokens.UnknownTags | pkg/util/encoding/encoding.go:1371-1421 | every first byte that starts no encoding is the unknown-tag error |
| KeyRows.RowOrder | pkg/util/encoding/encoding.go:225-387 | comparing the concatenated encodings of two rows compares them column by column, descending columns reversed, NULL included; equal bytes mean equal rows; what follows the key cannot change a strict order |
| KeyRows.RowTotal | pkg/util/encoding/encoding.go:225-387 | any two rows of a schema are ordered or the same, so the row order is the byte order |
| KeyRows.SpanOrder | pkg/util/encoding/encoding.go:1022-1056 | duration keys whose totals fit 64 bits order as Compare does |
| KeyRows.RowPrefixFree | pkg/util/encoding/encoding.go:500-553 | no row key is a proper prefix of another of the same schema |
| KeyRows.RowRoundTrip | pkg/util/encoding/encoding.go:282-317 | decoding a concatenated row column by column gives what was stored and the rest |
| KeyRows.PeekLengthExact | pkg/util/encoding/encoding.go:1371-1421 | PeekLength equals the encoder's output length for every datum, direction and suffix, and finds NULLs |
| KeyRows.TokensAreColumns | pkg/util/encoding/encoding.go:2521-2539 | the tokens of a row key are exactly its encoded columns, and the flag says whether one is NULL |
| JsonInverted.InvertedKeyLength | pkg/util/encoding/encoding.go:2543-2578 | every inverted-index key of every document is measured to its end, whatever follows |
| JsonInverted.EntryTokens | pkg/util/encoding/encoding.go:2521-2539 | an inverted key followed by the columns of a row is cut into the key and the columns |
| JsonInverted.KeysArePaths | pkg/util/json/json.go:690-800 | the keys of a document are exactly those of its single-path documents |
| KnownBytes.KnownVarints | pkg/util/encoding/encoding_test.go.bak:278-303 | signed varints of both directions as the tests fix them |
| KnownBytes.KnownLongVarints | pkg/util/encoding/encoding_test.go.bak:278-287 | the least and the greatest int64 |
| KnownBytes.KnownUvarints | pkg/util/encoding/encoding_test.go.bak:311-328 | unsigned varints of both directions |
| KnownBytes.KnownStrings | pkg/util/encoding/encoding_test.go.bak:451-453 | escaped strings |
| KnownBytes.KnownDescendingStrings | pkg/util/encoding/encoding_test.go.bak:512-514 | and complemented ones |
| KnownBytes.KnownBitArrays | pkg/util/encoding/encoding_test.go.bak:642-650 | bit arrays of no bits and of one |
| KnownBytes.KnownSpecials | pkg/util/encoding/decimal_test.go.bak:134-161 | NaN, the infinities and zero |
| KnownBytes.KnownDecimals | pkg/util/encoding/decimal_test.go.bak:143-171 | decimals with the exponent in the tag |
| KnownBytes.KnownSmallDecimals | pkg/util/encoding/decimal_test.go.bak:156-164 | decimals with a negative exponent |
| KnownBytes.KnownLargeDecimals | pkg/util/encoding/decimal_test.go.bak:138-178 | decimals with a large exponent |
| KnownBytes.KnownTimes | pkg/util/encoding/encoding.go:909-983 | times and times with zones |
| KnownBytes.KnownInterval | pkg/util/encoding/encoding.go:1027-1041 | the zero interval |
| KnownBytes.KnownFloat | pkg/util/encoding/float.go:36-57 | the float 1.0 |
| KnownBytes.KnownBounds | pkg/util/encoding/encoding.go:785-828 | NULL and NotNull in both directions |
| KnownBytes.KnownScalars | pkg/util/json/testdata/encoded/structure_lonely_string.json.bytes:1 | scalar documents |
| KnownBytes.KnownObject | pkg/util/json/testdata/encoded/object_basic.json.bytes:1 | an object with one field |
| JsonNumbers.NumberRoundTrip | pkg/util/encoding/decimal.go:626-677 | a JSON number's decimal, including the special forms, survives encoding unchanged |
| JsonEncoding.EntryInverts | pkg/util/json/jentry.go:72-80 | an entry is recovered from its stored word, whether that holds a length or an end offset |
| JsonEncoding.TableInverts | pkg/util/json/encode.go:235-249 | reading the entry table restores every length although every 32nd word stores an offset |
| JsonEncoding.ValueInverts | pkg/util/json/encode.go:299-316 | decoding a value by its entry gives the value and the bytes behind it |
| JsonEncoding.JsonRoundTrip | pkg/util/json/encode.go:189-210 | DecodeJSON gives back every document whose encoding succeeds and consumes exactly what was written |
| JsonSizes.EncodeSucceeds | pkg/util/json/encode.go:40-158 | a value is encoded exactly if it and everything in it needs fewer than 2^28 bytes, and then with the bytes it needs |
| JsonSizes.JsonSize | pkg/util/json/encode.go:161-186 | the same for whole documents |
| JsonEncodeLoops.EncodeRun | pkg/util/json/encode.go:87-114 | appending data and patching reserved slots builds table and data of a run of values, or fails when a length is too large |
| JsonEncodeLoops.EncodeArray | pkg/util/json/encode.go:87-114 | the array encoder appends the specified bytes to whatever the buffer held |
| JsonEncodeLoops.EncodeObject | pkg/util/json/encode.go:116-158 | the object encoder does the same with keys and values sharing one table |
| JsonEncodeLoops.EncodeJsonInto | pkg/util/json/encode.go:161-186 | EncodeJSON appends the specified encoding or returns its error |
| JsonEncodeLoops.DecodeEntriesLoop | pkg/util/json/encode.go:235-249 | the loop with a running offset reads the specified entries |
| JsonEncodeLoops.DecodeItemsLoop | pkg/util/json/encode.go:217-233 | the decoding loop reads the specified elements |
| JsonLazy.BackFromExact | pkg/util/json/encoded.go:355-377 | walking backwards to the nearest offset gives the sum of all earlier lengths |
| JsonLazy.BeginningIsSum | pkg/util/json/encoded.go:355-377 | beginningOfIdx equals the total length of the earlier entries |
| JsonLazy.NthExact | pkg/util/json/encoded.go:312-327 | the n-th bounds cut out exactly the n-th piece and its entry |
| JsonLazy.FromRootDenotes | pkg/util/json/encoded.go:61-153 | opening encoded bytes gives a lazy value that stands for the document |
| JsonLazy.FetchIdxAgrees | pkg/util/json/encoded.go:384-408 | index lookups, negative ones included, agree with the decoded document |
| JsonPaths.FetchIdxMeans | pkg/util/json/json.go:1043-1051 | indices count from the front, negative ones from the back, and lead nowhere elsewhere |
| JsonLazy.FetchKeyAgrees | pkg/util/json/encoded.go:410-451 | binary search over the encoded keys agrees with the decoded object |
| JsonLazy.PathAgrees | pkg/util/json/encoded.go:384-451 | chains of lookups of any length agree with the decoded document |
| JsonReader.BeginningOfIdxLoop | pkg/util/json/encoded.go:355-377 | the backward loop computes the specified sum or error on any bytes |
| JsonReader.SearchKeyLoop | pkg/util/json/encoded.go:410-451 | the binary search loop finds the specified position |
| JsonReader.FindPairIndexByKey | pkg/util/json/json.go:1009-1026 | scan and binary search both find the key's index or report that no pair has it |
| JsonReader.ArrayIterator.NextEncoded | pkg/util/json/encoded.go:176-192 | every step yields the next element's own encoding, and the iterator ends with the array |
| JsonReader.ObjectIterator.NextEncoded | pkg/util/json/encoded.go:220-251 | every step yields the next key and the encoding of its value |
| JsonReader.JsonEncoded.FetchValIdx | pkg/util/json/encoded.go:384-408 | with or without a cached document, the answer is the document's element |
| JsonReader.JsonEncoded.FetchValKey | pkg/util/json/encoded.go:410-451 | with or without a cached document, the answer is the field of the document |
| JsonReader.JsonEncoded.Exists | pkg/util/json/encoded.go:567-613 | Exists answers for the document and leaves the cache standing for it |
| JsonPaths.ExistsMeans | pkg/util/json/encoded.go:567-613 | a string exists in itself, as an element of an array and as a key of an object |
| JsonReader.JsonEncoded.Decode | pkg/util/json/encoded.go:519-540 | the document itself, and a cache that stands for it |
| JsonReader.JsonEncoded.ShallowDecode | pkg/util/json/encoded.go:456-507 | one level is decoded, the members still stand for the document's |
| JsonContains.SearchScalar | pkg/util/json/contains.go:172-222 | binary search finds the first scalar not below the one looked for |
| JsonContains.ContainsScalars | pkg/util/json/contains.go:172-222 | the shrinking-slice loop computes the specified scalar test |
| JsonContains.ContainsObject | pkg/util/json/contains.go:247-272 | the single forward scan over both key lists computes the specified merge |
| JsonContains.Quadratic | pkg/util/json/contains.go:227-245 | every wanted member is contained in some member |
| JsonContains.PreprocessArray | pkg/util/json/contains.go:104-144 | scalars are sorted, arrays and objects keep their order |
| JsonContains.ScalarsInMeans | pkg/util/json/contains.go:172-222 | the loop over remaining scalars finds each wanted scalar exactly when it is present |
| JsonContains.MergeInMeans | pkg/util/json/contains.go:247-272 | the merge succeeds exactly when every wanted key is present with a containing value |
| JsonContains.FastIsSlow | pkg/util/json/contains_testers.go:26-100 | the fast test agrees with the naive one for any preprocessing of two documents |
| JsonContains.ContainsJson | pkg/util/json/contains.go:29-48 | the whole test returns what slowContains returns |
| JsonContains.FetchIsMember | pkg/util/json/contains_testers.go:88-100 | fetching by key in a sorted object is membership of the pair |
| JsonContains.SlowReflexive | pkg/util/json/contains_testers.go:26-100 | every document contains itself |
| JsonContains.ContainsPreorder | pkg/util/json/contains_testers.go:26-100 | containment as users see it is reflexive and transitive, scalars in arrays included |
| JsonPaths.ContainsScalar | pkg/util/json/contains_testers.go:26-62 | an array contains a scalar exactly if one of its elements is like it; other documents contain only scalars like themselves |
| JsonPaths.PathContained | pkg/util/json/contains_testers.go:26-100 | a document contains a single path exactly if it leads somewhere along it |
| JsonPaths.ContainsLeads | pkg/util/json/contains_testers.go:26-100 | what contains a document leads wherever the document leads |
| JsonCompare.Compare | pkg/util/json/json.go:368-483 | the recursive loops return the specified order |
| JsonCompare.CompareMeans | pkg/util/json/json.go:368-483 | the result is -1, 0 or 1: types as declared, numbers by value, strings by their bytes, then the shorter array or object, then the first member, keys before values, that is not alike |
| JsonCompare.CompareAntisymmetric | pkg/util/json/json.go:368-483 | on nested documents exchanging the sides negates the result |
| JsonCompare.CompareTransitive | pkg/util/json/json.go:368-483 | the order is transitive at every depth, strictly where one step is strict |
| JsonCompare.CompareZero | pkg/util/json/json.go:368-483 | documents compare as equal exactly when they differ at most in how numbers are written |
| JsonCompare.EqualContains | pkg/util/json/contains_testers.go:26-100 | documents that compare as equal contain each other |
| ComparisonSorts.NeighboursCompared | pkg/util/json/json.go:318-325 | every comparison procedure that sorts all inputs compares each two neighbours of its result |
| ComparisonSorts.InsertionSorts | pkg/util/json/json.go:270-338 | there is such a procedure for every number of items |
| JsonObjects.ShortcutSound | pkg/util/json/json.go:303-312 | if no comparison met equal keys, the sorted pairs have none, whatever correct sort ran |
| JsonObjects.UniqueInPlace | pkg/util/json/json.go:318-338 | compaction keeps the first pair of every run of equal keys |
| JsonObjects.ObjectBuilder.Build | pkg/util/json/json.go:270-287 | keys strictly increase and the last value added for each key wins |
| JsonObjects.SetKey | pkg/util/json/json.go:1281-1307 | lookups after setting a key, added only on request, with keys still sorted |
| JsonObjects.RemoveString | pkg/util/json/json.go:1334-1348 | lookups after removing a key, and whether it was there |
| JsonObjects.ConcatObjects | pkg/util/json/json.go:1445-1479 | lookups after merging two objects, the right one winning |
| JsonStrip.StripNulls | pkg/util/json/json.go:1569-1615 | the stripped document, and a flag that is set exactly when some field was null |
| JsonStrip.StripLookup | pkg/util/json/json.go:1569-1615 | a field of the stripped object is the stripped field unless that was null |
| JsonStrip.StripLeavesNone | pkg/util/json/json.go:1569-1615 | no null field remains at any depth |
| JsonStrip.StripKeepsOrder | pkg/util/json/json.go:1569-1615 | keys stay strictly increasing at every depth |
| JsonStrip.CleanStays | pkg/util/json/json.go:1547-1568 | a document without null fields is returned unchanged |
| JsonPaths.StripPath | pkg/util/json/json.go:1547-1615 | every path leads to the stripped value it led to before, or nowhere if it goes through a null field |
| PrettyDocs.FlattenKeeps | pkg/util/pretty/document.go:154-181 | flattening keeps the one-line text and the agreement of all choices |
| PrettyDocs.AlignUnderKeeps | pkg/util/pretty/util.go:108-113 | its text for every head; its two sides have the same text exactly unless the head is Nil |
| PrettyDocs.NestUnderKeeps | pkg/util/pretty/util.go:96-104 | its text and the agreement of its choices |
| PrettyDocs.JoinNestedOuterKeeps | pkg/util/pretty/util.go:168-191 | the nested and the de-indented form say the same text at every nesting |
| PrettyDocs.MakeAlignedTableItems | pkg/util/pretty/util.go:262-291 | the row loop builds the specified aligned items |
| PrettyDocs.MakeTableNestedSections | pkg/util/pretty/util.go:293-310 | the row loop builds the specified sections |
| PrettyDocs.Table | pkg/util/pretty/util.go:231-247 | the table is the specified group of its two forms |
| PrettyDocs.TableKeeps | pkg/util/pretty/util.go:231-247 | the aligned table and the nested sections say exactly the same text |
| PrettyForms.DeeperIsNextStop | pkg/util/pretty/pretty.go:131-135 | nesting by tabs goes to the next tab stop behind the indentation |
| PrettyForms.NestUnderRenders | pkg/util/pretty/util.go:96-104 | its layouts: one line, or the second document below and one level deeper |
| PrettyForms.AlignUnderRenders | pkg/util/pretty/util.go:108-113 | its layouts: one line, behind the head with its lines aligned there, or below and one level deeper |
| PrettyForms.StackRenders | pkg/util/pretty/util.go:86-88 | each document on a line of its own, empty ones excepted |
| PrettyForms.JoinNestedRightRenders | pkg/util/pretty/util.go:44-57 | the layouts of joined documents, item by item |
| PrettyForms.JoinNestedOuterRenders | pkg/util/pretty/util.go:168-191 | with room for them the separators hang to the left and every document starts at the indentation of the first |
| PrettyForms.LeftWidthIs | pkg/util/pretty/util.go:249-260 | the left column is as wide as the widest label of a row with a document |
| PrettyForms.AlignedItemRenders | pkg/util/pretty/util.go:262-291 | in every layout the label ends, or starts, with the label column and the document starts one blank behind it, with its further lines |
| PrettyForms.TableLinesUp | pkg/util/pretty/util.go:262-291 | row by row, all labels and all documents of an aligned table line up |
| PrettyForms.NestedItemRenders | pkg/util/pretty/util.go:293-310 | a section is its label and, one level deeper, its document |
| PrettyForms.TableRenders | pkg/util/pretty/util.go:231-247 | a table is on one line, or aligned if that is asked for, or in sections |
| PrettyForms.TableSays | pkg/util/pretty/util.go:231-247 | in either form a table says the labels and documents of exactly the rows that have one, in order |
| PrettyLayout.BeRenders | pkg/util/pretty/pretty.go:107-180 | the chosen layout is one of the layouts the work list denotes, by a definition that does not mention work lists |
| PrettyLayout.BestRenders | pkg/util/pretty/pretty.go:62-64 | the result for a document is one of its layouts |
| PrettyExec.AddressesAreLists | pkg/util/pretty/pretty.go:201-209 | interned addresses are equal exactly when the work lists are |
| PrettyExec.BeExec.Intern | pkg/util/pretty/pretty.go:201-209 | the cell stands for the pair in front of the list, earlier addresses keep their meaning, the memo table stays right |
| PrettyExec.BeExec.Be | pkg/util/pretty/pretty.go:107-180 | the memoised, hash-consed chooser returns what the definition without memo table returns |
| PrettyExec.BeExec.Layout | pkg/util/pretty/pretty.go:258-292 | the loop writes the specified text of the cells, with tabs or spaces |
| PrettyExec.Fits | pkg/util/pretty/pretty.go:238-256 | the width test agrees with its definition |
| PrettyExec.Pretty | pkg/util/pretty/pretty.go:47-59 | the whole run writes the specified text |
| PrettyProperties.PrettyKeepsText | pkg/util/pretty/pretty.go:47-59 | for every width and tab setting, printing keeps all non-blank characters in order |
| PrettyProperties.FlatRenders | pkg/util/pretty/document.go:154-181 | a flat document has one layout wherever it starts: its text on the current line |
| PrettyProperties.GroupFits | pkg/util/pretty/document.go:148-150 | a group is printed on one line exactly when its text is no wider than the page, and otherwise as the document itself |
| PrettyProperties.FitsMeans | pkg/util/pretty/pretty.go:238-256 | fits holds exactly when no cell of the first line passes the width |
| PrettyProperties.KeptFits | pkg/util/pretty/pretty.go:230-236 | from a kept choice to the end of its line no cell passes the width |
| PrettyProperties.LineExact | pkg/util/pretty/pretty.go:258-292 | a written line starts at its tracked column exactly when the loops can write its indentation: no negative part with tabs, no negative column without |
| PrettyProperties.SteadyIsLevel | pkg/util/pretty/pretty.go:107-180 | documents whose nesting never becomes negative produce only such lines |
| PrettyProperties.JoinNestedOuterSolid | pkg/util/pretty/util.go:168-191 | the limit test keeps the negative nesting inside the margin |
| PrettyProperties.AlignUnderSolid | pkg/util/pretty/util.go:108-113 | the constructor never makes an indentation negative |
| PrettyProperties.TableSolid | pkg/util/pretty/util.go:231-247 | tables never pad or indent by a negative amount |
| PrettyProperties.PrettyColumns | pkg/util/pretty/pretty.go:107-292 | in the printed text of a document whose nesting never becomes negative, the tracked column is the real one after every cell, and every line with a kept choice ends within the width |
| PrettyProperties.PrettyExact | pkg/util/pretty/pretty.go:107-292 | for every document of plain texts, the tracked column is real after every prefix of the chosen layout if and only if no indentation or padding in it is negative, and then every line with a kept choice fits |
| PrettyProperties.NegativeNesting | pkg/util/pretty/document.go:117-119 | a negative nesting for which a choice is kept at tracked column 3 while the written line is 8 wide on a page of 3 |
| BitWords.WordOps | pkg/util/bitarray/bitarray.go:212-264 | shifts, and, or and complement of 64-bit words, bit by bit |
| BitArrayOps.Canonical | pkg/util/bitarray/bitarray.go:82-92 | every sequence of booleans has one bit array with zero unused bits |
| BitArrayOps.ToWidth | pkg/util/bitarray/bitarray.go:117-145 | cutting on the right or adding zeros on the right; unused bits stay zero |
| BitArrayOps.Not | pkg/util/bitarray/bitarray.go:406-416 | every bit flips; unused bits stay zero |
| BitArrayOps.LeftShiftAny | pkg/util/bitarray/bitarray.go:212-260 | shifting the sequence by any int64 count of either sign, the least one included |
| BitArrayForms.Concat | pkg/util/bitarray/bitarray.go:360-403 | the bits of both sides one after the other, for every alignment of the left side |
| BitArrayForms.Parse | pkg/util/bitarray/bitarray.go:323-357 | succeeds exactly on strings of 0 and 1 and gives their bits; otherwise names an offending character |
| BitArrayForms.Format | pkg/util/bitarray/bitarray.go:273-297 | prints the bits |
| BitArrayForms.ParseFormatted | pkg/util/bitarray/bitarray.go:273-356 | parsing what was printed gives the same bit array |
| BitArrayInts.MakeBitArrayFromInt64 | pkg/util/bitarray/bitarray.go:160-188 | the low bits of the value, cut or sign-extended to the wanted length, for every width |
| BitArrayInts.AsInt64 | pkg/util/bitarray/bitarray.go:192-206 | the rightmost bits as a two's complement number |
| BitArrayInts.IntRoundTrip | pkg/util/bitarray/bitarray.go:160-206 | a value survives the trip through a bit array if and only if it fits the smaller of the width written and the width read |
| BitArrays.CompareLoop | pkg/util/bitarray/bitarray.go:449-481 | the loop computes the order by words, then length, then used bits |
| BitArrayOrder.CompareIsLexicographic | pkg/util/bitarray/bitarray.go:449-481 | that order is the lexicographic order of the booleans, in all three outcomes |
| BitArrayOrder.KeyOrderIsBitOrder | pkg/util/encoding/encoding.go:1126-1147 | key encodings of bit arrays sort as their booleans do |
| BitArrayOrder.Next | pkg/util/bitarray/bitarray.go:526-541 | Next adds one zero bit |
| BitArrayOrder.NothingBetween | pkg/util/bitarray/bitarray.go:526-541 | nothing lies between a sequence and the one with a zero added |
| Utf8.DecodedEncodes | pkg/sql/parser/scan.go:790-884 | re-encoding a validly decoded rune gives its bytes back (section 3 of RFC 3629) |
| Utf8.EncodedDecodes | pkg/sql/parser/scan.go:868-872 | encoding then decoding gives the rune back |
| Utf8.ValidMeans | pkg/sql/parser/scan.go:868-872 | valid strings are exactly concatenated encodings of code points (section 3 of RFC 3629) |
| SqlEscapes.HexMapUnquotes | pkg/util/stringencoding/string_encoding.go:27-71 | a byte written in hexadecimal is read back |
| SqlEscapes.RuneUnquotes | pkg/util/stringencoding/string_encoding.go:82-118 | four- and eight-digit rune escapes are read back |
| SqlLiterals.EncodeSQLBytes | pkg/sql/lex/encode.go:204-233 | the loop that copies stretches between escapes writes the specified literal |
| SqlLiterals.EncodeEscapedSQLIdent | pkg/sql/lex/encode.go:163-182 | the loop writes the specified quoted identifier |
| SqlLiterals.EncodeSQLString | pkg/sql/lex/encode.go:90-135 | the loop over runes, with its skipping after invalid bytes, writes the specified literal for every byte string |
| SqlLiterals.BytesRoundTrip | pkg/sql/parser/scan.go:790-884 | a byte literal reads back as its bytes and scanning stops behind it, exactly when the text behind does not continue it |
| SqlLiterals.IdentRoundTrip | pkg/sql/parser/scan.go:790-884 | a quoted identifier reads back exactly when it is valid UTF-8 and not continued |
| SqlLiterals.StringRoundTrip | pkg/sql/parser/scan.go:790-884 | a string literal reads back exactly when the string is valid UTF-8 and not continued |
| SqlLiterals.UpperPrefix | pkg/sql/parser/scan.go:154-163 | the case of the escape prefix makes no difference |
| SqlLiterals.UpperRoundTrip | pkg/sql/parser/scan.go:154-163 | the escaped text reads back behind an upper-case prefix too |
| SqlGrammar.SkipSpaceMeans | pkg/sql/parser/scan.go:415-438 | white space is skipped up to the first other character, and newlines in it are noticed |
| SqlGrammar.PieceReads | pkg/sql/parser/scan.go:790-884 | every piece of a literal, each kind of escape included, is read as its value |
| SqlGrammar.ScanMeans | pkg/sql/parser/scan.go:790-884 | every text is pieces and an end, and is scanned to their values or, by its end, to the error |
| SqlGrammar.LiteralReads | pkg/sql/parser/scan.go:123-163 | quoted text of any prefix is one token of its kind, UTF-8 being required of all but byte strings |
| SqlGrammar.BytesWrite | pkg/sql/lex/encode.go:204-233 | byte literals are written piece by piece: letters for control characters, hexadecimal for other unprintable bytes |
| SqlGrammar.RuneWrites | pkg/util/stringencoding/string_encoding.go:82-118 | how each rune of a valid string is escaped |
| SqlScanner.Scanner.SkipWhitespace | pkg/sql/parser/scan.go:415-438 | crosses blanks and reports newlines |
| SqlScanner.Scanner.ScanString | pkg/sql/parser/scan.go:790-884 | the scanning loop with its pending slice returns the specified value or error and stops at the specified place |
| SqlScanner.Scanner.ScanQuoted | pkg/sql/parser/scan.go:123-163 | the token at a quoted literal and the position behind it |
| SqlScanner.FindIs | pkg/sql/parser/scan.go:888-961 | naive search finds the first occurrence, or there is none |
| SqlScanner.Scanner.ScanDollarQuotedString | pkg/sql/parser/scan.go:888-961 | the one-pass matcher agrees with naive search for the end tag: the text before its first occurrence, or unterminated when there is none |
| SqlScanner.DollarMeans | pkg/sql/parser/scan.go:888-961 | the text is what stands before the first repetition of the tag between dollars; without one there is no end |
| SqlScanner.NoDollar | pkg/sql/parser/scan.go:888-961 | there is no dollar quote exactly if no tag opens it |
| Hlc.NextIsNext | pkg/util/hlc/timestamp.go:176-205 | Next is the least later timestamp and Prev its inverse; they panic only at the two ends |
| Hlc.Cell.Forward | pkg/util/hlc/timestamp.go:227-233 | the receiver becomes the larger timestamp, and the result says whether it changed |
| Hlc.TickAdvances | pkg/util/hlc/hlc.go:276-291 | a tick moves the clock forward exactly unless the logical counter has to wrap |
| Hlc.TickIsLeast | pkg/util/hlc/hlc.go:276-291 | a tick hands out the least proper timestamp after the clock and not before the reading |
| Hlc.TickWraps | pkg/util/hlc/hlc.go:276-291 | where the logical counter wraps the clock steps back |
| Hlc.TrustedMeans | pkg/util/hlc/hlc.go:350-367 | the 64-bit offset check lets nothing too far ahead through if and only if the reading is not before 1970; for proper timestamps it is right if and only if the true difference fits 64 bits |
| Hlc.TrustedWraps | pkg/util/hlc/hlc.go:350-367 | at every reading before 1970 the wrapped difference accepts the farthest future |
| Hlc.TrustedAlways | pkg/util/hlc/hlc.go:350-367 | without a positive offset nothing is refused |
| Hlc.TrustingIsLeast | pkg/util/hlc/hlc.go:361-365 | an accepted remote timestamp is raised to the least one not before the reading |
| Hlc.Clock.JumpsMeans | pkg/util/hlc/hlc.go:248-269 | the process dies of a step forward of at least half the offset since the last reading |
| Hlc.Clock.GetPhysicalClockAndCheck | pkg/util/hlc/hlc.go:226-272 | whatever other goroutines write between its atomic steps, the loop ends with this reading or a later one of theirs recorded; jumps since the time first seen are counted or end the process |
| Hlc.Clock.Now | pkg/util/hlc/hlc.go:276-291 | the new clock value, the timestamp handed out, and when the process halts instead |
| Hlc.Clock.Update | pkg/util/hlc/hlc.go:326-345 | the clock becomes the larger of the two timestamps or the process halts at the bound |
| Hlc.Clock.UpdateAndCheckMaxOffset | pkg/util/hlc/hlc.go:350-367 | a refused timestamp changes nothing; an accepted one moves the clock to at least it and the reading |
| Hlc.Clock.RefreshHLCUpperBound | pkg/util/hlc/hlc.go:391-415 | the bound changes only if persisting succeeds, and to the ticked wall time plus delta |
| HlcRuns.NowRuns | pkg/util/hlc/hlc.go:276-291 | in the state machine an undisturbed Now leaves the clock its contract describes and hands out its value |
| HlcRuns.ReceiveRuns | pkg/util/hlc/hlc.go:326-345 | the same for Update |
| HlcRuns.CheckedRuns | pkg/util/hlc/hlc.go:350-367 | and for the checked update, accepted or refused |
| HlcRuns.RefreshRuns | pkg/util/hlc/hlc.go:391-415 | and for a refresh, with what is persisted |
| HlcRuns.ResetRuns | pkg/util/hlc/hlc.go:399-415 | and for a reset |
| HlcRuns.CausalOrder | pkg/util/hlc/hlc.go:276-367 | in every run, happened-before gives smaller timestamps, strictly when the later event hands one out |
| HlcRuns.RunUnderTop | pkg/util/hlc/hlc.go:276-346 | no wall time and no timestamp exceeds the largest physical reading taken anywhere |
| HlcRuns.RunWithinOffset | pkg/util/hlc/hlc.go:350-367 | a clock taking only updates checked at readings from 1970 on stays within the offset of its own readings |
| HlcRuns.NextExact | pkg/util/hlc/hlc.go:276-415 | with refreshes split at their unlocked parts, a step keeps every timestamp under the nonzero persisted bound of its node if and only if it persists no bound below the clock and moves no clock above a bound persisted but not yet stored |
| HlcRuns.RunBounds | pkg/util/hlc/hlc.go:391-415 | in every interleaving, timestamps stay at or below the nonzero persisted bound throughout exactly if every step meets that condition |
| HlcRuns.OrderlyBounds | pkg/util/hlc/hlc.go:391-415 | they do when refreshes of a node follow each other without overflow and the clock stays under a bound from its tick to its store; between refreshes the bound in memory is the persisted one and covers a live clock |
| HlcRuns.RefreshCovers | pkg/util/hlc/hlc.go:391-396 | a refreshed bound covers the clock exactly when the sum does not overflow |
| HlcRuns.SplitRefreshBreaks | pkg/util/hlc/hlc.go:391-415 | a refresh interleaved with one Now leaves a timestamp above the persisted bound at a live node; the condition fails at exactly the step that persists |
| Durations.NormalizeConserves | pkg/util/duration/duration.go:512-532 | for parts of one sign, at every magnitude, the total is conserved, the sign kept and everything carried that can be |
| Durations.CompareIsTotal | pkg/util/duration/duration.go:150-167 | Compare is the comparison of totals at 30 days per month |
| Durations.NormalExact | pkg/util/duration/duration.go:512-584 | at every magnitude and mixture of signs, normalising loses nothing and leaves parts of one sign if and only if the once-carried parts agree in sign, with the exact condition at the two ends of int64 |
| Durations.CompareExact | pkg/util/duration/duration.go:150-167 | Compare is the comparison of totals between any two durations meeting that condition on their parts, and only they compare so with all of them |
| Durations.MixedSigns | pkg/util/duration/duration.go:512-584 | two durations that do not meet it: equal totals that compare as different, and months that wrap around |
| Durations.EncodeDecode | pkg/util/duration/duration.go:378-412 | whatever Encode lets through is decoded again, even where its sum wraps; the first integer is the total exactly if that fits 64 bits |
| Durations.EncodeWraps | pkg/util/duration/duration.go:378-391 | a duration that passes the overflow guard although its total does not fit |
| Durations.DiffMicros | pkg/util/duration/duration.go:610-638 | the loop over saturated steps returns the difference rounded half away from zero |
| Durations.RoundedMeans | pkg/util/duration/duration.go:610-642 | rounding goes to the nearest microsecond, from the middle away from zero |
| Durations.AddMicros | pkg/util/duration/duration.go:645-658 | exact for every delta but the least int64, which adds nothing |
| Durations.AddThenDiff | pkg/util/duration/duration.go:610-658 | the difference undoes the addition exactly for every delta but the least int64 |
| IpAddrs.AddIs | pkg/util/uint128/uint128.go:58-65 | the carry makes addition modulo 2^128 |
| IpAddrs.SubIs | pkg/util/uint128/uint128.go:68-75 | the borrow makes subtraction modulo 2^128 |
| IpAddrs.CompareIs | pkg/util/uint128/uint128.go:44-55 | word-wise comparison compares the numbers |
| IpAddrs.NetworkIs | pkg/util/ipaddr/ipaddr.go:299-322 | masking an address with a netmask rounds it down to its block |
| IpAddrs.BlockIs | pkg/util/ipaddr/ipaddr.go:326-346 | network and broadcast address are the ends of the aligned block |
| IpAddrs.InSubnetIs | pkg/util/ipaddr/ipaddr.go:476-485 | contains says that the other address lies between them |
| IpAddrs.OverlapIs | pkg/util/ipaddr/ipaddr.go:513-515 | holds exactly when the two blocks share an address (prefixes as in section 3.1 of RFC 4632) |
| IpAddrs.InclusionIs | pkg/util/ipaddr/ipaddr.go:490-500 | ContainsOrEquals and Contains are inclusion and proper inclusion of blocks |
| IpAddrs.ContainmentTransitive | pkg/util/ipaddr/ipaddr.go:489-491 | so containment is transitive |
| IpAddrs.SumIs | pkg/util/ipaddr/ipaddr.go:411-449 | adding or subtracting any int64 succeeds exactly when the true number is an address of the family, and gives it |
| IpAddrs.DifferenceIs | pkg/util/ipaddr/ipaddr.go:462-474 | the difference is returned exactly when it fits an int64 |
| IpAddrs.AddThenSub | pkg/util/ipaddr/ipaddr.go:411-455 | a successful addition is undone by the difference |

## Left out

- KeyDecimal.DecimalOrder: finite decimals are taken with coefficients of fewer than 2^62 digits, which is more than a Go slice holds, so that exponents stay clear of int64's limits.
- KeyDecimal.DecimalRoundTrip: the decoder's sharing of its temporary buffer with the result is not modelled, buffers are values.
- KeyRows.RowRoundTrip: a decimal comes back without trailing zeros in its coefficient, so the statement is about the stored form; `KeyDecimal.DecodedValue` says when that is the same number.
- KeyRows.RowOrder: durations are ordered by the three integers that Encode gives; `KeyRows.SpanOrder` says when that is the order of Compare. Tuples are not columns of the model.
- JsonInverted.KeysArePaths: the keys of a document are a set, their order and the removal of duplicates are not modelled.
- KeyFloat.FloatRoundTrip: floats are their 64 bits; arithmetic on them is not modelled.
- KeyBytes.GetBytesLengthLoop: a Go index panic is the error value `IndexPanic`.
- JsonEncodeLoops.EncodeRun: encoders recurse on smaller documents; lazily encoded values that copy their bytes are not re-encoded here.
- JsonReader.JsonEncoded.Decode: the mutex around the cache is not modelled, one call runs at a time; members that share a parent's bytes are values.
- JsonReader.JsonEncoded.FetchValKey: FetchValKeyOrIdx, which parses its argument as an integer first, is represented by lookup paths whose steps are already parsed.
- JsonReader.JsonEncoded.Exists: only encoded receivers and fully decoded documents; arrays whose elements are still lazy are not covered.
- JsonContains.PreprocessArray: sort.Slice is an insertion by binary search; the theorem about containment holds for every sorted arrangement.
- JsonContains.ContainsJson: numbers are finite, as JSON numbers are.
- JsonCompare.Compare: on decoded documents; a lazily encoded side is decoded first in the source.
- JsonObjects.ObjectBuilder.Build: sort.Sort is any correct comparison procedure given as a decision tree; how it swaps elements is not modelled.
- JsonStrip.StripNulls: applied to decoded documents.
- PrettyExec.BeExec.Be: columns are unbounded integers instead of int16, chosen cells are a sequence instead of shared nodes, and the batched allocation is not modelled.
- PrettyExec.Pretty: keyword transforms are absent, and the tab width is positive (a zero width divides by zero in `NestT`).
- PrettyLayout.BeRenders: documents that are functions of the column or nesting are the first-order nodes that `Align` and `JoinNestedOuter` build, the only ones in the package.
- PrettyProperties.PrettyColumns: texts contain no newline or tab, which the width computation does not see either.
- BitArrayOps.ToWidth: growing into spare capacity of the backing slice is a copy here.
- BitArrayForms.Parse: strings are sequences of characters, so multi-byte characters are single invalid digits.
- BitArrayInts.AsInt64: widths are between 1 and 64, as the shift counts of the source require.
- SqlScanner.Scanner.ScanQuoted: only quoted literals are dispatched; comments before a token, numbers, operators, placeholders, bit and hexadecimal strings and keywords are not modelled.
- SqlScanner.Scanner.ScanString: the preallocated buffer that results are cut from is not modelled.
- SqlLiterals.EncodeSQLString: the flags for bare strings and bare identifiers are not modelled.
- SqlEscapes.RuneUnquotes: strconv.UnquoteChar is written out for the escapes the scanner passes to it, as in Go 1.15, the version the module file names.
- PrettyExec.AddressesAreLists: documents are compared by structure here, where Go compares pointer documents by address; in the source equal addresses still mean equal lists, but equal lists may have several addresses. The result of `be` does not depend on it.
- Hlc.Clock.Now: reads its clock undisturbed by other goroutines; the monitoring goroutine and its channel are not modelled. The interleavings are those of `HlcRuns`.
- HlcRuns.CausalOrder: runs in which no logical counter wraps; `Hlc.TickAdvances` says exactly when one would.
- HlcRuns.RunBounds: persisting either stores the bound or fails without effect.
- Durations.DiffMicros: times are integer nanoseconds and the accumulated remainders are unbounded.
- IpAddrs.InSubnetIs: IPv4 addresses carry the mapped prefix that parsing gives them.
- Parse and textual forms of timestamps, addresses and durations, the yacc grammar, and everything that needs an operating system clock or the network.
