# turbo: checksummed copy, UTF-8 encoding, string replacement, flag marshalling and usage flags

A Dafny model of five small, self-contained parts of the turbo C++ library,
with proofs of the behaviour their code, documentation and examples promise.

- `crc_memcpy.dfy` (module `CrcMemcpy`) models `FallbackCrcMemcpyEngine::Compute`.
  It copies `length` bytes between two distinct arrays in 8192-byte chunks.
  For each chunk it extends a CRC32C state over the chunk first, then copies it.
  It also models the engine selection of a build without the x86-64 accelerated
  engine. The CRC32C per-byte update is a parameter `step`, so every result
  holds for any update function.
- `utf8_encoder.dfy` (module `Utf8Encoder`) models the naive UTF-8 encoder:
  - `NaiveOneCharLen` and `NaiveCountBytesSize`;
  - the backwards bit-packing loop of `NaiveUTF8EncodeOne`;
  - `NaiveEncoder`, which replaces values above U+10FFFF by U+FFFD.

  The encoder is proved against an independent transcription of the encoding
  table in section 3 of RFC 3629.
- `str_replace.dfy` (module `StrReplace`) models `StrReplaceAll`, both the
  returning and the in-place forms:
  - the priority order `ViableSubstitution::OccursBefore`;
  - `FindSubstitutions` with its insertion sort.

  `ReplaceFrom` is the replacement pass that the header's documentation
  describes: leftmost match first, longest key at equal positions, no rescanning
  of replaced text.
- `marshalling.dfy` (module `Marshalling`) models the flag parsers and
  unparsers for `bool`, `short`, `unsigned short`, `int`, `std::string`,
  `std::vector<std::string>` and `LogSeverity`. It also models `NumericBase`
  and the ASCII helpers they rely on: whitespace stripping, case-insensitive
  equality, and splitting and joining at ','.
- `usage.dfy` (module `Usage`) models the usage machinery:
  - the escaping of `XMLElement`;
  - `FlagHelpPrettyPrinter`, as a state machine over `(line_len, first_line)`
    that returns the text it would write;
  - `DeduceUsageFlags` over a record that stands for the mutex-guarded help
    globals;
  - the report and return code of `HandleUsageFlags`.
- `common.dfy` (module `Common`) holds the fixed-width integer types, `Option`,
  and splitting at a set of separator characters.

Integer widths are explicit. `byte`, `u16`, `u32`, `int16` and `int32` are
subset types of `int`. The narrowing casts of the `short` parsers are written
out as two's-complement truncation. The bit operations of the UTF-8 encoder are
stated as the arithmetic they amount to, and two lemmas relate the two on
`bv32`.

## Model

| member | source | states |
|---|---|---|
| CrcMemcpy.ExtendConcat | turbo/crc/internal/crc_memcpy_fallback.cc:39-49 | Extending the checksum over `a` and then over `b` equals extending it once over `a + b`, so the chunk-by-chunk extension composes. |
| CrcMemcpy.Chunks | turbo/crc/internal/crc_memcpy_fallback.cc:30-51 | A functional mirror of the loop's schedule, not a loop invariant of `FallbackEngineCompute`. The chunks start at the given offset and are contiguous. All but the last are full 8192-byte blocks. The last holds 1..8192 bytes and ends at `length`. Their number is ceil((length − offset)/8192). There are none exactly when offset ≥ length. |
| CrcMemcpy.ExactMultipleEndsInFinalChunk | turbo/crc/internal/crc_memcpy_fallback.cc:39-47 | Stated on the mirror `Chunks`: because the loop guard `offset + kBlockSize < length` is strict, a length of k·8192 takes k chunks. The last of them is a full block handled by the tail branch. |
| CrcMemcpy.OffsetsAreMultiples | turbo/crc/internal/crc_memcpy_fallback.cc:39 | Chunk i of a schedule that starts at 0 begins at i·8192. |
| CrcMemcpy.FallbackCrc | turbo/crc/internal/crc_memcpy_fallback.cc:31-53 | Feeding each block's checksum into the next block gives the same value as one extension over `src[offset..length)`. |
| CrcMemcpy.ExtendPrefix | turbo/crc/internal/crc_memcpy_fallback.cc:39-43 | The running checksum over `src[0..offset)`, extended over the next block, is the checksum over the longer prefix. |
| CrcMemcpy.CopyChunk | turbo/crc/internal/crc_memcpy_fallback.cc:40-42 | One checksum-then-copy step. The result is the state extended over the chunk. The chunk is copied to the same positions of `dst`, and no other byte of `dst` changes. |
| CrcMemcpy.FallbackEngineCompute | turbo/crc/internal/crc_memcpy_fallback.cc:26-54 | Afterwards `dst[0..length)` equals `src[0..length)`. `dst[length..]` and `src` are unchanged. The result is the checksum extended over `src[0..length)`, and it is the initial value when `length == 0`. |
| CrcMemcpy.EngineCrc | turbo/crc/internal/crc_memcpy_fallback.cc:26-54 | The fallback engine's result for a whole buffer is the single extension over it. |
| CrcMemcpy.GetArchSpecificEngines | turbo/crc/internal/crc_memcpy_fallback.cc:59-64 | Without the x86-64 accelerated engine, both the temporal and the non-temporal engine are the fallback engine. `AllEnginesAgree` states what they compute. |
| CrcMemcpy.GetTestEngine | turbo/crc/internal/crc_memcpy_fallback.cc:66-69 | Every lane-count pair gives the fallback engine. `AllEnginesAgree` states that its checksum is the one `ExtendCrc32c` gives. |
| CrcMemcpy.AllEnginesAgree | turbo/crc/internal/crc_memcpy_fallback.cc:57-71 | The temporal engine, the non-temporal engine and every `GetTestEngine(v, i)` engine are fallback engines. They compute the same checksum, the one `ExtendCrc32c` gives directly. |
| Utf8Encoder.OneCharLen | turbo/strings/utf8/naive_encoder.cc:39-51 | Every value needs 1 to 4 bytes. `EncodeCodePointLength` states that this is the length the encoder emits. |
| Utf8Encoder.CountBytesSize | turbo/strings/utf8/naive_encoder.cc:53-60 | A string of n values needs between n and 4·n bytes. `EncodingLength` states that this is the length of its whole encoding. |
| Utf8Encoder.Rfc3629EncodeIsShortestForm | turbo/strings/utf8/naive_encoder.cc:39-51 | The reference table of RFC 3629 section 3 yields a lead byte of the right shape followed by continuation bytes. Its payload bits reproduce the value, and the value needs that many bytes: there is no overlong form. |
| Utf8Encoder.InvalidCharIsReplacementCharacter | turbo/strings/utf8/naive_encoder.cc:36-37 | The replacement bytes `invalid_char` are the UTF-8 form of U+FFFD. |
| Utf8Encoder.ShiftSixClears | turbo/strings/utf8/naive_encoder.cc:71-75 | Six rounds of `x >>= 6` clear any `uint32_t`, so the loop writes at most six continuation bytes. |
| Utf8Encoder.ContinuationBitsAsArithmetic | turbo/strings/utf8/naive_encoder.cc:72-73 | `0x80 \| (x & 0x3f)` is `0x80 + x % 64`, and `x >> 6` is `x / 64`. |
| Utf8Encoder.LeadBitsAsArithmetic | turbo/strings/utf8/naive_encoder.cc:74-76 | For the values `mfb` takes and an `x` that fits under it, `((~mfb << 1) \| x) & 0xFF` is `0xFE − 2·mfb + x`, and `mfb >>= 1` halves it. |
| Utf8Encoder.LoopStopsAtOneCharLen | turbo/strings/utf8/naive_encoder.cc:71-75 | For a code point, the condition `x > mfb` first fails after exactly `NaiveOneCharLen(x) − 1` continuation bytes. |
| Utf8Encoder.PackedBytesMatchTable | turbo/strings/utf8/naive_encoder.cc:70-76 | The lead byte the code computes, followed by the continuation bytes the loop wrote, is the RFC 3629 table's form of the code point. |
| Utf8Encoder.ContinuationRound | turbo/strings/utf8/naive_encoder.cc:72-74 | One loop round puts the next continuation byte in front of those already written and leaves the rest of the buffer alone. `x` and `mfb` advance by one shift. |
| Utf8Encoder.AddContinuationBytes | turbo/strings/utf8/naive_encoder.cc:70-75 | The loop stops with 2 ≤ n ≤ 7 and the remaining `x` fitting under `mfb`. It writes only the continuation bytes at the end of the buffer. For a code point, n is `NaiveOneCharLen(x)`. |
| Utf8Encoder.PackedTwoBytes | turbo/strings/utf8/naive_encoder.cc:70-76 | For 0x80..0x7FF one continuation round leaves a value under `mfb` = 0x1F, and lead byte 0xC0 + x/64 followed by that byte is the two-byte RFC 3629 form. |
| Utf8Encoder.PackedThreeBytes | turbo/strings/utf8/naive_encoder.cc:70-76 | For 0x800..0xFFFF two rounds leave a value under 0xF, and lead byte 0xE0 + x/4096 with the two continuation bytes is the three-byte form. |
| Utf8Encoder.PackedFourBytes | turbo/strings/utf8/naive_encoder.cc:70-76 | For 0x10000..0x10FFFF three rounds leave a value under 0x7, and lead byte 0xF0 + x/262144 with the three continuation bytes is the four-byte form. |
| Utf8Encoder.LeadByte | turbo/strings/utf8/naive_encoder.cc:76 | The lead byte carries the marker bits `0xFE − 2·mfb` for the current `mfb`. |
| Utf8Encoder.LeadByteKeepsFront | turbo/strings/utf8/naive_encoder.cc:76 | Writing the lead byte at `buff[8−n]` leaves `buff[0..8−n)` as it was. |
| Utf8Encoder.LeadByteCompletes | turbo/strings/utf8/naive_encoder.cc:76 | For a code point, the lead byte written in front of the continuation bytes completes the RFC 3629 form. |
| Utf8Encoder.NaiveUtf8EncodeOne | turbo/strings/utf8/naive_encoder.cc:63-80 | Only `buff[8−n..8)` is written, with 1 ≤ n ≤ 7 < 8. For x ≤ 0x10FFFF, n is `NaiveOneCharLen(x)` and the written bytes are the RFC 3629 form of x. |
| Utf8Encoder.EncodeCodePointLength | turbo/strings/utf8/naive_encoder.cc:39-51 | `NaiveOneCharLen` predicts the length of what the encoder emits for each value, including the three replacement bytes. |
| Utf8Encoder.EncodingLength | turbo/strings/utf8/naive_encoder.cc:53-60 | `NaiveCountBytesSize` of a string is the length of its whole encoding. |
| Utf8Encoder.NaiveEncoder | turbo/strings/utf8/naive_encoder.cc:82-100 | The output is the in-order concatenation of the per-code-point encodings. The returned count is its length and equals `NaiveCountBytesSize`. Empty input gives 0. |
| Utf8Encoder.AboveUnicodeMaxIsReplaced | turbo/strings/utf8/naive_encoder.cc:94-97 | A value above 0x10FFFF is emitted as EF BF BD, three bytes. |
| Utf8Encoder.SurrogatesAreEncoded | turbo/strings/utf8/naive_encoder.cc:90-93 | Values 0xD800..0xDFFF are not rejected. They take the code point branch and become three bytes starting with 0xED. |
| StrReplace.OccursBefore | turbo/strings/str_replace.h:147-150 | The order compares offsets first, and at equal offsets the longer key occurs before. `OccursBeforeIsStrictWeakOrder` states that this is a strict weak order. |
| StrReplace.OccursBeforeIsStrictWeakOrder | turbo/strings/str_replace.h:147-150 | `OccursBefore` is irreflexive, asymmetric and transitive, and incomparability is transitive. Two substitutions are incomparable exactly when they have the same offset and key length. |
| StrReplace.Find | turbo/strings/str_replace.h:167 | `find` returns the first occurrence at or after `from`, or none when the key occurs nowhere after it. |
| StrReplace.ViableOf | turbo/strings/str_replace.h:163-175 | Exactly the pairs with a non-empty key that occurs in the text are kept, each with the offset of the key's first occurrence. There are never more of them than pairs. |
| StrReplace.InsertSubstitution | turbo/strings/str_replace.h:175-182 | The insertion step adds exactly the new substitution, as a multiset, and keeps the list sorted: no element occurs before a later one. |
| StrReplace.InsertedIsSorted | turbo/strings/str_replace.h:179-182 | Where the swap loop stops, the list with the new element in place is sorted. |
| StrReplace.FindSubstitutions | turbo/strings/str_replace.h:157-185 | The result is a permutation of the viable substitutions, sorted so that the last one is the leftmost and then the longest, and no longer than the pair list. |
| StrReplace.LongestAt | turbo/strings/str_replace.h:54-58 | A chosen key is non-empty and fits in the text from the position on. |
| StrReplace.LongestAtIsLongest | turbo/strings/str_replace.h:54-58 | The chosen pair is one of the pairs, and its non-empty key occurs at the position. No occurring key is longer. Nothing is chosen exactly when no non-empty key occurs there. |
| StrReplace.ReplaceCountBound | turbo/strings/str_replace.h:51-58 | A pass from position i makes at most `|s| − i` substitutions, since each one consumes at least one character. |
| StrReplace.ApplySubstitutions | turbo/strings/str_replace.h:187-199 | At most `|s|` substitutions are made. An empty substitution list leaves the text unchanged with count 0. `ApplySubstitutionsMatchesPairs` relates the rest to the documented pass. |
| StrReplace.ApplySubstitutionsMatchesPairs | turbo/strings/str_replace.h:187-199 | With distinct keys, replacing with the sorted viable substitutions gives the same result as the documented pass over the original pairs. |
| StrReplace.StrReplaceAll | turbo/strings/str_replace.h:193-201 | With no viable substitution the text comes back unchanged, for every pair list, duplicate keys included. With distinct keys, the result is the documented leftmost-longest, non-recursive replacement of the text. |
| StrReplace.StrReplaceAllInPlace | turbo/strings/str_replace.h:203-214 | With no viable substitution it returns 0 and leaves the target unchanged. Otherwise, with distinct keys, the target becomes the replaced text and the count is the number of substitutions. |
| StrReplace.NoViableSubstitutionKeepsText | turbo/strings/str_replace_test.cc:28-48 | Empty keys, and keys absent from the text, leave the text unchanged with count 0. |
| StrReplace.EmptyOrAbsentKeysExample | turbo/strings/str_replace_test.cc:90-97 | The test's lists on "" and on "abc", whose keys are empty or absent and include duplicates, have no viable substitution. `StrReplaceAll` therefore returns the text unchanged. |
| StrReplace.CountZeroIffNoMatch | turbo/strings/str_replace.h:51-58 | The pass makes no substitution exactly when no key occurs anywhere: an occurrence is never skipped. |
| StrReplace.MatchIsCounted | turbo/strings/str_replace.h:54-58 | An occurrence at or after the scan position makes the pass substitute at least once. |
| StrReplace.OrderIrrelevant | turbo/strings/str_replace.h:51-58 | With distinct keys, every permutation of the pair list replaces identically. |
| StrReplace.GreedyExample | turbo/strings/str_replace_test.cc:79-81 | "aaa" with {aa→x} gives "xa": overlapping matches are replaced greedily. |
| StrReplace.NonRecursiveExample | turbo/strings/str_replace_test.cc:83-85 | "aaa" with {aa→a} gives "aa": replaced text is not rescanned. |
| StrReplace.LongestWinsExample | turbo/strings/str_replace_test.cc:124-126 | "aaa" with [{aa→x}, {a→X}] gives "xX" with two substitutions. |
| StrReplace.ListOrderExample | turbo/strings/str_replace_test.cc:127-128 | Listing {a→X} first gives the same "xX". |
| StrReplace.ManyReplacementsExample | turbo/strings/str_replace_test.cc:155-163 | "$who bought $count #Noun. Thanks $who!" becomes "Bob bought 5 Apples. Thanks Bob!" with 4 substitutions. |
| Marshalling.StripLeading | turbo/flags/marshalling.cc:49 | The result is a suffix of the text. What was removed is all whitespace, and the result does not start with whitespace. |
| Marshalling.StripTrailing | turbo/flags/marshalling.cc:49 | The result is a prefix of the text. What was removed is all whitespace, and the result does not end with whitespace. |
| Marshalling.Strip | turbo/flags/marshalling.cc:49 | The stripped text is trimmed and no longer than the input. `StripSplitsText` states that only surrounding whitespace was removed. |
| Marshalling.StripSurrounded | turbo/flags/marshalling.cc:49 | Stripping whitespace around a trimmed text gives back exactly that text. |
| Marshalling.StripIdempotent | turbo/flags/marshalling.cc:49 | The stripped text is trimmed, and stripping it again changes nothing. |
| Marshalling.StripSplitsText | turbo/flags/marshalling.cc:49 | Every text is leading whitespace, then its stripped form, then trailing whitespace. |
| Marshalling.StripIgnoresPadding | turbo/flags/marshalling.cc:49 | Whitespace added around a text does not change its stripped form. |
| Marshalling.ToLower | turbo/flags/marshalling.cc:52-55 | ASCII upper-case letters are lowered by 32, and every other character is kept. |
| Marshalling.MatchBoolWords | turbo/flags/marshalling.cc:51-60 | The scan succeeds exactly when the text equals a true or false spelling up to case. On success the result is true only for a true spelling and false only for a false spelling. On failure `*dst` keeps its value. |
| Marshalling.ParseBool | turbo/flags/marshalling.cc:44-61 | Parsing succeeds exactly when the stripped text is one of the ten spellings up to case. On failure `*dst` keeps its value. |
| Marshalling.TrueAndFalseWordsDisjoint | turbo/flags/marshalling.cc:45-46 | No text is both a true and a false spelling, whatever its case. |
| Marshalling.ParseBoolMeaning | turbo/flags/marshalling.cc:44-61 | "1","t","true","y","yes" give true and "0","f","false","n","no" give false, in any case and with surrounding whitespace. Anything else fails and leaves `*dst` as it was. |
| Marshalling.UnparseBool | turbo/flags/marshalling.cc:164 | `true` unparses as "true" and `false` as "false". |
| Marshalling.BoolRoundTrip | turbo/flags/marshalling.cc:44-61 | Unparsing a bool and parsing the text gives back the same bool. |
| Marshalling.BoolSpellingExample | turbo/flags/marshalling.cc:44-61 | " YES\n" parses as true. |
| Marshalling.NumericBase | turbo/flags/marshalling.cc:66-73 | The base is 16 exactly when the text has at least two characters and starts with "0x" or "0X"; otherwise it is 10. |
| Marshalling.LeadingZeroIsDecimal | turbo/flags/marshalling.cc:66-68 | A leading '0' followed by a digit selects base 10, never octal. |
| Marshalling.ParseFlagImpl | turbo/flags/marshalling.cc:75-81 | The integer parser sees the stripped text and the base that text's prefix selects. |
| Marshalling.ParseFlagImplIgnoresSpace | turbo/flags/marshalling.cc:75-81 | Surrounding whitespace does not change the result of an integer parse. |
| Marshalling.ToShort | turbo/flags/marshalling.cc:86-88 | `static_cast<short>` agrees with its argument modulo 2^16. |
| Marshalling.ToUShort | turbo/flags/marshalling.cc:95-98 | `static_cast<unsigned short>` agrees with its argument modulo 2^16. |
| Marshalling.NarrowingIsExactInRange | turbo/flags/marshalling.cc:86-97 | A narrowing cast gives back its argument exactly when the argument fits the narrow type. |
| Marshalling.ParseInt | turbo/flags/marshalling.cc:102-104 | The `int` parser is the integer parse of the stripped text, with the base that text selects. The integer parser passed in decides both the outcome and the value of `*dst`. |
| Marshalling.ParseShort | turbo/flags/marshalling.cc:83-90 | It succeeds exactly when the `int` parse succeeds with a value in [−32768, 32767], and then stores that value. Otherwise `*dst` is untouched. |
| Marshalling.ParseUShort | turbo/flags/marshalling.cc:92-100 | It succeeds exactly when the `unsigned int` parse succeeds with a value below 65536, and then stores that value. Otherwise `*dst` is untouched. |
| Marshalling.ParseString | turbo/flags/marshalling.cc:141-144 | String parsing always succeeds and stores the text verbatim. |
| Marshalling.UnparseString | turbo/flags/marshalling.cc:194 | String unparsing returns the value verbatim. |
| Marshalling.StringRoundTrip | turbo/flags/marshalling.cc:141-144 | String parse and unparse are mutually inverse. |
| Marshalling.Split | turbo/flags/marshalling.cc:157 | Splitting at ',' with empty pieces kept gives one more piece than there are commas, and no piece contains a comma. |
| Marshalling.Join | turbo/flags/marshalling.cc:195-197 | Joins the elements with ',' between consecutive ones. `SplitJoin` states that splitting the joined text gives back the list of comma-free elements. |
| Marshalling.JoinSplit | turbo/flags/marshalling.cc:157 | Joining the pieces with ',' gives back the text. |
| Marshalling.SplitJoin | turbo/flags/marshalling.cc:195-197 | Joining a non-empty list of comma-free elements with ',' and splitting again gives back the list. |
| Marshalling.ParseStringVector | turbo/flags/marshalling.cc:149-159 | Parsing always succeeds. Empty text, and only empty text, gives the empty vector. Any other text gives one more element than it has commas, and no element contains a comma. |
| Marshalling.UnparseStringVector | turbo/flags/marshalling.cc:195-197 | The vector is written as its elements joined with ','. `StringVectorRoundTrip` and `StringVectorTextRoundTrip` state that it inverts the parser. |
| Marshalling.StringVectorTextRoundTrip | turbo/flags/marshalling.cc:149-197 | Parsing a text into a vector and unparsing it gives back the text. |
| Marshalling.StringVectorRoundTrip | turbo/flags/marshalling.cc:149-197 | Unparsing a vector of comma-free strings and parsing it again gives back the vector, except that [""] comes back as []. |
| Marshalling.DropK | turbo/flags/marshalling.cc:208 | One leading 'k' or 'K' is dropped, and nothing else changes. |
| Marshalling.SeverityByName | turbo/flags/marshalling.cc:209-224 | A name is found exactly when the text equals "info", "warning", "error" or "fatal" up to case, and the result is one of the four enumerators. |
| Marshalling.SeverityByNameMeaning | turbo/flags/marshalling.cc:209-224 | A text equal to the i-th name up to case gives the i-th enumerator. |
| Marshalling.ParseLogSeverity | turbo/flags/marshalling.cc:201-232 | Blank text fails with "no value provided". A name, after one optional 'k', gives its enumerator. Any other text takes the integer parser's result. Every other failure sets the "only integers …" message, and a failure never writes `*dst`. |
| Marshalling.ParsesAsNamedSeverity | turbo/flags/marshalling.cc:203-224 | Stripped text without its 'k' that equals the i-th name up to case parses as the i-th enumerator and leaves the error text alone. |
| Marshalling.NamedSeverityParses | turbo/flags/marshalling.cc:201-224 | Whitespace, an optional 'k' or 'K', a name in any case, then whitespace parses as that name's enumerator. |
| Marshalling.BlankSeverityRejected | turbo/flags/marshalling.cc:203-207 | All-whitespace text fails with "no value provided" and leaves `*dst` unchanged. |
| Usage.XmlEscape | turbo/flags/internal/usage.cc:77-98 | The escaped text is never shorter than the text. `UnescapeEscape` states that decoding it gives the text back. |
| Common.SplitBy | turbo/flags/marshalling.cc:157 | Splitting with empty pieces kept gives at least one piece, and no piece holds a separator. |
| Common.FlattenSplit | turbo/flags/internal/usage.cc:130 | The pieces of a split, written back to back, are the text with its separators removed, so splitting loses nothing else. |
| Usage.EscapeChar | turbo/flags/internal/usage.cc:78-97 | A special character becomes one of the five entities, and any other character is copied. |
| Usage.EscapedTextIsMarkupFree | turbo/flags/internal/usage.cc:77-98 | The escaped text contains no raw '<', '>', '"' or '\''. |
| Usage.AmpersandsBeginEntities | turbo/flags/internal/usage.cc:77-98 | Every '&' in the escaped text begins one of the five entities. |
| Usage.UnescapeEscape | turbo/flags/internal/usage.cc:77-98 | Decoding the five entities in the escaped text gives back the original text: escaping loses nothing. |
| Usage.SpecialCharGrows | turbo/flags/internal/usage.cc:78-97 | A character is special exactly when its escape is longer than one character. |
| Usage.EscapeKeepsExactlyPlainText | turbo/flags/internal/usage.cc:77-98 | Escaping leaves a text unchanged exactly when it has no special character; otherwise the text grows. |
| Usage.XmlEscapeConcat | turbo/flags/internal/usage.cc:77-98 | Escaping works character by character: the escape of `a + b` is the escape of `a` followed by that of `b`. |
| Usage.XmlElement | turbo/flags/internal/usage.cc:73-101 | The element is the escaped text plus the tag written twice and five characters of markup. |
| Usage.XmlElementDecodes | turbo/flags/internal/usage.cc:73-101 | The element is "<tag>", then a body, then "</tag>", and the body decodes to the text. |
| Usage.XmlElementExample | turbo/flags/internal/usage.cc:63-67 | `XMLElement("title", "Milk & Cookies")` is "<title>Milk &amp; Cookies</title>". |
| Usage.ColumnAfterConcat | turbo/flags/internal/usage.cc:144-168 | The column after `a + b` is the column after `b` started from the column after `a`. |
| Usage.StartLine | turbo/flags/internal/usage.cc:171-179 | The first line is indented by `min_line_len` and every later one by `min_line_len + wrapped_line_indent`. The indent is written as that many spaces, and `first_line` becomes false. |
| Usage.EndLine | turbo/flags/internal/usage.cc:180-183 | A newline is written and `line_len` becomes 0; nothing else changes. |
| Usage.WriteToken | turbo/flags/internal/usage.cc:144-168 | "\n" ends the line. Another token goes after one space on a non-empty line when `line_len + size < max_line_len`, which never exceeds `max_line_len`. If the line is full, the line is ended, a new line is started and the token written. On an empty line, a line is started and the token written. |
| Usage.Tokenize | turbo/flags/internal/usage.cc:128-142 | Without wrapping, the text is one token. With wrapping, every token is a word free of blanks and line breaks, or a "\n" separator. `TokenizeWrapped` states which tokens come out. |
| Usage.TokensOfLines | turbo/flags/internal/usage.cc:130-139 | Every token is a word or a "\n" separator, and the first is never a separator. |
| Usage.WordsSpellLine | turbo/flags/internal/usage.cc:136-138 | The words of a line, written back to back, are the line with its blanks and tabs removed. |
| Usage.TokensSpellLines | turbo/flags/internal/usage.cc:130-139 | The non-separator tokens of a list of lines, written back to back, are the lines' text without blanks and tabs. |
| Usage.TokensAreJoinedLines | turbo/flags/internal/usage.cc:130-139 | The tokens are each line's words with one "\n" between consecutive lines, except that separators before the first word are not pushed. |
| Usage.TokenizeWrapped | turbo/flags/internal/usage.cc:128-142 | With wrapping, the tokens are the lines split at '\n' and '\r', laid out as in `TokensAreJoinedLines`. Their non-separator tokens spell the text without ' ', '\t', '\n' and '\r', so no word is lost or invented. |
| Usage.Write | turbo/flags/internal/usage.cc:124-126 | Writing "" writes nothing and leaves the printer unchanged, and the layout parameters never change. |
| Usage.WriteTokens | turbo/flags/internal/usage.cc:144-168 | The layout parameters never change, and no tokens write nothing. `WriteTokensTracksColumn` states that `line_len` is the column the output has reached. |
| Usage.WriteTokenTracksColumn | turbo/flags/internal/usage.cc:144-168 | After a token the printer's `line_len` is the column the written output has reached. |
| Usage.WriteTokensTracksColumn | turbo/flags/internal/usage.cc:144-168 | The same holds after a whole sequence of tokens. |
| Usage.WriteTracksColumn | turbo/flags/internal/usage.cc:124-169 | After a wrapped `Write`, `line_len` is the column the output has reached. |
| Usage.DeduceUsageFlags | turbo/flags/internal/usage.cc:469-522 | An unrecognised name leaves the state unchanged. A recognised one sets a mode other than kNone. The format never changes, and the match substring changes only with kMatch. |
| Usage.DeduceRecognisesUsageFlags | turbo/flags/internal/usage.cc:469-522 | The call returns true exactly for help, helpmatch, helpon, helpfull, helpshort, helppackage, version and only_check_args. |
| Usage.DeduceModes | turbo/flags/internal/usage.cc:469-519 | help with an empty value sets kImportant. help=v and helpmatch=v set kMatch(v), and helpon=v sets kMatch("/" + v + "."). The other names set their own modes. |
| Usage.HandleUsageFlags | turbo/flags/internal/usage.cc:357-417 | The code is −1 exactly for kNone, 0 exactly for kVersion and kOnlyCheckArgs, and 1 exactly when a help report is written. A non-empty match substring is listed in human-readable format, and the version string is written only in kVersion when one is configured. |
| Usage.DeduceThenHandle | turbo/flags/internal/usage.cc:357-522 | After deducing from one argument, the code is −1 for an unrecognised name, 0 for version and only_check_args, and 1 for every help flag. |

## Left out

- `ExtendCrc32c` and the CRC32C polynomial are not part of this model. The per-byte update is a parameter, so the results hold for every update function.
- The x86-64 accelerated engines and their vector/integer lane counts have no bodies here. `__restrict` becomes a requirement that the two arrays are distinct objects, and alignment is not modelled.
- CrcMemcpy.FallbackEngineCompute: its frame conditions are stated with `old` and `modifies`, as fits a method over arrays.
- `safe_strtoi_base` is not part of this model. The integer parsers take it as a parameter that receives the stripped text and the base.
- Integer unparsing (`StrCat` of an integer), the `long`/`long long` parsers and their unsigned variants are left out. They are direct calls of `ParseFlagImpl` and `StrCat`, whose bodies are not part of this model.
- Floating-point parsing and `UnparseFloatingPointVal` are left out: floating point is out of scope.
- `TurboUnparseFlag(LogSeverity)` is left out because `NormalizeLogSeverity` and `LogSeverityName` are not part of this model.
- The body of `ApplySubstitutions` is defined in str_replace.cc, outside this model. `ReplaceFrom` states the result its documentation and examples promise.
- StrReplace.StrReplaceAll: the exact result is stated only for pair lists with distinct keys. With no viable substitution the text is unchanged for every pair list. Which of two identical viable keys wins is decided inside `ApplySubstitutions`, which is defined in str_replace.cc, outside this model. The `std::map` and initializer-list mappings of the examples have distinct keys.
- StrReplace.StrReplaceAllInPlace: the exact result and count are stated only for distinct keys, for the same reason. The early return of 0 holds for every pair list.
- StrReplace.ManyReplacementsExample: states the example's text, mapping and result through the constants `WhoText`, `WhoReps` and `WhoResult`. Their declarations spell out the literal strings.
- `FlagsHelpImpl`, `FlagsHelp` and `FlagHelpHumanReadable` walk the global flag registry and write to streams, so they are left out. `HandleUsageFlags` returns a description of the report it would write instead.
- The mutex-guarded help globals are a plain `HelpState` record passed in and returned. Locking is not modelled.
- The format enum `HelpFormat` has only `kHumanReadable`, so the format is a one-value type.
- Usage.Tokenize: follows the code, which pushes a "\n" separator only once a token exists. Leading empty lines therefore produce no line break. `TokenizeWrapped` states this layout exactly.
- CrcMemcpy.FallbackEngineCompute: the chunk schedule is stated on the functional mirror `Chunks`. The method's loop proves the copy and the checksum, but does not carry the list of chunks it has copied.
- Marshalling.ParseInt: `safe_strtoi_base` is not part of this model, so whether a failed parse writes `*dst` is left to the integer parser passed in.
