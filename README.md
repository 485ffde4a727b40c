# Source map "mappings" decoder, modelled in Dafny

This project models the core of a small source-map inspection tool: the
function `parseMappings` (src/App.js:228-302), which decodes the `mappings`
field of a Source Map Revision 3 document (ECMA-426) into one record per
segment, together with the Base64 VLQ codec it imports from the `vlq` package
(src/App.js:5) and the two value helpers `formatValue` and `addNonNull`
(src/App.js:318-330).

`parseMappings` first replaces every `\/` with `/`. Then it checks that the
text uses only `A-Z a-z 0-9 + / , ;`. If not, it returns nothing: the "no
mappings" result, modelled as `None`. Otherwise it splits the text at `;` into
generated lines and each line at `,` into segments. It skips empty segments
and decodes each non-empty one as a sequence of VLQ integers. It keeps five
running totals: generated column, source index, original line, original
column and name index. The generated column restarts at 0 on every line. The
other four persist across lines, and each changes only when a segment supplies
its delta. Every record carries:

- its generated line;
- the five deltas as decoded;
- the five absolute values, each `None` where its delta is absent;
- the decoded values after the fifth (`rest`);
- `valid`: the segment holds one, four or five values and is its own
  canonical re-encoding.

Files and modules:

- `wrappers.dfy` (`Wrappers`): `Option`.
- `vlq.dfy` (`Vlq`): the Base64 alphabet, `Encode`/`Decode` and their
  round trip, canonicality, and exactly when decoding fails.
- `strings.dfy` (`Strings`): JavaScript `split`/`join` with one-character
  separators, and the `\/` un-escaping, with their algebra.
- `mappings.dfy` (`Mappings`): the record and totals datatypes and the
  functional definition `Parse`. Also the imperative `ParseMappings`:
  nested loops over the `;` groups and `,` segments with the running totals
  as local variables, proved equal to `Parse`. Three methods hold the pieces
  of the loop: `ParseLine` is the segment loop of one line
  (src/App.js:242-297), `BuildMapping` is the record literal
  (src/App.js:246-277), and `ApplyDeltas` is the delta application
  (src/App.js:279-294).
- `mapping_properties.dfy` (`MappingProperties`): what the records promise.
  There is one record per non-empty segment, in document order. Its
  generated line is the number of `;` before it. Its absolute fields equal
  sums of the deltas so far, in closed form. `valid` means canonical.
- `roundtrip.dfy` (`MappingsRoundTrip`): a mappings string written
  from tuples parses back to exactly those tuples, line by line.
- `display.dfy` (`Display`): `formatValue` with an inverse that reads a cell
  back, and `addNonNull` with the way start offsets compose.

Choices where the code does not decide:

- The `vlq` package's source is not part of this model. The codec follows
  the Base64 VLQ rules of Source Map Revision 3.
- A segment whose last digit still carries the continuation bit cannot be
  decoded. Its record has every numeric field `None` and `valid` false, and
  the running totals do not change. The same holds for a character outside
  the alphabet, although the pre-check already rules those out.
- The unsigned value 1 ("negative zero", the segment `B`) decodes to 0. Its
  re-encoding is `A`, so such a segment is never valid.
- The empty input passes the pre-check, so `parseMappings` returns an empty
  list, not the "no mappings" result. Showing nothing for an empty input is
  the renderer's job (src/App.js:115-117).
- Integers are unbounded.

## Model

| member | source | states |
|---|---|---|
| `Mappings.ParseMappings` | src/App.js:228-302 | The loop's result equals `Parse(raw)`. It is `None` exactly when the un-escaped text holds a character outside the mappings alphabet. |
| `Mappings.ParseLine` | src/App.js:242-297 | One line's segment loop leaves the totals at `ParseSegments`' totals. It pushes exactly that line's records onto the list. |
| `Mappings.BuildMapping` | src/App.js:246-277 | Builds the record literal: the line, every absolute field null, and the deltas as the first five decoded values. `rest` holds the values after the fifth. `valid` is the 1/4/5 length test plus the re-encoding test. A segment that fails to decode gets no numeric field and `valid` false. The result equals `NewMapping`, whose properties `DeltasVerbatim` and `TupleListed` state. |
| `Mappings.ApplyDeltas` | src/App.js:279-294 | Each present delta is added to its running total, and the new total is stored in the record. An absent delta leaves its total alone and its field null. Together this equals `Resolve`. |
| `Mappings.Parse` | src/App.js:228-302 | The functional `parseMappings`. A list is returned exactly when the un-escaped text passes the pre-check, and no record's line exceeds the number of `;` in the text. `OneRecordPerSegment`, `RunningTotals` and `ParseEncodeMappings` state the rest. |
| `Mappings.IsMappingsText` | src/App.js:229-230 | The pre-check `/^[A-Za-z0-9+/,;]*$/`, character by character. Text that passes it holds no `\/` left to un-escape, so un-escaping it again changes nothing. |
| `Mappings.NewMapping` | src/App.js:246-277 | The record as first built: it carries its line and has every absolute field null. `valid` implies the segment is canonical. A segment that fails to decode gives no deltas, an empty `rest` and `valid` false. |
| `Mappings.Accumulate` | src/App.js:279-294 | One `if (delta != null)` update. The absolute value is present exactly when the delta is, and then equals the new total. An absent delta leaves the total alone, and a present one changes it by exactly that delta. |
| `Mappings.Resolve` | src/App.js:279-294 | Only the five absolute fields of the record change. Each becomes the new running total when its delta is present, and stays null otherwise. |
| `Mappings.ParseSegments` | src/App.js:242-297 | One line gives at most one record per `,`-piece, and every record carries that line's index. |
| `Mappings.ParseLines` | src/App.js:240-299 | Every record's generated line is the index of an existing `;`-group. |
| `MappingProperties.ParseResultShape` | src/App.js:229-301 | The result is "no mappings" exactly when a disallowed character remains after un-escaping. This is `Parse`'s definition with the pre-check spelled out, because the source promises nothing more. `""` gives an empty list. |
| `MappingProperties.SeparatorsOnly` | src/App.js:240-245 | `";;"` gives an empty list, not "no mappings": all its segments are empty and skipped. |
| `MappingProperties.OneRecordPerSegment` | src/App.js:240-299 | There is exactly one record per non-empty `,`-segment, in document order. Each record is what its own segment decodes to, tagged with its `;`-group index. |
| `MappingProperties.RecordsOrderedByLine` | src/App.js:240-298 | Records appear in non-decreasing generated-line order. |
| `MappingProperties.GeneratedLineCountsSeparators` | src/App.js:239-298 | The text before a record's group ends with `;` and holds exactly `generatedLine` of them. Record `k`'s segment is the `,`-piece at some index `j` of that group. The non-empty segments of earlier groups plus the non-empty pieces before `j` number exactly `k`. |
| `MappingProperties.SegmentPosition` | src/App.js:240-297 | Tagged segment `k` is the piece at some index `j` of its group. The non-empty segments before it, in earlier groups and before `j` in its own, number exactly `k`. |
| `MappingProperties.PieceOfLine` | src/App.js:242-245 | Within one group, tagged segment `idx` is the piece at some index `j`, and exactly `idx` non-empty pieces come before it. |
| `MappingProperties.RunningTotals` | src/App.js:234-294 | Source index, original line, original column and name index each equal the sum of that field's supplied deltas up to this record. The generated column sums only over this record's line. Each absolute field is null exactly when its own delta is absent. |
| `MappingProperties.LinesAccount` | src/App.js:240-299 | After any number of lines, the totals equal the sums of all supplied deltas. Every record is resolved as `RunningTotals` states. |
| `MappingProperties.SegmentsAccount` | src/App.js:242-297 | Processing one line's segments keeps the totals accounted for. Every record of that line carries that line's index. |
| `MappingProperties.ColumnSumOfNewLine` | src/App.js:241 | No earlier record lies on a new line, so its generated-column sum starts at 0. This matches the reset. |
| `MappingProperties.AccountsAppend` | src/App.js:279-296 | Resolving one more record and pushing it keeps every total equal to its sum of deltas. |
| `MappingProperties.ResolveEffect` | src/App.js:279-294 | Each total grows by its delta when present. The absolute field is the new total, or null when the delta is absent. Deltas, line, `rest` and `valid` are untouched. |
| `MappingProperties.SegmentsRecords` | src/App.js:242-297 | The records of one line are those of its non-empty segments, in order. |
| `MappingProperties.LinesRecords` | src/App.js:240-299 | The records of all lines are those of all non-empty segments, in order. |
| `MappingProperties.LineSegmentsShape` | src/App.js:242-245 | Every tagged segment of a line is non-empty, comes from that line, and carries that line's index. |
| `MappingProperties.SegmentsOfShape` | src/App.js:240-298 | Tagged segments come from real groups, are non-empty, and have non-decreasing group index. |
| `MappingProperties.DeltasVerbatim` | src/App.js:254-275 | The five deltas are the first five decoded values, present exactly when decoded. `rest` is the values after the fifth. Reading the record back gives the decoded sequence. |
| `MappingProperties.TupleListed` | src/App.js:254-261 | Destructuring into five deltas and `...rest` loses no value and reorders nothing. |
| `MappingProperties.TruncatedSegment` | src/App.js:246-261 | A non-empty Base64 segment fails to decode exactly when its last digit carries the continuation bit. Its record then has no numeric field and is invalid. |
| `MappingProperties.EncodedTupleIsValid` | src/App.js:247-252 | Every 1-, 4- or 5-tuple, once encoded, is a valid segment whose record carries exactly that tuple. |
| `MappingProperties.ValidRecordIsEncoding` | src/App.js:247-252 | A valid record's values number 1, 4 or 5. They re-encode to the segment text and decode from it. |
| `MappingProperties.ValidIffCanonical` | src/App.js:247-252 | For a segment of 1, 4 or 5 values, `valid` is exactly `encode(decode(seg)) == seg`. |
| `MappingsRoundTrip.ParseEncodeMappings` | src/App.js:228-302 | Parsing text written from tuples, with groups joined by `;` and segments by `,`, gives one record per tuple, in order and on the tuple's line, carrying the tuple. A record is valid exactly when its tuple has 1, 4 or 5 values. |
| `MappingsRoundTrip.MappingsText` | src/App.js:229-240 | Such text passes the pre-check, is unchanged by un-escaping, and splits at `;` into its lines. |
| `MappingsRoundTrip.LineText` | src/App.js:242 | A written line splits at `,` back into its encoded segments. |
| `Vlq.EncodeInteger` | src/App.js:252 | One integer's encoding is non-empty Base64. Every digit but the last carries the continuation bit, and the last does not. |
| `Vlq.IsCanonical` | src/App.js:252 | The test `encode(decoded) === columnMapping`. Canonical text is Base64 and ends in a digit without the continuation bit. `CanonicalIffEncoding` states that it holds exactly for encodings. |
| `Vlq.Decode` | src/App.js:5 | A successful decode yields at most one value per character, and yields none only for empty text. |
| `Vlq.DecodeDigits` | src/App.js:5 | One value uses between 1 and all of the remaining characters, all of them Base64. |
| `Vlq.Encode` | src/App.js:5 | The encoding is Base64 text, at least one character per value, and empty only for the empty sequence. A non-empty encoding ends in a digit without the continuation bit. |
| `Vlq.EncodeDigits` | src/App.js:5 | An unsigned value gives at least one digit. Every digit but the last carries the continuation bit, and the last does not. |
| `Vlq.ToVlqSigned` | src/App.js:5 | The sign is the low bit: odd exactly for negative values. |
| `Vlq.FromVlqSigned` | src/App.js:5 | Even values read as non-negative and odd ones as non-positive. The result is 0 exactly for 0 and "negative zero" 1. |
| `Vlq.FromToVlqSigned` | src/App.js:5 | The sign transform round-trips on every integer. |
| `Vlq.Base64Value` | src/App.js:5 | A Base64 character's digit is below 64 and maps back to that character. |
| `Vlq.DecodeDigitsOfEncoding` | src/App.js:5 | Reading back an unsigned value's digits gives the value and stops exactly after its digits. |
| `Vlq.DecodeEncode` | src/App.js:5 | `decode(encode(vs)) == vs` for every integer sequence. |
| `Vlq.EncodeInjective` | src/App.js:5 | Different sequences have different encodings. |
| `Vlq.CanonicalIffEncoding` | src/App.js:252 | A segment passes the re-encoding check exactly when it is the encoding of some sequence. |
| `Vlq.NonCanonicalZeros` | src/App.js:252 | `B` (negative zero) and `gA` (redundant zero digit) both decode to `[0]`, and neither passes the re-encoding check. |
| `Vlq.DecodeFailsIff` | src/App.js:5 | Decoding fails exactly on a non-Base64 character or a final digit that carries the continuation bit. |
| `Vlq.DecodeDigitsShape` | src/App.js:5 | On Base64 text, reading one value fails exactly when every digit continues. Otherwise it stops after the first digit that does not. |
| `Vlq.DecodeStopsAt` | src/App.js:5 | A non-Base64 character anywhere makes decoding fail. |
| `Strings.Split` | src/App.js:240-242 | `split` yields one piece more than there are separators, and no piece holds the separator. |
| `Strings.Join` | src/App.js:240-242 | `join` starts with the first piece. `JoinSplit`, `SplitJoin` and `CountJoin` make it the inverse of `split`. |
| `Strings.CountJoin` | src/App.js:240-242 | Joining separator-free pieces puts exactly one separator between neighbours. |
| `Strings.JoinSplit` | src/App.js:240-242 | Joining the pieces of a split restores the text. |
| `Strings.SplitJoin` | src/App.js:240-242 | Splitting a join of separator-free pieces restores the pieces. |
| `Strings.TextBeforePiece` | src/App.js:240 | The text before piece `i` ends with the separator and holds exactly `i` separators. The text is that prefix followed by the remaining pieces joined. |
| `Strings.Unescape` | src/App.js:229 | Un-escaping never lengthens the text. |
| `Strings.EscapeSlashes` | src/App.js:229 | Escaping adds exactly one character per `/`. |
| `Strings.UnescapeEscape` | src/App.js:229 | Un-escaping undoes the JSON escaping of `/` on every text. |
| `Strings.UnescapePlain` | src/App.js:229 | Text without a backslash is left unchanged. |
| `Display.FormatValue` | src/App.js:318-323 | The result is `-` exactly for a missing value. |
| `Display.IntToString` | src/App.js:322 | `String(a)` for an integer. A negative value gives `-` and then digits that start with a non-zero digit. A non-negative value gives digits only, starting with `0` only for 0. |
| `Display.NatToString` | src/App.js:322 | Decimal digits, at least one, with no leading zero. |
| `Display.DecimalValueOfNat` | src/App.js:322 | The decimal digits read back as the number. |
| `Display.ReadFormatValue` | src/App.js:318-323 | Every formatted cell reads back as the value it shows, missing or numeric. |
| `Display.FormatValueInjective` | src/App.js:318-323 | Distinct values never share a cell text. |
| `Display.AddNonNull` | src/App.js:325-330 | The result is present exactly when both arguments are. It then exceeds the offset by exactly the value. |
| `Display.AddNonNullIdentity` | src/App.js:325-330 | With the default start offset 0 the value shows unchanged. A missing value stays missing whatever the offset. |
| `Display.AddNonNullShift` | src/App.js:325-330 | Start offsets compose by addition, and the opposite offset gives back the parsed value. |
| `Display.OffsetCell` | src/App.js:185-208 | A cell with a start offset shows `-` exactly when the parsed value is missing. Otherwise it reads back as offset plus value. |

## Left out

- The React components `App`, `OutputRenderer`, `MappingsRenderer`, `StartOffsetInput`, the table markup and the styles object (src/App.js:8-226, 304-316): presentation only.
- Session-storage persistence of the input, the "absolute" toggle and the start offsets (src/App.js:61, 98-114): browser state and I/O.
- The absolute/relative toggle and the generated-line offset at render time (src/App.js:182-213): display only. The column and line offsets in cells, `addNonNull` then `formatValue`, are modelled by `Display.OffsetCell`.
- `useMemo` recomputation (src/App.js:97): framework plumbing. The model is a function of the input string.
- The `Number.isInteger` test in `valid` (src/App.js:251): every decoded value is a Dafny `int`, so the test always passes.
- Vlq.Decode: on a segment whose last digit carries the continuation bit, the `vlq` package's own behaviour is not visible. The model's decode failure, which makes an invalid record, is a documented choice and is not claimed to match the package.
- Vlq.FromVlqSigned: the `vlq` package's result for "negative zero" is not visible. The model reads it as 0, so fidelity there is not claimed either.
- Vlq.Encode: JavaScript's 32-bit `<<`/`>>>` in the `vlq` package and double-precision numbers are not modelled. Totals, deltas and the codec use unbounded integers, so values beyond 32 bits differ from the source's wrap-around.
- Mappings.ApplyDeltas: JavaScript's `generatedColumn += undefined` (NaN) cannot arise. In the model a present segment either decodes to at least one value or fails as a whole and changes no total.
- Display.NatToString: `String(n)` switches to exponent notation from 10^21 on. The model always writes plain decimal digits.
- Display.AddNonNull: JavaScript's NaN start offset, from an emptied number box, is not modelled. Offsets are integers.
