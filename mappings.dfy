/** `parseMappings` of src/App.js: decodes the "mappings" field of a source map
    into one record per segment, with the raw deltas, the resolved absolute
    positions, the decoded values after the fifth, and a canonicality flag. */
module Mappings {
  import opened Wrappers
  import opened Strings
  import Vlq

  /** The characters a mappings string may hold: the Base64 digits and the two separators. */
  predicate IsMappingsChar(c: char) {
    Vlq.IsBase64Char(c) || c == ',' || c == ';'
  }

  /** The structural pre-check `/^[A-Za-z0-9+/,;]*$/`.  Text that passes it
      holds no backslash, so un-escaping it again changes nothing. */
  predicate IsMappingsText(s: string)
    ensures IsMappingsText(s) ==> Unescape(s) == s
  {
    if forall i :: 0 <= i < |s| ==> IsMappingsChar(s[i]) then
      UnescapePlain(s);
      true
    else
      false
  }

  /** One decoded segment.  A field the segment does not supply is None
      (JavaScript's `undefined` or `null`). */
  datatype Mapping = Mapping(
    deltaGeneratedColumn: Option<int>,
    deltaSourceIndex: Option<int>,
    deltaOriginalLine: Option<int>,
    deltaOriginalColumn: Option<int>,
    deltaNameIndex: Option<int>,
    generatedLine: nat,
    generatedColumn: Option<int>,
    sourceIndex: Option<int>,
    originalLine: Option<int>,
    originalColumn: Option<int>,
    nameIndex: Option<int>,
    rest: seq<int>,
    valid: bool)

  /** The five running totals. */
  datatype Totals = Totals(
    generatedColumn: int,
    sourceIndex: int,
    originalLine: int,
    originalColumn: int,
    nameIndex: int)

  const INITIAL_TOTALS := Totals(0, 0, 0, 0, 0)

  /** Element `i`, or None past the end, as array destructuring gives `undefined`. */
  function At(vs: seq<int>, i: nat): Option<int> {
    if i < |vs| then Some(vs[i]) else None
  }

  /** The values after the fifth (`...rest`). */
  function Rest(vs: seq<int>): seq<int> {
    if |vs| > 5 then vs[5..] else []
  }

  /** The `valid` flag: a segment of one, four or five values that is its own
      canonical re-encoding. */
  predicate IsValidSegment(vs: seq<int>, segment: string) {
    (|vs| == 1 || |vs| == 4 || |vs| == 5) && Vlq.Encode(vs) == segment
  }

  /** The record as first built for a segment: deltas, line, rest and validity,
      with every absolute field still None.  A segment that does not decode (its
      last digit still carries the continuation bit) gets a record with every
      numeric field None and `valid` false. */
  function NewMapping(segment: string, generatedLine: nat): (m: Mapping)
    ensures m.generatedLine == generatedLine
    ensures m.generatedColumn.None? && m.sourceIndex.None? && m.originalLine.None? &&
            m.originalColumn.None? && m.nameIndex.None?
    ensures m.valid ==> Vlq.IsCanonical(segment)
    ensures Vlq.Decode(segment).None? ==>
      !m.valid && m.rest == [] && m.deltaGeneratedColumn.None? && m.deltaSourceIndex.None? &&
      m.deltaOriginalLine.None? && m.deltaOriginalColumn.None? && m.deltaNameIndex.None?
  {
    match Vlq.Decode(segment)
    case None =>
      Mapping(None, None, None, None, None, generatedLine,
              None, None, None, None, None, [], false)
    case Some(vs) =>
      Mapping(At(vs, 0), At(vs, 1), At(vs, 2), At(vs, 3), At(vs, 4), generatedLine,
              None, None, None, None, None, Rest(vs), IsValidSegment(vs, segment))
  }

  /** Applies an optional delta to a running total: the new total, and the
      absolute value to record (None when the delta is absent). */
  function Accumulate(total: int, delta: Option<int>): (r: (int, Option<int>))
    ensures r.1.Some? <==> delta.Some?
    ensures r.1.Some? ==> r.1.value == r.0
    ensures delta.None? ==> r.0 == total
    ensures delta.Some? ==> r.0 - total == delta.value
  {
    match delta
    case None => (total, None)
    case Some(d) => (total + d, Some(total + d))
  }

  /** Applies a built record's deltas to the running totals: the new totals and
      the record with its absolute fields filled in. */
  function Resolve(t: Totals, m: Mapping): (r: (Totals, Mapping))
    ensures r.1.(generatedColumn := None, sourceIndex := None, originalLine := None,
                 originalColumn := None, nameIndex := None)
         == m.(generatedColumn := None, sourceIndex := None, originalLine := None,
               originalColumn := None, nameIndex := None)
    ensures r.1.generatedColumn == (if m.deltaGeneratedColumn.None? then None else Some(r.0.generatedColumn))
    ensures r.1.sourceIndex == (if m.deltaSourceIndex.None? then None else Some(r.0.sourceIndex))
    ensures r.1.originalLine == (if m.deltaOriginalLine.None? then None else Some(r.0.originalLine))
    ensures r.1.originalColumn == (if m.deltaOriginalColumn.None? then None else Some(r.0.originalColumn))
    ensures r.1.nameIndex == (if m.deltaNameIndex.None? then None else Some(r.0.nameIndex))
  {
    var (generatedColumn, absGeneratedColumn) := Accumulate(t.generatedColumn, m.deltaGeneratedColumn);
    var (sourceIndex, absSourceIndex) := Accumulate(t.sourceIndex, m.deltaSourceIndex);
    var (originalLine, absOriginalLine) := Accumulate(t.originalLine, m.deltaOriginalLine);
    var (originalColumn, absOriginalColumn) := Accumulate(t.originalColumn, m.deltaOriginalColumn);
    var (nameIndex, absNameIndex) := Accumulate(t.nameIndex, m.deltaNameIndex);
    (Totals(generatedColumn, sourceIndex, originalLine, originalColumn, nameIndex),
     m.(generatedColumn := absGeneratedColumn, sourceIndex := absSourceIndex,
        originalLine := absOriginalLine, originalColumn := absOriginalColumn,
        nameIndex := absNameIndex))
  }

  /** The segments of one generated line, left to right, from totals `t`: the
      totals after them and their records.  Empty segments are skipped. */
  function ParseSegments(t: Totals, generatedLine: nat, segments: seq<string>): (r: (Totals, seq<Mapping>))
    ensures |r.1| <= |segments|
    ensures forall k :: 0 <= k < |r.1| ==> r.1[k].generatedLine == generatedLine
  {
    if segments == [] then (t, [])
    else
      var (before, records) := ParseSegments(t, generatedLine, segments[..|segments| - 1]);
      var segment := segments[|segments| - 1];
      if segment == [] then (before, records)
      else
        var (after, m) := Resolve(before, NewMapping(segment, generatedLine));
        (after, records + [m])
  }

  /** The generated lines, in order: each starts with the generated column reset
      to 0 and the other four totals carried over. */
  function ParseLines(lines: seq<string>): (r: (Totals, seq<Mapping>))
    ensures forall k :: 0 <= k < |r.1| ==> r.1[k].generatedLine < |lines|
  {
    if lines == [] then (INITIAL_TOTALS, [])
    else
      var (before, records) := ParseLines(lines[..|lines| - 1]);
      var (after, more) := ParseSegments(before.(generatedColumn := 0), |lines| - 1, Split(lines[|lines| - 1], ','));
      (after, records + more)
  }

  /** What `parseMappings` returns: None ("no mappings") when the un-escaped
      text holds a character outside the mappings alphabet, else the records. */
  function Parse(raw: string): (r: Option<seq<Mapping>>)
    ensures r.Some? <==> IsMappingsText(Unescape(raw))
    ensures r.Some? ==> forall k :: 0 <= k < |r.value| ==> r.value[k].generatedLine <= Count(Unescape(raw), ';')
  {
    var input := Unescape(raw);
    if IsMappingsText(input) then Some(ParseLines(Split(input, ';')).1) else None
  }

  /** The record literal of a segment (its deltas, line, rest and `valid`), built
      before any running total is applied. */
  method BuildMapping(segment: string, generatedLine: nat) returns (mapping: Mapping)
    ensures mapping == NewMapping(segment, generatedLine)
    ensures mapping.generatedLine == generatedLine
    ensures mapping.generatedColumn.None? && mapping.sourceIndex.None? && mapping.originalLine.None? &&
            mapping.originalColumn.None? && mapping.nameIndex.None?
    ensures Vlq.Decode(segment).Some? ==>
      var vs := Vlq.Decode(segment).value;
      mapping.deltaGeneratedColumn == At(vs, 0) && mapping.deltaSourceIndex == At(vs, 1) &&
      mapping.deltaOriginalLine == At(vs, 2) && mapping.deltaOriginalColumn == At(vs, 3) &&
      mapping.deltaNameIndex == At(vs, 4) && mapping.rest == Rest(vs) &&
      mapping.valid == ((|vs| == 1 || |vs| == 4 || |vs| == 5) && Vlq.Encode(vs) == segment)
    ensures Vlq.Decode(segment).None? ==>
      !mapping.valid && mapping.rest == [] && mapping.deltaGeneratedColumn.None? &&
      mapping.deltaSourceIndex.None? && mapping.deltaOriginalLine.None? &&
      mapping.deltaOriginalColumn.None? && mapping.deltaNameIndex.None?
  {
    var decoded := Vlq.Decode(segment);
    match decoded {
      case None =>
        mapping := Mapping(None, None, None, None, None, generatedLine,
                           None, None, None, None, None, [], false);
      case Some(vs) =>
        var valid := (|vs| == 1 || |vs| == 4 || |vs| == 5) && Vlq.Encode(vs) == segment;
        mapping := Mapping(At(vs, 0), At(vs, 1), At(vs, 2), At(vs, 3), At(vs, 4), generatedLine,
                           None, None, None, None, None, Rest(vs), valid);
    }
  }

  /** Adds a record's present deltas to the five running totals and stores each
      new total in the record's absolute field; an absent delta leaves its total
      alone and its absolute field None. */
  method ApplyDeltas(generatedColumn: int, sourceIndex: int, originalLine: int, originalColumn: int,
                     nameIndex: int, mapping: Mapping)
    returns (newGeneratedColumn: int, newSourceIndex: int, newOriginalLine: int, newOriginalColumn: int,
             newNameIndex: int, resolved: Mapping)
    ensures (Totals(newGeneratedColumn, newSourceIndex, newOriginalLine, newOriginalColumn, newNameIndex), resolved)
      == Resolve(Totals(generatedColumn, sourceIndex, originalLine, originalColumn, nameIndex), mapping)
  {
    newGeneratedColumn, newSourceIndex, newOriginalLine, newOriginalColumn, newNameIndex :=
      generatedColumn, sourceIndex, originalLine, originalColumn, nameIndex;
    var absGeneratedColumn, absSourceIndex, absOriginalLine, absOriginalColumn, absNameIndex
      := None, None, None, None, None;
    if mapping.deltaGeneratedColumn.Some? {
      newGeneratedColumn := newGeneratedColumn + mapping.deltaGeneratedColumn.value;
      absGeneratedColumn := Some(newGeneratedColumn);
    }
    if mapping.deltaSourceIndex.Some? {
      newSourceIndex := newSourceIndex + mapping.deltaSourceIndex.value;
      absSourceIndex := Some(newSourceIndex);
    }
    if mapping.deltaOriginalLine.Some? {
      newOriginalLine := newOriginalLine + mapping.deltaOriginalLine.value;
      absOriginalLine := Some(newOriginalLine);
    }
    if mapping.deltaOriginalColumn.Some? {
      newOriginalColumn := newOriginalColumn + mapping.deltaOriginalColumn.value;
      absOriginalColumn := Some(newOriginalColumn);
    }
    if mapping.deltaNameIndex.Some? {
      newNameIndex := newNameIndex + mapping.deltaNameIndex.value;
      absNameIndex := Some(newNameIndex);
    }
    resolved := mapping.(generatedColumn := absGeneratedColumn, sourceIndex := absSourceIndex,
                         originalLine := absOriginalLine, originalColumn := absOriginalColumn,
                         nameIndex := absNameIndex);
  }

  /** The segment loop of one generated line: each non-empty segment is built
      into a record, completed from the running totals and pushed onto
      `mappings`; empty segments are skipped. */
  method ParseLine(t: Totals, generatedLine: nat, segments: seq<string>, mappings: seq<Mapping>)
    returns (after: Totals, pushed: seq<Mapping>)
    ensures after == ParseSegments(t, generatedLine, segments).0
    ensures pushed == mappings + ParseSegments(t, generatedLine, segments).1
  {
    var generatedColumn, sourceIndex, originalLine, originalColumn, nameIndex :=
      t.generatedColumn, t.sourceIndex, t.originalLine, t.originalColumn, t.nameIndex;
    pushed := mappings;
    for si := 0 to |segments|
      invariant ParseSegments(t, generatedLine, segments[..si]).0 ==
        Totals(generatedColumn, sourceIndex, originalLine, originalColumn, nameIndex)
      invariant pushed == mappings + ParseSegments(t, generatedLine, segments[..si]).1
    {
      assert segments[..si + 1][..si] == segments[..si];
      var segment := segments[si];
      if segment == [] {
        continue;
      }
      var mapping := BuildMapping(segment, generatedLine);
      generatedColumn, sourceIndex, originalLine, originalColumn, nameIndex, mapping :=
        ApplyDeltas(generatedColumn, sourceIndex, originalLine, originalColumn, nameIndex, mapping);
      pushed := pushed + [mapping];
    }
    assert segments[..|segments|] == segments;
    after := Totals(generatedColumn, sourceIndex, originalLine, originalColumn, nameIndex);
  }

  /** `parseMappings` as the source runs it: running totals updated in nested
      loops over the `;` groups and the `,` segments, each record built and
      then completed with its absolute fields. */
  method ParseMappings(raw: string) returns (result: Option<seq<Mapping>>)
    ensures result == Parse(raw)
    ensures result.None? <==> !IsMappingsText(Unescape(raw))
  {
    var input := Unescape(raw);
    if !IsMappingsText(input) {
      return None;
    }
    var mappings: seq<Mapping> := [];
    var generatedColumn, sourceIndex, originalLine, originalColumn, nameIndex := 0, 0, 0, 0, 0;
    var generatedLine: nat := 0;
    var lines := Split(input, ';');
    for li := 0 to |lines|
      invariant generatedLine == li
      invariant ParseLines(lines[..li]) ==
        (Totals(generatedColumn, sourceIndex, originalLine, originalColumn, nameIndex), mappings)
    {
      generatedColumn := 0;
      var after;
      after, mappings := ParseLine(Totals(generatedColumn, sourceIndex, originalLine, originalColumn, nameIndex),
                                   generatedLine, Split(lines[li], ','), mappings);
      generatedColumn, sourceIndex, originalLine, originalColumn, nameIndex :=
        after.generatedColumn, after.sourceIndex, after.originalLine, after.originalColumn, after.nameIndex;
      assert lines[..li + 1][..li] == lines[..li];
      assert ParseLines(lines[..li + 1]) == (after, mappings);
      generatedLine := generatedLine + 1;
    }
    assert lines[..|lines|] == lines;
    return Some(mappings);
  }
}
