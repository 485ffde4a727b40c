/** What `parseMappings` promises about its records, proved of the model in
    module Mappings: one record per non-empty segment in document order, the
    generated line of each, the running totals in closed form, and what the
    `valid` flag means. */
module MappingProperties {
  import opened Wrappers
  import opened Strings
  import Vlq
  import opened Mappings

  // ---------------------------------------------------------------------
  // Reference definitions
  // ---------------------------------------------------------------------

  /** The four fields whose running totals persist across generated lines. */
  datatype Field = SourceIndex | OriginalLine | OriginalColumn | NameIndex

  function Delta(m: Mapping, f: Field): Option<int> {
    match f
    case SourceIndex => m.deltaSourceIndex
    case OriginalLine => m.deltaOriginalLine
    case OriginalColumn => m.deltaOriginalColumn
    case NameIndex => m.deltaNameIndex
  }

  function Absolute(m: Mapping, f: Field): Option<int> {
    match f
    case SourceIndex => m.sourceIndex
    case OriginalLine => m.originalLine
    case OriginalColumn => m.originalColumn
    case NameIndex => m.nameIndex
  }

  function Total(t: Totals, f: Field): int {
    match f
    case SourceIndex => t.sourceIndex
    case OriginalLine => t.originalLine
    case OriginalColumn => t.originalColumn
    case NameIndex => t.nameIndex
  }

  function OrZero(d: Option<int>): int {
    match d
    case None => 0
    case Some(v) => v
  }

  /** The sum of the deltas of field `f` that the records supply. */
  function SumDeltas(rs: seq<Mapping>, f: Field): int {
    if rs == [] then 0 else SumDeltas(rs[..|rs| - 1], f) + OrZero(Delta(rs[|rs| - 1], f))
  }

  /** The sum of the generated-column deltas of the records on generated line `line`. */
  function SumColumnDeltas(rs: seq<Mapping>, line: nat): int {
    if rs == [] then 0
    else
      var m := rs[|rs| - 1];
      SumColumnDeltas(rs[..|rs| - 1], line) + (if m.generatedLine == line then OrZero(m.deltaGeneratedColumn) else 0)
  }

  /** Record `k` holds, in each absolute field, the sum of that field's deltas
      over records 0..k (for the generated column: over those of its own
      generated line), and None exactly where its own delta is absent. */
  ghost predicate IsResolvedAt(rs: seq<Mapping>, k: nat)
    requires k < |rs|
  {
    (forall f :: Absolute(rs[k], f) ==
       (if Delta(rs[k], f).None? then None else Some(SumDeltas(rs[..k + 1], f)))) &&
    rs[k].generatedColumn ==
      (if rs[k].deltaGeneratedColumn.None? then None
       else Some(SumColumnDeltas(rs[..k + 1], rs[k].generatedLine)))
  }

  /** The record with its absolute fields cleared: what the source builds before
      applying the running totals. */
  function Unresolved(m: Mapping): Mapping {
    m.(generatedColumn := None, sourceIndex := None, originalLine := None,
       originalColumn := None, nameIndex := None)
  }

  /** The non-empty segments of one group, tagged with the group's index. */
  function LineSegments(line: nat, segments: seq<string>): seq<(nat, string)> {
    if segments == [] then []
    else
      var last := segments[|segments| - 1];
      LineSegments(line, segments[..|segments| - 1]) + (if last == [] then [] else [(line, last)])
  }

  /** The non-empty segments of all groups, in document order, each tagged with
      the index of its `;`-group. */
  function SegmentsOf(lines: seq<string>): seq<(nat, string)> {
    if lines == [] then []
    else SegmentsOf(lines[..|lines| - 1]) + LineSegments(|lines| - 1, Split(lines[|lines| - 1], ','))
  }

  /** The values a record carries, in decoded order: its deltas up to the first
      absent one, then `rest`. */
  function Listed(m: Mapping): seq<int> {
    PresentPrefix([m.deltaGeneratedColumn, m.deltaSourceIndex, m.deltaOriginalLine,
                   m.deltaOriginalColumn, m.deltaNameIndex]) + m.rest
  }

  function PresentPrefix(ds: seq<Option<int>>): seq<int> {
    if ds == [] || ds[0].None? then [] else [ds[0].value] + PresentPrefix(ds[1..])
  }

  // ---------------------------------------------------------------------
  // One segment
  // ---------------------------------------------------------------------

  /** The deltas are the first five decoded values copied verbatim, present
      exactly when the segment holds that many values; `rest` is everything
      after the fifth; nothing is lost. */
  lemma DeltasVerbatim(segment: string, line: nat)
    requires Vlq.Decode(segment).Some?
    ensures var vs := Vlq.Decode(segment).value;
      var m := NewMapping(segment, line);
      Listed(m) == vs &&
      m.deltaGeneratedColumn == (if |vs| > 0 then Some(vs[0]) else None) &&
      m.deltaSourceIndex == (if |vs| > 1 then Some(vs[1]) else None) &&
      m.deltaOriginalLine == (if |vs| > 2 then Some(vs[2]) else None) &&
      m.deltaOriginalColumn == (if |vs| > 3 then Some(vs[3]) else None) &&
      m.deltaNameIndex == (if |vs| > 4 then Some(vs[4]) else None) &&
      m.rest == (if |vs| > 5 then vs[5..] else []) &&
      m.generatedLine == line
  {
    var vs := Vlq.Decode(segment).value;
    assert NewMapping(segment, line) ==
      Mapping(At(vs, 0), At(vs, 1), At(vs, 2), At(vs, 3), At(vs, 4), line,
              None, None, None, None, None, Rest(vs), IsValidSegment(vs, segment));
    TupleListed(vs);
  }

  /** Destructuring a decoded tuple into five optional deltas and `rest` loses nothing. */
  lemma TupleListed(vs: seq<int>)
    ensures PresentPrefix([At(vs, 0), At(vs, 1), At(vs, 2), At(vs, 3), At(vs, 4)]) + Rest(vs) == vs
  {
    var ds := [At(vs, 0), At(vs, 1), At(vs, 2), At(vs, 3), At(vs, 4)];
    if |vs| >= 5 {
      PresentPrefixOf(ds, vs[..5]);
      assert vs[..5] + vs[5..] == vs;
    } else {
      PresentPrefixOf(ds, vs);
    }
  }

  /** The present prefix of options that spell out `vs` and then stop. */
  lemma {:induction false} PresentPrefixOf(ds: seq<Option<int>>, vs: seq<int>)
    requires |vs| <= |ds|
    requires forall i :: 0 <= i < |vs| ==> ds[i] == Some(vs[i])
    requires |vs| < |ds| ==> ds[|vs|].None?
    ensures PresentPrefix(ds) == vs
  {
    if vs != [] {
      PresentPrefixOf(ds[1..], vs[1..]);
      assert vs == [vs[0]] + vs[1..];
    }
  }

  /** A non-empty segment of Base64 digits fails to decode exactly when its last
      digit carries the continuation bit; its record then has no numeric field
      and is not valid.  Otherwise the generated-column delta is present. */
  lemma TruncatedSegment(segment: string, line: nat)
    requires segment != [] && Vlq.IsBase64(segment)
    ensures var m := NewMapping(segment, line);
      (m.deltaGeneratedColumn.None? <==> Vlq.IsContinuation(segment[|segment| - 1])) &&
      (m.deltaGeneratedColumn.None? ==>
         !m.valid && Listed(m) == [] && m.deltaSourceIndex.None? && m.deltaOriginalLine.None? &&
         m.deltaOriginalColumn.None? && m.deltaNameIndex.None?)
  {
    Vlq.DecodeFailsIff(segment);
  }

  /** Every one-, four- or five-value tuple, encoded, is a valid segment whose
      record carries exactly that tuple. */
  lemma EncodedTupleIsValid(vs: seq<int>, line: nat)
    requires |vs| == 1 || |vs| == 4 || |vs| == 5
    ensures var m := NewMapping(Vlq.Encode(vs), line); m.valid && Listed(m) == vs
  {
    Vlq.DecodeEncode(vs);
    DeltasVerbatim(Vlq.Encode(vs), line);
  }

  /** A valid record's values re-encode to its segment and decode from it: the
      segment is the canonical encoding of a one-, four- or five-value tuple. */
  lemma ValidRecordIsEncoding(segment: string, line: nat)
    requires NewMapping(segment, line).valid
    ensures var m := NewMapping(segment, line);
      var vs := Listed(m);
      (|vs| == 1 || |vs| == 4 || |vs| == 5) && Vlq.Encode(vs) == segment &&
      Vlq.Decode(segment) == Some(vs) && Vlq.IsCanonical(segment)
  {
    DeltasVerbatim(segment, line);
  }

  /** For a segment that decodes to one, four or five values, `valid` is the
      canonicality check and nothing else. */
  lemma ValidIffCanonical(segment: string, line: nat)
    requires Vlq.Decode(segment).Some?
    requires var n := |Vlq.Decode(segment).value|; n == 1 || n == 4 || n == 5
    ensures NewMapping(segment, line).valid <==> Vlq.IsCanonical(segment)
  {
  }

  // ---------------------------------------------------------------------
  // Running totals
  // ---------------------------------------------------------------------

  /** What Resolve does to one record and the totals. */
  lemma ResolveEffect(t: Totals, m: Mapping)
    ensures Unresolved(Resolve(t, m).1) == Unresolved(m)
    ensures forall f :: Total(Resolve(t, m).0, f) == Total(t, f) + OrZero(Delta(m, f))
    ensures forall f ::
      Absolute(Resolve(t, m).1, f) == (if Delta(m, f).None? then None else Some(Total(Resolve(t, m).0, f)))
    ensures Resolve(t, m).0.generatedColumn == t.generatedColumn + OrZero(m.deltaGeneratedColumn)
    ensures Resolve(t, m).1.generatedColumn ==
      (if m.deltaGeneratedColumn.None? then None else Some(Resolve(t, m).0.generatedColumn))
  {
    var after := Resolve(t, m).0;
    var r := Resolve(t, m).1;
    forall f ensures Total(after, f) == Total(t, f) + OrZero(Delta(m, f))
      && Absolute(r, f) == if Delta(m, f).None? then None else Some(Total(after, f))
    {
      match f
      case SourceIndex =>
      case OriginalLine =>
      case OriginalColumn =>
      case NameIndex =>
    }
  }

  /** The totals account for the records so far: the persistent totals are the
      sums of the supplied deltas, the generated column is the sum over the
      current line, and every record is resolved. */
  ghost predicate Accounts(t: Totals, rs: seq<Mapping>, line: nat) {
    (forall f :: Total(t, f) == SumDeltas(rs, f)) &&
    t.generatedColumn == SumColumnDeltas(rs, line) &&
    (forall k :: 0 <= k < |rs| ==> rs[k].generatedLine <= line && IsResolvedAt(rs, k))
  }

  /** A resolved record stays resolved when records are appended after it. */
  lemma ResolvedAtExtend(rs: seq<Mapping>, extra: seq<Mapping>, k: nat)
    requires k < |rs| && IsResolvedAt(rs, k)
    ensures IsResolvedAt(rs + extra, k)
  {
    assert (rs + extra)[..k + 1] == rs[..k + 1];
    assert (rs + extra)[k] == rs[k];
  }

  /** Appending a resolved record to an accounted prefix keeps it accounted. */
  lemma AccountsAppend(t: Totals, rs: seq<Mapping>, line: nat, built: Mapping)
    requires Accounts(t, rs, line) && built.generatedLine == line
    ensures Accounts(Resolve(t, built).0, rs + [Resolve(t, built).1], line)
  {
    var after := Resolve(t, built).0;
    var m := Resolve(t, built).1;
    ResolveEffect(t, built);
    assert m.generatedLine == line by {
      assert Unresolved(m).generatedLine == m.generatedLine;
    }
    var extended := rs + [m];
    assert extended[..|extended| - 1] == rs;
    assert extended[..|rs| + 1] == extended;
    forall f
      ensures Total(after, f) == SumDeltas(extended, f)
    {
    }
    assert after.generatedColumn == SumColumnDeltas(extended, line);
    assert IsResolvedAt(extended, |rs|);
    forall k | 0 <= k < |extended|
      ensures extended[k].generatedLine <= line && IsResolvedAt(extended, k)
    {
      if k < |rs| {
        ResolvedAtExtend(rs, [m], k);
      }
    }
  }

  /** The segments of one line, started from accounted totals, stay accounted,
      and all their records carry that line. */
  lemma {:induction false} SegmentsAccount(t: Totals, line: nat, segments: seq<string>, prior: seq<Mapping>)
    requires Accounts(t, prior, line)
    ensures var p := ParseSegments(t, line, segments);
      Accounts(p.0, prior + p.1, line) && forall k :: 0 <= k < |p.1| ==> p.1[k].generatedLine == line
  {
    if segments != [] {
      var init := segments[..|segments| - 1];
      var p := ParseSegments(t, line, init);
      SegmentsAccount(t, line, init, prior);
      var segment := segments[|segments| - 1];
      if segment != [] {
        AccountsAppend(p.0, prior + p.1, line, NewMapping(segment, line));
        var r := Resolve(p.0, NewMapping(segment, line));
        assert ParseSegments(t, line, segments) == (r.0, p.1 + [r.1]);
        assert prior + p.1 + [r.1] == prior + (p.1 + [r.1]);
        ResolveEffect(p.0, NewMapping(segment, line));
        assert r.1.generatedLine == line;
      } else {
        assert ParseSegments(t, line, segments) == p;
      }
    } else {
      assert prior + [] == prior;
    }
  }

  /** No record lies on a later line, so that line's column sum is 0. */
  lemma {:induction false} ColumnSumOfNewLine(rs: seq<Mapping>, line: nat)
    requires forall k :: 0 <= k < |rs| ==> rs[k].generatedLine < line
    ensures SumColumnDeltas(rs, line) == 0
  {
    if rs != [] {
      ColumnSumOfNewLine(rs[..|rs| - 1], line);
    }
  }

  /** After every line the totals account for all records, each on a line
      before `|lines|`. */
  lemma {:induction false} LinesAccount(lines: seq<string>)
    requires lines != []
    ensures var (t, rs) := ParseLines(lines); Accounts(t, rs, |lines| - 1)
  {
    var init := lines[..|lines| - 1];
    var (before, rs) := ParseLines(init);
    var line := |lines| - 1;
    if init != [] {
      LinesAccount(init);
      ColumnSumOfNewLine(rs, line);
    }
    assert Accounts(before.(generatedColumn := 0), rs, line);
    SegmentsAccount(before.(generatedColumn := 0), line, Split(lines[line], ','), rs);
  }

  // ---------------------------------------------------------------------
  // Records and segments
  // ---------------------------------------------------------------------

  /** The records are, position by position, the records first built for the
      tagged segments, plus their absolute fields. */
  ghost predicate BuiltFrom(rs: seq<Mapping>, ss: seq<(nat, string)>) {
    |rs| == |ss| && forall k :: 0 <= k < |rs| ==> Unresolved(rs[k]) == NewMapping(ss[k].1, ss[k].0)
  }

  lemma BuiltFromAppend(rs: seq<Mapping>, ss: seq<(nat, string)>, rs': seq<Mapping>, ss': seq<(nat, string)>)
    requires BuiltFrom(rs, ss) && BuiltFrom(rs', ss')
    ensures BuiltFrom(rs + rs', ss + ss')
  {
    forall k | 0 <= k < |rs + rs'|
      ensures Unresolved((rs + rs')[k]) == NewMapping((ss + ss')[k].1, (ss + ss')[k].0)
    {
      if k >= |rs| {
        assert (rs + rs')[k] == rs'[k - |rs|] && (ss + ss')[k] == ss'[k - |rs|];
      }
    }
  }

  lemma {:induction false} SegmentsRecords(t: Totals, line: nat, segments: seq<string>)
    ensures BuiltFrom(ParseSegments(t, line, segments).1, LineSegments(line, segments))
  {
    if segments != [] {
      var init := segments[..|segments| - 1];
      SegmentsRecords(t, line, init);
      var p := ParseSegments(t, line, init);
      var segment := segments[|segments| - 1];
      if segment != [] {
        var r := Resolve(p.0, NewMapping(segment, line));
        assert ParseSegments(t, line, segments).1 == p.1 + [r.1];
        assert LineSegments(line, segments) == LineSegments(line, init) + [(line, segment)];
        ResolveEffect(p.0, NewMapping(segment, line));
        BuiltFromAppend(p.1, LineSegments(line, init), [r.1], [(line, segment)]);
      } else {
        assert ParseSegments(t, line, segments).1 == p.1;
        assert LineSegments(line, segments) == LineSegments(line, init);
      }
    }
  }

  lemma {:induction false} LinesRecords(lines: seq<string>)
    ensures BuiltFrom(ParseLines(lines).1, SegmentsOf(lines))
  {
    if lines != [] {
      var init := lines[..|lines| - 1];
      LinesRecords(init);
      var p := ParseLines(init);
      var segments := Split(lines[|lines| - 1], ',');
      var q := ParseSegments(p.0.(generatedColumn := 0), |lines| - 1, segments);
      SegmentsRecords(p.0.(generatedColumn := 0), |lines| - 1, segments);
      assert ParseLines(lines).1 == p.1 + q.1;
      assert SegmentsOf(lines) == SegmentsOf(init) + LineSegments(|lines| - 1, segments);
      BuiltFromAppend(p.1, SegmentsOf(init), q.1, LineSegments(|lines| - 1, segments));
    }
  }

  lemma {:induction false} LineSegmentsShape(line: nat, segments: seq<string>)
    ensures forall k :: 0 <= k < |LineSegments(line, segments)| ==>
      LineSegments(line, segments)[k].0 == line && LineSegments(line, segments)[k].1 != [] &&
      LineSegments(line, segments)[k].1 in segments
  {
    if segments != [] {
      var init := segments[..|segments| - 1];
      LineSegmentsShape(line, init);
      var last := segments[|segments| - 1];
      var head := LineSegments(line, init);
      var ss := head + (if last == [] then [] else [(line, last)]);
      assert LineSegments(line, segments) == ss;
      forall k | 0 <= k < |ss|
        ensures ss[k].0 == line && ss[k].1 != [] && ss[k].1 in segments
      {
        if k < |head| {
          assert ss[k] == head[k];
          assert head[k].1 in init;
          var i :| 0 <= i < |init| && init[i] == head[k].1;
          assert segments[i] == init[i];
        } else {
          assert ss[k] == (line, last);
        }
      }
    }
  }

  /** The tagged segments come in document order: each from a group of the
      text, non-empty, and with non-decreasing group index. */
  lemma {:induction false} SegmentsOfShape(lines: seq<string>)
    ensures forall k :: 0 <= k < |SegmentsOf(lines)| ==>
      SegmentsOf(lines)[k].0 < |lines| && SegmentsOf(lines)[k].1 != [] &&
      SegmentsOf(lines)[k].1 in Split(lines[SegmentsOf(lines)[k].0], ',')
    ensures forall j, k :: 0 <= j <= k < |SegmentsOf(lines)| ==> SegmentsOf(lines)[j].0 <= SegmentsOf(lines)[k].0
  {
    if lines != [] {
      var init := lines[..|lines| - 1];
      SegmentsOfShape(init);
      LineSegmentsShape(|lines| - 1, Split(lines[|lines| - 1], ','));
      var head := SegmentsOf(init);
      var tail := LineSegments(|lines| - 1, Split(lines[|lines| - 1], ','));
      var ss := head + tail;
      assert SegmentsOf(lines) == ss;
      forall k | 0 <= k < |ss|
        ensures ss[k].0 < |lines| && ss[k].1 != [] && ss[k].1 in Split(lines[ss[k].0], ',')
      {
        if k < |head| {
          assert ss[k] == head[k];
          assert head[k].0 < |init|;
          assert lines[head[k].0] == init[head[k].0];
        } else {
          assert ss[k] == tail[k - |head|];
        }
      }
      forall j, k | 0 <= j <= k < |ss|
        ensures ss[j].0 <= ss[k].0
      {
        if k < |head| {
          assert ss[j] == head[j] && ss[k] == head[k];
        } else if j < |head| {
          assert ss[j] == head[j] && ss[k] == tail[k - |head|];
        } else {
          assert ss[j] == tail[j - |head|] && ss[k] == tail[k - |head|];
        }
      }
    }
  }

  /** Tagged segment `idx` of a group is the piece at some index `j` of that
      group, and exactly `idx` non-empty pieces come before it. */
  lemma {:induction false} PieceOfLine(line: nat, segments: seq<string>, idx: nat)
    requires idx < |LineSegments(line, segments)|
    ensures exists j ::
              0 <= j < |segments| && segments[j] == LineSegments(line, segments)[idx].1 &&
              |LineSegments(line, segments[..j])| == idx
  {
    var n := |segments|;
    var init := segments[..n - 1];
    var last := segments[n - 1];
    var head := LineSegments(line, init);
    assert LineSegments(line, segments) == head + (if last == [] then [] else [(line, last)]);
    if idx < |head| {
      PieceOfLine(line, init, idx);
      var j :| 0 <= j < |init| && init[j] == head[idx].1 && |LineSegments(line, init[..j])| == idx;
      assert init[..j] == segments[..j];
      assert segments[j] == init[j];
    } else {
      assert segments[..n - 1] == init;
      assert segments[n - 1] == LineSegments(line, segments)[idx].1;
    }
  }

  /** Tagged segment `k` of the text is the piece at some index `j` of its
      group.  The non-empty segments of the earlier groups, together with the
      non-empty pieces before `j` in its own group, number exactly `k`. */
  lemma {:induction false} SegmentPosition(lines: seq<string>, k: nat)
    requires k < |SegmentsOf(lines)|
    ensures SegmentsOf(lines)[k].0 < |lines|
    ensures exists j ::
              0 <= j < |Split(lines[SegmentsOf(lines)[k].0], ',')| &&
              Split(lines[SegmentsOf(lines)[k].0], ',')[j] == SegmentsOf(lines)[k].1 &&
              |SegmentsOf(lines[..SegmentsOf(lines)[k].0])| +
                |LineSegments(SegmentsOf(lines)[k].0, Split(lines[SegmentsOf(lines)[k].0], ',')[..j])| == k
  {
    var n := |lines|;
    var init := lines[..n - 1];
    var pieces := Split(lines[n - 1], ',');
    var tail := LineSegments(n - 1, pieces);
    assert SegmentsOf(lines) == SegmentsOf(init) + tail;
    if k < |SegmentsOf(init)| {
      SegmentPosition(init, k);
      var line := SegmentsOf(init)[k].0;
      assert SegmentsOf(lines)[k] == SegmentsOf(init)[k];
      assert init[line] == lines[line];
      assert init[..line] == lines[..line];
    } else {
      var idx := k - |SegmentsOf(init)|;
      assert SegmentsOf(lines)[k] == tail[idx];
      LineSegmentsShape(n - 1, pieces);
      PieceOfLine(n - 1, pieces, idx);
      assert lines[..n - 1] == init;
    }
  }

  // ---------------------------------------------------------------------
  // The whole parse
  // ---------------------------------------------------------------------

  /** The result is "no mappings" exactly when a character outside the
      mappings alphabet remains after un-escaping.  This is the definition of
      `Parse` itself, restated with the pre-check spelled out character by
      character, because the source promises nothing more about that case. The
      empty text, which passes the pre-check, gives an empty list. */
  lemma ParseResultShape(raw: string)
    ensures Parse(raw).None? <==> exists i :: 0 <= i < |Unescape(raw)| && !IsMappingsChar(Unescape(raw)[i])
    ensures Parse("") == Some([])
  {
    assert Split("", ';') == [[]];
    assert Split([], ',') == [[]];
    var empty: seq<string> := [[]];
    assert empty[..0] == [];
    assert Unescape("") == "";
    assert ParseSegments(INITIAL_TOTALS, 0, [[]]).1 == [];
    assert ParseLines(empty).1 == [];
  }

  /** A text of separators alone gives an empty list, not "no mappings": every
      segment is empty and is skipped. */
  lemma SeparatorsOnly()
    ensures Parse(";;") == Some([])
  {
    assert Split(";;", ';') == [[], [], []] by {
      assert ";;"[1..] == ";";
      assert ";"[1..] == "";
    }
    assert Unescape(";;") == ";;" by {
      assert ";;"[1..] == ";";
      assert ";"[1..] == "";
    }
    assert Split([], ',') == [[]];
    var lines: seq<string> := [[], [], []];
    assert lines[..2][..1] == [[]] && lines[..1][..0] == [];
    assert ParseLines(lines[..1]).1 == [];
    assert ParseLines(lines[..2]).1 == [];
    assert lines[..3] == lines;
  }

  /** Exactly one record per non-empty segment, in document order, each built
      from its own segment and tagged with the index of its `;`-group. */
  lemma OneRecordPerSegment(raw: string)
    requires Parse(raw).Some?
    ensures var rs := Parse(raw).value;
      var ss := SegmentsOf(Split(Unescape(raw), ';'));
      |rs| == |ss| &&
      forall k :: 0 <= k < |rs| ==>
        Unresolved(rs[k]) == NewMapping(ss[k].1, ss[k].0) && rs[k].generatedLine == ss[k].0
  {
    LinesRecords(Split(Unescape(raw), ';'));
  }

  /** Records come out grouped by generated line, lines in increasing order. */
  lemma RecordsOrderedByLine(raw: string)
    requires Parse(raw).Some?
    ensures var rs := Parse(raw).value;
      forall j, k :: 0 <= j <= k < |rs| ==> rs[j].generatedLine <= rs[k].generatedLine
  {
    var lines := Split(Unescape(raw), ';');
    LinesRecords(lines);
    SegmentsOfShape(lines);
    var rs := Parse(raw).value;
    var ss := SegmentsOf(lines);
    forall k | 0 <= k < |rs| ensures rs[k].generatedLine == ss[k].0 {
      assert Unresolved(rs[k]).generatedLine == NewMapping(ss[k].1, ss[k].0).generatedLine;
    }
  }

  /** Record `k`'s generated line is the number of `;` in front of its segment:
      the text splits as the part before its group, which ends in `;` and holds
      exactly that many, followed by the rest.  The segment is the `,`-piece
      at some index `j` of its group, and counting the non-empty segments of
      the earlier groups plus the non-empty pieces before `j` gives `k`. */
  lemma GeneratedLineCountsSeparators(raw: string, k: nat)
    requires Parse(raw).Some? && k < |Parse(raw).value|
    ensures var input := Unescape(raw);
      var lines := Split(input, ';');
      var line := Parse(raw).value[k].generatedLine;
      line < |lines| && k < |SegmentsOf(lines)| &&
      (exists j :: 0 <= j < |Split(lines[line], ',')| && Split(lines[line], ',')[j] == SegmentsOf(lines)[k].1 &&
         |SegmentsOf(lines[..line])| + |LineSegments(line, Split(lines[line], ',')[..j])| == k) &&
      (line == 0 ==> input == Join(lines, ';')) &&
      (line > 0 ==>
         var before := Join(lines[..line], ';') + [';'];
         input == before + Join(lines[line..], ';') && Count(before, ';') == line)
  {
    var input := Unescape(raw);
    var lines := Split(input, ';');
    OneRecordPerSegment(raw);
    SegmentsOfShape(lines);
    var rs := Parse(raw).value;
    var ss := SegmentsOf(lines);
    assert Unresolved(rs[k]).generatedLine == NewMapping(ss[k].1, ss[k].0).generatedLine;
    var line := rs[k].generatedLine;
    SegmentPosition(lines, k);
    JoinSplit(input, ';');
    if line > 0 {
      TextBeforePiece(input, ';', line);
    }
  }

  /** Record `k`'s absolute fields in closed form: the sums of the supplied
      deltas up to and including it (the generated column: over its own
      generated line only), and None exactly where its own delta is absent. */
  lemma RunningTotals(raw: string, k: nat)
    requires Parse(raw).Some? && k < |Parse(raw).value|
    ensures var rs := Parse(raw).value;
      (forall f :: Absolute(rs[k], f) ==
         (if Delta(rs[k], f).None? then None else Some(SumDeltas(rs[..k + 1], f)))) &&
      rs[k].generatedColumn ==
        (if rs[k].deltaGeneratedColumn.None? then None
         else Some(SumColumnDeltas(rs[..k + 1], rs[k].generatedLine)))
  {
    var lines := Split(Unescape(raw), ';');
    LinesAccount(lines);
    var rs := Parse(raw).value;
    assert IsResolvedAt(rs, k);
  }
}
