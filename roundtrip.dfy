/** Writing mappings and reading them back: a mappings string assembled from
    encoded tuples parses to one record per tuple, on the tuple's line, carrying
    exactly that tuple. */
module MappingsRoundTrip {
  import opened Strings
  import Vlq
  import opened Mappings
  import opened MappingProperties

  /** The segments of one generated line, each tuple encoded. */
  function EncodeGroup(group: seq<seq<int>>): (r: seq<string>)
    ensures |r| == |group|
    ensures forall j :: 0 <= j < |group| ==> r[j] == Vlq.Encode(group[j])
  {
    if group == [] then [] else EncodeGroup(group[..|group| - 1]) + [Vlq.Encode(group[|group| - 1])]
  }

  /** The text of each generated line: its encoded segments joined by `,`. */
  function EncodeLines(groups: seq<seq<seq<int>>>): (r: seq<string>)
    ensures |r| == |groups|
    ensures forall i :: 0 <= i < |groups| ==> r[i] == Join(EncodeGroup(groups[i]), ',')
  {
    if groups == [] then []
    else EncodeLines(groups[..|groups| - 1]) + [Join(EncodeGroup(groups[|groups| - 1]), ',')]
  }

  /** A whole mappings string: the lines joined by `;`. */
  function EncodeMappings(groups: seq<seq<seq<int>>>): string {
    Join(EncodeLines(groups), ';')
  }

  /** The tuples of one group tagged with its line index. */
  function TagGroup(line: nat, group: seq<seq<int>>): seq<(nat, seq<int>)> {
    if group == [] then [] else TagGroup(line, group[..|group| - 1]) + [(line, group[|group| - 1])]
  }

  /** All tuples in document order, tagged with their line indices. */
  function Tagged(groups: seq<seq<seq<int>>>): seq<(nat, seq<int>)> {
    if groups == [] then []
    else Tagged(groups[..|groups| - 1]) + TagGroup(|groups| - 1, groups[|groups| - 1])
  }

  /** No tuple is empty (an empty tuple encodes to an empty segment, which the
      parser skips). */
  predicate NoEmptyTuple(groups: seq<seq<seq<int>>>) {
    forall i, j :: 0 <= i < |groups| && 0 <= j < |groups[i]| ==> groups[i][j] != []
  }

  /** Tagged segments that are the encodings of tagged tuples, position by position. */
  predicate EncodesTags(ss: seq<(nat, string)>, tt: seq<(nat, seq<int>)>) {
    |ss| == |tt| && forall k :: 0 <= k < |ss| ==> ss[k] == (tt[k].0, Vlq.Encode(tt[k].1))
  }

  lemma EncodesTagsAppend(a: seq<(nat, string)>, b: seq<(nat, seq<int>)>,
                          c: seq<(nat, string)>, d: seq<(nat, seq<int>)>)
    requires EncodesTags(a, b) && EncodesTags(c, d)
    ensures EncodesTags(a + c, b + d)
  {
    forall k | 0 <= k < |a + c|
      ensures (a + c)[k] == ((b + d)[k].0, Vlq.Encode((b + d)[k].1))
    {
      if k >= |a| {
        assert (a + c)[k] == c[k - |a|] && (b + d)[k] == d[k - |a|];
      }
    }
  }

  // ---------------------------------------------------------------------
  // The text is well formed
  // ---------------------------------------------------------------------

  lemma {:induction false} JoinIsMappingsText(pieces: seq<string>, sep: char)
    requires sep == ',' || sep == ';'
    requires forall i :: 0 <= i < |pieces| ==> IsMappingsText(pieces[i])
    ensures IsMappingsText(Join(pieces, sep))
  {
    if |pieces| > 1 {
      JoinIsMappingsText(pieces[1..], sep);
      var s := pieces[0] + [sep] + Join(pieces[1..], sep);
      forall i | 0 <= i < |s| ensures IsMappingsChar(s[i]) {
        if i < |pieces[0]| {
          assert s[i] == pieces[0][i];
        } else if i > |pieces[0]| {
          assert s[i] == Join(pieces[1..], sep)[i - |pieces[0]| - 1];
        }
      }
    }
  }

  lemma Base64IsMappingsText(s: string)
    requires Vlq.IsBase64(s)
    ensures IsMappingsText(s) && ',' !in s && ';' !in s && '\\' !in s
  {
  }

  lemma {:induction false} JoinAvoids(pieces: seq<string>, sep: char, c: char)
    requires sep != c
    requires forall i :: 0 <= i < |pieces| ==> c !in pieces[i]
    ensures c !in Join(pieces, sep)
  {
    if |pieces| > 1 {
      JoinAvoids(pieces[1..], sep, c);
    }
  }

  /** What each line of the assembled text looks like: mappings characters, no `;`,
      and splitting it at `,` gives back its encoded segments. */
  lemma LineText(group: seq<seq<int>>)
    ensures var text := Join(EncodeGroup(group), ',');
      IsMappingsText(text) && ';' !in text && '\\' !in text &&
      Split(text, ',') == if group == [] then [[]] else EncodeGroup(group)
  {
    var pieces := EncodeGroup(group);
    forall i | 0 <= i < |pieces|
      ensures IsMappingsText(pieces[i]) && ',' !in pieces[i] && ';' !in pieces[i] && '\\' !in pieces[i]
    {
      Base64IsMappingsText(pieces[i]);
    }
    JoinIsMappingsText(pieces, ',');
    JoinAvoids(pieces, ',', ';');
    JoinAvoids(pieces, ',', '\\');
    if group != [] {
      SplitJoin(pieces, ',');
    }
  }

  /** The assembled text passes the pre-check, needs no un-escaping, and splits
      at `;` into its lines. */
  lemma MappingsText(groups: seq<seq<seq<int>>>)
    requires groups != []
    ensures var text := EncodeMappings(groups);
      IsMappingsText(text) && Unescape(text) == text && Split(text, ';') == EncodeLines(groups)
  {
    var lines := EncodeLines(groups);
    forall i | 0 <= i < |lines|
      ensures IsMappingsText(lines[i]) && ';' !in lines[i] && '\\' !in lines[i]
    {
      LineText(groups[i]);
    }
    JoinIsMappingsText(lines, ';');
    JoinAvoids(lines, ';', '\\');
    UnescapePlain(EncodeMappings(groups));
    SplitJoin(lines, ';');
  }

  // ---------------------------------------------------------------------
  // Segments of the assembled text
  // ---------------------------------------------------------------------

  lemma {:induction false} GroupSegments(line: nat, group: seq<seq<int>>)
    requires forall j :: 0 <= j < |group| ==> group[j] != []
    ensures EncodesTags(LineSegments(line, EncodeGroup(group)), TagGroup(line, group))
  {
    if group != [] {
      var init := group[..|group| - 1];
      GroupSegments(line, init);
      var pieces := EncodeGroup(group);
      assert pieces[..|pieces| - 1] == EncodeGroup(init);
      var last := group[|group| - 1];
      assert Vlq.Encode(last) != [];
      EncodesTagsAppend(LineSegments(line, EncodeGroup(init)), TagGroup(line, init),
                        [(line, Vlq.Encode(last))], [(line, last)]);
    }
  }

  lemma {:induction false} LinesSegments(groups: seq<seq<seq<int>>>)
    requires NoEmptyTuple(groups)
    ensures EncodesTags(SegmentsOf(EncodeLines(groups)), Tagged(groups))
  {
    if groups != [] {
      var init := groups[..|groups| - 1];
      var last := groups[|groups| - 1];
      var line := |groups| - 1;
      assert NoEmptyTuple(init) by {
        forall i, j | 0 <= i < |init| && 0 <= j < |init[i]| ensures init[i][j] != [] {
          assert init[i] == groups[i];
        }
      }
      LinesSegments(init);
      var lines := EncodeLines(groups);
      assert lines[..|lines| - 1] == EncodeLines(init);
      LineText(last);
      if last == [] {
        var empty: seq<string> := [[]];
        assert empty[..0] == [];
        assert LineSegments(line, empty) == [];
        assert TagGroup(line, last) == [];
        EncodesTagsAppend(SegmentsOf(EncodeLines(init)), Tagged(init), [], []);
      } else {
        assert forall j :: 0 <= j < |last| ==> last[j] == groups[line][j];
        GroupSegments(line, last);
        EncodesTagsAppend(SegmentsOf(EncodeLines(init)), Tagged(init),
                          LineSegments(line, EncodeGroup(last)), TagGroup(line, last));
      }
    }
  }

  // ---------------------------------------------------------------------
  // The round trip
  // ---------------------------------------------------------------------

  lemma ListedIgnoresAbsolute(m: Mapping)
    ensures Listed(Unresolved(m)) == Listed(m)
  {
  }

  /** Parsing a mappings string written from tuples gives one record per tuple,
      in order, on the tuple's line, carrying exactly the tuple; the record is
      valid exactly when the tuple has one, four or five values. */
  lemma ParseEncodeMappings(groups: seq<seq<seq<int>>>)
    requires NoEmptyTuple(groups)
    ensures Parse(EncodeMappings(groups)).Some?
    ensures var rs := Parse(EncodeMappings(groups)).value;
      var tt := Tagged(groups);
      |rs| == |tt| &&
      forall k :: 0 <= k < |rs| ==>
        rs[k].generatedLine == tt[k].0 && Listed(rs[k]) == tt[k].1 &&
        (rs[k].valid <==> (|tt[k].1| == 1 || |tt[k].1| == 4 || |tt[k].1| == 5))
  {
    var text := EncodeMappings(groups);
    if groups == [] {
      assert text == "";
      ParseResultShape(text);
    } else {
      MappingsText(groups);
      var lines := Split(text, ';');
      LinesSegments(groups);
      OneRecordPerSegment(text);
      var rs := Parse(text).value;
      var ss := SegmentsOf(lines);
      var tt := Tagged(groups);
      forall k | 0 <= k < |rs|
        ensures rs[k].generatedLine == tt[k].0 && Listed(rs[k]) == tt[k].1 &&
          (rs[k].valid <==> (|tt[k].1| == 1 || |tt[k].1| == 4 || |tt[k].1| == 5))
      {
        assert ss[k] == (tt[k].0, Vlq.Encode(tt[k].1));
        Vlq.DecodeEncode(tt[k].1);
        DeltasVerbatim(ss[k].1, ss[k].0);
        ListedIgnoresAbsolute(rs[k]);
        assert Unresolved(rs[k]).valid == rs[k].valid;
      }
    }
  }
}
