/** The JavaScript string operations the mappings parser relies on:
    `String.prototype.split` with a one-character separator, and the global
    regular-expression replacement that un-escapes `\/`. */
module Strings {

  /** Number of occurrences of `c` in `s`. */
  function Count(s: string, c: char): nat {
    if s == [] then 0 else (if s[0] == c then 1 else 0) + Count(s[1..], c)
  }

  /** `s.split(sep)`: the pieces between separators, in order.  There is always
      one piece more than there are separators, so `"".split(";")` is `[""]` and
      `";;".split(";")` is `["", "", ""]`. */
  function Split(s: string, sep: char): (r: seq<string>)
    ensures |r| == Count(s, sep) + 1
    ensures forall i :: 0 <= i < |r| ==> sep !in r[i]
  {
    if s == [] then [[]]
    else
      var tail := Split(s[1..], sep);
      if s[0] == sep then [[]] + tail
      else [[s[0]] + tail[0]] + tail[1..]
  }

  /** `pieces.join(sep)`: the pieces with `sep` between neighbours, so it
      starts with the first piece. */
  function Join(pieces: seq<string>, sep: char): (r: string)
    ensures |pieces| >= 1 ==> pieces[0] <= r
  {
    if |pieces| == 0 then []
    else if |pieces| == 1 then pieces[0]
    else pieces[0] + [sep] + Join(pieces[1..], sep)
  }

  lemma {:induction false} CountAppend(a: string, b: string, c: char)
    ensures Count(a + b, c) == Count(a, c) + Count(b, c)
  {
    if a != [] {
      assert (a + b)[0] == a[0] && (a + b)[1..] == a[1..] + b;
      CountAppend(a[1..], b, c);
    } else {
      assert a + b == b;
    }
  }

  lemma {:induction false} CountAbsent(s: string, c: char)
    requires c !in s
    ensures Count(s, c) == 0
  {
    if s != [] {
      assert c !in s[1..];
      CountAbsent(s[1..], c);
    }
  }

  /** Joining the pieces of a split gives back the original text. */
  lemma {:induction false} JoinSplit(s: string, sep: char)
    ensures Join(Split(s, sep), sep) == s
  {
    if s != [] {
      var tail := Split(s[1..], sep);
      JoinSplit(s[1..], sep);
      if s[0] == sep {
        assert Split(s, sep)[1..] == tail;
      } else {
        var r := Split(s, sep);
        assert r[1..] == tail[1..];
        if |tail| > 1 {
          assert tail[1..] == tail[1..];
          assert Join(tail, sep) == tail[0] + [sep] + Join(tail[1..], sep);
        }
      }
    }
  }

  /** Splitting a text that starts with a separator-free piece. */
  lemma {:induction false} SplitFront(p: string, t: string, sep: char)
    requires sep !in p
    ensures Split(p, sep) == [p]
    ensures Split(p + [sep] + t, sep) == [p] + Split(t, sep)
  {
    if p == [] {
      assert [sep] + t == [sep] + t;
      assert ([sep] + t)[1..] == t;
    } else {
      assert sep !in p[1..];
      SplitFront(p[1..], t, sep);
      assert (p + [sep] + t)[1..] == p[1..] + [sep] + t;
      assert [p[0]] + p[1..] == p;
    }
  }

  /** Splitting a join of separator-free pieces gives back the pieces. */
  lemma {:induction false} SplitJoin(pieces: seq<string>, sep: char)
    requires |pieces| >= 1
    requires forall i :: 0 <= i < |pieces| ==> sep !in pieces[i]
    ensures Split(Join(pieces, sep), sep) == pieces
  {
    SplitFront(pieces[0], [], sep);
    if |pieces| > 1 {
      SplitJoin(pieces[1..], sep);
      SplitFront(pieces[0], Join(pieces[1..], sep), sep);
    }
  }

  /** A join splits at each separator it inserted. */
  lemma {:induction false} JoinAt(pieces: seq<string>, sep: char, i: nat)
    requires 0 < i < |pieces|
    ensures Join(pieces, sep) == Join(pieces[..i], sep) + [sep] + Join(pieces[i..], sep)
  {
    if i > 1 {
      JoinAt(pieces[1..], sep, i - 1);
      assert pieces[1..][..i - 1] == pieces[..i][1..];
      assert pieces[1..][i - 1..] == pieces[i..];
    } else {
      assert pieces[..1] == [pieces[0]];
    }
  }

  /** A join of separator-free pieces holds one separator fewer than pieces. */
  lemma {:induction false} CountJoin(pieces: seq<string>, sep: char)
    requires |pieces| >= 1
    requires forall i :: 0 <= i < |pieces| ==> sep !in pieces[i]
    ensures Count(Join(pieces, sep), sep) == |pieces| - 1
  {
    CountAbsent(pieces[0], sep);
    if |pieces| > 1 {
      CountJoin(pieces[1..], sep);
      CountAppend(pieces[0], [sep], sep);
      CountAppend(pieces[0] + [sep], Join(pieces[1..], sep), sep);
    }
  }

  /** The text in front of piece `i` of a split ends with a separator and holds
      exactly `i` of them: piece `i` is what follows the `i`-th separator. */
  lemma TextBeforePiece(s: string, sep: char, i: nat)
    requires 0 < i < |Split(s, sep)|
    ensures var pieces := Split(s, sep);
      var before := Join(pieces[..i], sep) + [sep];
      s == before + Join(pieces[i..], sep) && Count(before, sep) == i
  {
    var pieces := Split(s, sep);
    JoinSplit(s, sep);
    JoinAt(pieces, sep, i);
    CountJoin(pieces[..i], sep);
    CountAppend(Join(pieces[..i], sep), [sep], sep);
  }

  // ---------------------------------------------------------------------
  // Un-escaping `\/`
  // ---------------------------------------------------------------------

  /** `s.replace(/\\\//g, "/")`: every `\/`, matched left to right without
      overlap, becomes `/`. */
  function Unescape(s: string): (r: string)
    ensures |r| <= |s|
  {
    if |s| >= 2 && s[0] == '\\' && s[1] == '/' then "/" + Unescape(s[2..])
    else if s == [] then []
    else [s[0]] + Unescape(s[1..])
  }

  /** The JSON escaping of `/` that Unescape undoes: every `/` becomes `\/`. */
  function EscapeSlashes(s: string): (r: string)
    ensures |r| == |s| + Count(s, '/')
  {
    if s == [] then []
    else if s[0] == '/' then "\\/" + EscapeSlashes(s[1..])
    else [s[0]] + EscapeSlashes(s[1..])
  }

  /** Text without a backslash passes through Unescape unchanged. */
  lemma {:induction false} UnescapePlain(s: string)
    requires '\\' !in s
    ensures Unescape(s) == s
  {
    if s != [] {
      assert '\\' !in s[1..];
      UnescapePlain(s[1..]);
    }
  }

  /** Un-escaping undoes escaping, whatever backslashes the text already held. */
  lemma {:induction false} UnescapeEscape(s: string)
    ensures Unescape(EscapeSlashes(s)) == s
  {
    if s != [] {
      UnescapeEscape(s[1..]);
      var e := EscapeSlashes(s[1..]);
      assert e == [] || e[0] != '/';
      if s[0] == '/' {
        assert ("\\/" + e)[2..] == e;
      } else {
        assert ([s[0]] + e)[1..] == e;
      }
      assert [s[0]] + s[1..] == s;
    }
  }
}
