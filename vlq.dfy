/** The Base64 VLQ codec of the Source Map Revision 3 format (ECMA-426), as the
    `vlq` package's `decode` and `encode` provide it: standard Base64 digits,
    five data bits per digit, least-significant group first, the sixth bit of
    a digit as the continuation flag, and the least-significant bit of the
    assembled value as the sign. */
module Vlq {
  import opened Wrappers

  /** Number of data bits carried by one Base64 digit. */
  const VLQ_BASE_SHIFT: nat := 5
  /** 2^VLQ_BASE_SHIFT: the weight of the next digit's data bits. */
  const VLQ_BASE: nat := 32
  /** The sixth bit of a digit: "another digit of this value follows". */
  const VLQ_CONTINUATION_BIT: nat := 32

  // ---------------------------------------------------------------------
  // The Base64 alphabet
  // ---------------------------------------------------------------------

  predicate IsBase64Char(c: char) {
    ('A' <= c <= 'Z') || ('a' <= c <= 'z') || ('0' <= c <= '9') || c == '+' || c == '/'
  }

  predicate IsBase64(s: string) {
    forall i :: 0 <= i < |s| ==> IsBase64Char(s[i])
  }

  /** The character of a 6-bit digit. */
  function Base64Char(d: nat): (c: char)
    requires d < 64
    ensures IsBase64Char(c)
  {
    if d < 26 then ('A' as int + d) as char
    else if d < 52 then ('a' as int + (d - 26)) as char
    else if d < 62 then ('0' as int + (d - 52)) as char
    else if d == 62 then '+'
    else '/'
  }

  /** The 6-bit digit of a Base64 character; the inverse of Base64Char. */
  function Base64Value(c: char): (d: nat)
    requires IsBase64Char(c)
    ensures d < 64 && Base64Char(d) == c
  {
    if 'A' <= c <= 'Z' then c as int - 'A' as int
    else if 'a' <= c <= 'z' then c as int - 'a' as int + 26
    else if '0' <= c <= '9' then c as int - '0' as int + 52
    else if c == '+' then 62
    else 63
  }

  lemma Base64ValueOfChar(d: nat)
    requires d < 64
    ensures Base64Value(Base64Char(d)) == d
  {
  }

  /** A digit whose continuation bit is set: the value goes on in the next digit. */
  predicate IsContinuation(c: char)
    requires IsBase64Char(c)
  {
    Base64Value(c) >= VLQ_CONTINUATION_BIT
  }

  // ---------------------------------------------------------------------
  // Signs
  // ---------------------------------------------------------------------

  /** The unsigned form of a value: magnitude shifted left by one, sign in bit 0. */
  function ToVlqSigned(v: int): (u: nat)
    ensures (u % 2 == 1) == (v < 0)
  {
    if v < 0 then 2 * -v + 1 else 2 * v
  }

  /** The signed value of an assembled unsigned value.  An odd value is negative;
      the unsigned value 1 ("negative zero") is read as 0. */
  function FromVlqSigned(u: nat): (v: int)
    ensures u % 2 == 0 ==> v >= 0
    ensures u % 2 == 1 ==> v <= 0
    ensures v == 0 <==> u <= 1
  {
    if u % 2 == 1 then -(u / 2) else u / 2
  }

  lemma FromToVlqSigned(v: int)
    ensures FromVlqSigned(ToVlqSigned(v)) == v
  {
  }

  // ---------------------------------------------------------------------
  // Encoding
  // ---------------------------------------------------------------------

  /** The digits of an unsigned value: five bits at a time, least significant
      first, every digit but the last carrying the continuation bit. */
  function EncodeDigits(u: nat): (s: string)
    ensures |s| >= 1 && IsBase64(s)
    ensures !IsContinuation(s[|s| - 1])
    ensures forall i :: 0 <= i < |s| - 1 ==> IsContinuation(s[i])
    decreases u
  {
    var low := u % VLQ_BASE;
    var high := u / VLQ_BASE;
    if high == 0 then
      Base64ValueOfChar(low);
      [Base64Char(low)]
    else
      Base64ValueOfChar(low + VLQ_CONTINUATION_BIT);
      [Base64Char(low + VLQ_CONTINUATION_BIT)] + EncodeDigits(high)
  }

  /** The encoding of one integer: Base64 digits, every one but the last
      carrying the continuation bit. */
  function EncodeInteger(v: int): (s: string)
    ensures |s| >= 1 && IsBase64(s)
    ensures !IsContinuation(s[|s| - 1])
    ensures forall i :: 0 <= i < |s| - 1 ==> IsContinuation(s[i])
  {
    EncodeDigits(ToVlqSigned(v))
  }

  /** The encoding of a sequence of integers: the encodings of its elements, concatenated. */
  function Encode(vs: seq<int>): (s: string)
    ensures IsBase64(s)
    ensures |s| >= |vs|
    ensures s == [] <==> vs == []
    ensures s != [] ==> !IsContinuation(s[|s| - 1])
  {
    if vs == [] then [] else EncodeInteger(vs[0]) + Encode(vs[1..])
  }

  // ---------------------------------------------------------------------
  // Decoding
  // ---------------------------------------------------------------------

  /** Assembles one unsigned value from the front of `s`: the value and the number
      of digits it used, or None when a character is outside the alphabet or the
      text ends while a continuation bit is still set. */
  function DecodeDigits(s: string): (r: Option<(nat, nat)>)
    ensures r.Some? ==> 1 <= r.value.1 <= |s| && IsBase64(s[..r.value.1])
  {
    if s == [] || !IsBase64Char(s[0]) then None
    else
      var d := Base64Value(s[0]);
      if d < VLQ_CONTINUATION_BIT then Some((d, 1))
      else
        match DecodeDigits(s[1..])
        case None => None
        case Some((high, n)) => Some((d - VLQ_CONTINUATION_BIT + VLQ_BASE * high, n + 1))
  }

  /** Decodes a whole segment into the integers it holds, in order.  The empty
      text decodes to the empty sequence; a character outside the alphabet, or a
      last digit that still carries the continuation bit, makes decoding fail. */
  function Decode(s: string): (r: Option<seq<int>>)
    ensures r.Some? ==> (r.value == [] <==> s == []) && |r.value| <= |s|
    decreases |s|
  {
    if s == [] then Some([])
    else
      match DecodeDigits(s)
      case None => None
      case Some((u, n)) =>
        match Decode(s[n..])
        case None => None
        case Some(vs) => Some([FromVlqSigned(u)] + vs)
  }

  /** A segment is canonical when it is the re-encoding of what it decodes to:
      the check the mappings parser uses for its `valid` flag. */
  predicate IsCanonical(s: string)
    ensures IsCanonical(s) ==> IsBase64(s) && (s == [] || !IsContinuation(s[|s| - 1]))
  {
    Decode(s).Some? && Encode(Decode(s).value) == s
  }

  // ---------------------------------------------------------------------
  // Round trip
  // ---------------------------------------------------------------------

  /** Reading back the digits of `u`, whatever follows them, gives `u` and stops
      exactly at the end of its digits. */
  lemma {:induction false} DecodeDigitsOfEncoding(u: nat, rest: string)
    ensures DecodeDigits(EncodeDigits(u) + rest) == Some((u, |EncodeDigits(u)|))
    decreases u
  {
    var e := EncodeDigits(u);
    var low := u % VLQ_BASE;
    var high := u / VLQ_BASE;
    if high == 0 {
      Base64ValueOfChar(low);
      assert (e + rest)[0] == Base64Char(low);
    } else {
      Base64ValueOfChar(low + VLQ_CONTINUATION_BIT);
      assert (e + rest)[0] == Base64Char(low + VLQ_CONTINUATION_BIT);
      assert (e + rest)[1..] == EncodeDigits(high) + rest;
      DecodeDigitsOfEncoding(high, rest);
      assert low + VLQ_BASE * high == u;
      assert |e| == |EncodeDigits(high)| + 1;
    }
  }

  /** Decoding undoes encoding, for every sequence of integers. */
  lemma {:induction false} DecodeEncode(vs: seq<int>)
    ensures Decode(Encode(vs)) == Some(vs)
  {
    if vs != [] {
      var head := EncodeInteger(vs[0]);
      var tail := Encode(vs[1..]);
      assert Encode(vs) == EncodeDigits(ToVlqSigned(vs[0])) + tail;
      DecodeDigitsOfEncoding(ToVlqSigned(vs[0]), tail);
      FromToVlqSigned(vs[0]);
      assert (head + tail)[|head|..] == tail;
      DecodeEncode(vs[1..]);
      assert vs == [vs[0]] + vs[1..];
    }
  }

  /** Encoding is injective: two sequences with the same encoding are equal. */
  lemma EncodeInjective(a: seq<int>, b: seq<int>)
    requires Encode(a) == Encode(b)
    ensures a == b
  {
    DecodeEncode(a);
    DecodeEncode(b);
  }

  /** The canonical segments are exactly the encodings of integer sequences. */
  lemma CanonicalIffEncoding(s: string)
    ensures IsCanonical(s) <==> exists vs :: Encode(vs) == s
  {
    if exists vs :: Encode(vs) == s {
      var vs :| Encode(vs) == s;
      DecodeEncode(vs);
    }
  }

  /** Two non-canonical spellings of the value 0: "negative zero" and a redundant
      trailing zero digit.  Both decode, but neither re-encodes to itself. */
  lemma NonCanonicalZeros()
    ensures Decode("B") == Some([0]) && !IsCanonical("B")
    ensures Decode("gA") == Some([0]) && !IsCanonical("gA")
  {
    assert DecodeDigits("B") == Some((1, 1));
    assert "B"[1..] == [];
    assert FromVlqSigned(1) == 0 && FromVlqSigned(0) == 0;
    assert [FromVlqSigned(1)] + [] == [0];
    assert DecodeDigits("A") == Some((0, 1));
    assert DecodeDigits("gA") == Some((0, 2)) by {
      assert "gA"[1..] == "A";
    }
    assert "gA"[2..] == [];
    assert [0][1..] == [];
    assert EncodeDigits(0) == "A";
    assert Encode([0]) == "A";
    assert "B" != "A";
  }

  // ---------------------------------------------------------------------
  // When decoding fails
  // ---------------------------------------------------------------------

  /** On Base64 text, assembling a value fails exactly when every digit carries
      the continuation bit; otherwise it stops just after the first digit
      without it. */
  lemma {:induction false} DecodeDigitsShape(s: string)
    requires IsBase64(s)
    ensures DecodeDigits(s).None? <==> forall i :: 0 <= i < |s| ==> IsContinuation(s[i])
    ensures DecodeDigits(s).Some? ==>
      var n := DecodeDigits(s).value.1;
      !IsContinuation(s[n - 1]) && forall i :: 0 <= i < n - 1 ==> IsContinuation(s[i])
  {
    if s != [] && IsContinuation(s[0]) {
      assert IsBase64(s[1..]);
      DecodeDigitsShape(s[1..]);
      assert forall i :: 1 <= i < |s| ==> s[i] == s[1..][i - 1];
    }
  }

  /** Digit assembly fails at a character outside the alphabet that no earlier
      terminating digit keeps it from reaching. */
  lemma {:induction false} DecodeDigitsStopsBefore(s: string, j: nat)
    requires j < |s| && !IsBase64Char(s[j])
    requires IsBase64(s[..j]) && forall i :: 0 <= i < j ==> IsContinuation(s[i])
    ensures DecodeDigits(s).None?
  {
    if j > 0 {
      assert s[0] == s[..j][0];
      assert s[1..][..j - 1] == s[1..j];
      assert forall i :: 0 <= i < j - 1 ==> s[1..][i] == s[..j][i + 1];
      DecodeDigitsStopsBefore(s[1..], j - 1);
    }
  }

  /** Decoding fails exactly when the text holds a character outside the Base64
      alphabet, or when its last digit still carries the continuation bit (the
      text was cut off inside a value). */
  lemma {:induction false} DecodeFailsIff(s: string)
    ensures Decode(s).None? <==>
      !IsBase64(s) || (s != [] && IsContinuation(s[|s| - 1]))
    decreases |s|
  {
    if s == [] {
    } else if IsBase64(s) {
      DecodeDigitsShape(s);
      match DecodeDigits(s)
      case None =>
      case Some((u, n)) =>
        assert IsBase64(s[n..]);
        DecodeFailsIff(s[n..]);
        if n < |s| {
          assert s[n..][|s[n..]| - 1] == s[|s| - 1];
        }
    } else {
      var j :| 0 <= j < |s| && !IsBase64Char(s[j]);
      DecodeStopsAt(s, j);
    }
  }

  /** A character outside the alphabet anywhere makes decoding fail. */
  lemma {:induction false} DecodeStopsAt(s: string, j: nat)
    requires j < |s| && !IsBase64Char(s[j])
    ensures Decode(s).None?
    decreases |s|
  {
    match DecodeDigits(s)
    case None =>
    case Some((u, n)) =>
      if n <= j {
        assert s[n..][j - n] == s[j];
        DecodeStopsAt(s[n..], j - n);
      }
  }
}
