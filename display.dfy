/** The two value helpers of src/App.js that the mappings table uses:
    `formatValue` (render an optional number) and `addNonNull` (add a display
    offset to an optional number). */
module Display {
  import opened Wrappers

  predicate IsDigit(c: char) {
    '0' <= c <= '9'
  }

  predicate AllDigits(s: string) {
    forall i :: 0 <= i < |s| ==> IsDigit(s[i])
  }

  function DigitChar(d: nat): (c: char)
    requires d < 10
    ensures IsDigit(c)
  {
    ('0' as int + d) as char
  }

  /** Decimal digits of a natural number, most significant first, without
      leading zeros. */
  function NatToString(n: nat): (s: string)
    ensures |s| >= 1 && AllDigits(s)
    ensures |s| > 1 ==> s[0] != '0'
    ensures s[0] == '0' ==> n == 0
    decreases n
  {
    if n < 10 then [DigitChar(n)] else NatToString(n / 10) + [DigitChar(n % 10)]
  }

  /** `String(v)` for an integer: its decimal digits, `-` in front when negative. */
  function IntToString(v: int): (s: string)
    ensures v < 0 ==> |s| >= 2 && s[0] == '-' && AllDigits(s[1..]) && s[1] != '0'
    ensures v >= 0 ==> |s| >= 1 && AllDigits(s) && (s[0] == '0' ==> v == 0)
  {
    if v < 0 then "-" + NatToString(-v) else NatToString(v)
  }

  /** `formatValue`: a missing value shows as `-`, a number as its decimal text. */
  function FormatValue(a: Option<int>): (s: string)
    ensures s == "-" <==> a.None?
  {
    match a
    case None => "-"
    case Some(v) => IntToString(v)
  }

  /** `addNonNull`: the sum when both are present, otherwise missing. */
  function AddNonNull(a: Option<int>, b: Option<int>): (r: Option<int>)
    ensures r.Some? <==> a.Some? && b.Some?
    ensures r.Some? ==> r.value - a.value == b.value
  {
    if a.Some? && b.Some? then Some(a.value + b.value) else None
  }

  // ---------------------------------------------------------------------
  // Reading a formatted value back
  // ---------------------------------------------------------------------

  function DecimalValue(s: string): nat
    requires AllDigits(s)
  {
    if s == [] then 0 else 10 * DecimalValue(s[..|s| - 1]) + (s[|s| - 1] as int - '0' as int)
  }

  /** The value a formatted cell shows; None for text FormatValue never produces. */
  function ReadValue(s: string): Option<Option<int>> {
    if s == "-" then Some(None)
    else if |s| >= 2 && s[0] == '-' && AllDigits(s[1..]) then
      var magnitude: int := DecimalValue(s[1..]); Some(Some(0 - magnitude))
    else if |s| >= 1 && AllDigits(s) then Some(Some(DecimalValue(s)))
    else None
  }

  lemma {:induction false} DecimalValueOfNat(n: nat)
    ensures DecimalValue(NatToString(n)) == n
    decreases n
  {
    if n >= 10 {
      var s := NatToString(n);
      assert s[..|s| - 1] == NatToString(n / 10);
      DecimalValueOfNat(n / 10);
    }
  }

  /** Every cell text FormatValue produces reads back as the value it shows. */
  lemma ReadFormatValue(a: Option<int>)
    ensures ReadValue(FormatValue(a)) == Some(a)
  {
    match a
    case None =>
    case Some(v) =>
      if v < 0 {
        var s := FormatValue(a);
        assert s[1..] == NatToString(-v);
        DecimalValueOfNat(-v);
      } else {
        DecimalValueOfNat(v);
      }
  }

  /** Distinct values never share a cell text. */
  lemma FormatValueInjective(a: Option<int>, b: Option<int>)
    requires FormatValue(a) == FormatValue(b)
    ensures a == b
  {
    ReadFormatValue(a);
    ReadFormatValue(b);
  }

  /** A start offset of 0 (the table's default) shows the parsed value unchanged,
      and a missing value stays missing whatever the offset. */
  lemma AddNonNullIdentity(b: Option<int>, offset: int)
    ensures AddNonNull(Some(0), b) == b
    ensures b.None? <==> AddNonNull(Some(offset), b).None?
  {
  }

  /** Start offsets compose by addition, and the opposite offset takes the
      shown value back to the parsed one. */
  lemma AddNonNullShift(b: Option<int>, x: int, y: int)
    ensures AddNonNull(Some(x), AddNonNull(Some(y), b)) == AddNonNull(Some(x + y), b)
    ensures AddNonNull(Some(-x), AddNonNull(Some(x), b)) == b
  {
  }

  /** A table cell with a start offset shows `-` exactly when the parsed
      value is missing, and otherwise the text of the offset value. */
  lemma OffsetCell(b: Option<int>, offset: int)
    ensures FormatValue(AddNonNull(Some(offset), b)) == "-" <==> b.None?
    ensures b.Some? ==> ReadValue(FormatValue(AddNonNull(Some(offset), b))) == Some(Some(offset + b.value))
  {
    ReadFormatValue(AddNonNull(Some(offset), b));
  }
}
