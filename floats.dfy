/**
 * The float64 values the summary line prints, and their text as
 * `str(x.round(2))` writes it. Every finite value the code prints has been
 * rounded to two decimal places, so it is modelled exactly as a whole number
 * of hundredths; the other float64 values are the two infinities and NaN
 * (which pandas uses for a missing cell).
 */
module Floats {
  import opened Wrappers
  import opened Numerals

  datatype Value = Num(hundredths: int) | PosInf | NegInf | NaN

  /** Python's `x < 0.0`, which is false for NaN. */
  predicate IsNegative(v: Value)
  {
    v == NegInf || (v.Num? && v.hundredths < 0)
  }

  /** Python's `x > 0.0`, which is false for NaN. */
  predicate IsPositive(v: Value)
    ensures IsPositive(v) ==> !IsNegative(v) && !v.NaN?
    ensures v.Num? && v.hundredths == 0 ==> !IsPositive(v) && !IsNegative(v)
    ensures v.Num? ==> (IsPositive(v) || IsNegative(v) || v.hundredths == 0)
    ensures !v.Num? ==> (IsPositive(v) <==> v == PosInf)
  {
    v == PosInf || (v.Num? && v.hundredths > 0)
  }

  /**
   * Float subtraction: exact on hundredths; an infinity minus anything
   * finite or minus the opposite infinity keeps its sign, a finite value
   * minus an infinity gives the opposite infinity, and an infinity minus
   * itself or anything involving NaN gives NaN.
   */
  function Sub(a: Value, b: Value): (r: Value)
    ensures r.Num? <==> a.Num? && b.Num?
    ensures r.Num? ==> r.hundredths + b.hundredths == a.hundredths
    ensures r.NaN? <==> a.NaN? || b.NaN? || (a == b && (a == PosInf || a == NegInf))
    ensures r == PosInf <==> (a == PosInf && (b.Num? || b == NegInf)) || (a.Num? && b == NegInf)
    ensures r == NegInf <==> (a == NegInf && (b.Num? || b == PosInf)) || (a.Num? && b == PosInf)
  {
    match (a, b)
    case (Num(x), Num(y)) => Num(x - y)
    case (NaN, _) => NaN
    case (_, NaN) => NaN
    case (PosInf, PosInf) => NaN
    case (NegInf, NegInf) => NaN
    case (PosInf, _) => PosInf
    case (NegInf, _) => NegInf
    case (Num(_), PosInf) => NegInf
    case (Num(_), NegInf) => PosInf
  }

  /**
   * The digits after the point in the shortest representation of a number
   * of hundredths: one digit when the hundredths digit is 0 ("50.0",
   * "50.2"), two otherwise ("50.25").
   */
  function FractionDigits(f: nat): (s: string)
    requires f < 100
    ensures 1 <= |s| <= 2 && AllDigits(s)
    ensures |s| == 1 <==> f % 10 == 0
  {
    if f % 10 == 0 then [DigitChar(f / 10)] else [DigitChar(f / 10), DigitChar(f % 10)]
  }

  /** The text of a non-negative number of hundredths: whole part, '.', fraction digits. */
  function Unsigned(m: nat): (s: string)
    ensures |s| >= 3 && IsDigit(s[0]) && IsDigit(s[|s| - 1])
    ensures forall i :: 0 <= i < |s| ==> s[i] != ' '
  {
    var w := NatToString(m / 100);
    var f := FractionDigits(m % 100);
    assert forall i :: 0 <= i < |f| ==> IsDigit(f[i]);
    w + "." + f
  }

  /**
   * Python's `str` of the float: "nan", "inf", "-inf", or the number, with
   * a leading '-' when it is negative and never a '+'.
   */
  function Format(v: Value): (s: string)
    ensures |s| >= 3
    ensures forall i :: 0 <= i < |s| ==> s[i] != ' '
    ensures s[0] == '-' <==> IsNegative(v)
    ensures s[0] != '+'
  {
    match v
    case NaN => "nan"
    case PosInf => "inf"
    case NegInf => "-inf"
    case Num(h) => if h < 0 then "-" + Unsigned(-h) else Unsigned(h)
  }

  /** Reads the text `Unsigned` writes: digits, '.', one or two digits. */
  function ParseUnsigned(s: string): Option<nat>
  {
    var n := |s|;
    if n >= 3 && s[n - 2] == '.' && |s[..n - 2]| >= 1 && AllDigits(s[..n - 2]) && IsDigit(s[n - 1]) then
      Some(DigitsValue(s[..n - 2]) * 100 + DigitValue(s[n - 1]) * 10)
    else if n >= 4 && s[n - 3] == '.' && AllDigits(s[..n - 3]) && IsDigit(s[n - 2]) && IsDigit(s[n - 1]) then
      Some(DigitsValue(s[..n - 3]) * 100 + DigitValue(s[n - 2]) * 10 + DigitValue(s[n - 1]))
    else
      None
  }

  /** Reads the text `Format` writes back into a value. */
  function Parse(s: string): Option<Value>
  {
    if s == "nan" then Some(NaN)
    else if s == "inf" then Some(PosInf)
    else if s == "-inf" then Some(NegInf)
    else if |s| >= 1 && s[0] == '-' then
      match ParseUnsigned(s[1..])
      case Some(m) => Some(Num(-(m as int)))
      case None => None
    else
      match ParseUnsigned(s)
      case Some(m) => Some(Num(m))
      case None => None
  }

  lemma ParseUnsignedOfUnsigned(m: nat)
    ensures ParseUnsigned(Unsigned(m)) == Some(m)
  {
    var w := NatToString(m / 100);
    var f := FractionDigits(m % 100);
    var s := Unsigned(m);
    DigitsValueOfNatToString(m / 100);
    if |f| == 1 {
      assert s[..|s| - 2] == w && s[|s| - 2] == '.' && s[|s| - 1] == f[0];
    } else {
      assert s[..|s| - 3] == w && s[|s| - 3] == '.' && s[|s| - 2] == f[0] && s[|s| - 1] == f[1];
    }
  }

  /** Every printed value reads back as itself. */
  lemma ParseOfFormat(v: Value)
    ensures Parse(Format(v)) == Some(v)
  {
    match v
    case NaN =>
    case PosInf =>
    case NegInf =>
    case Num(h) =>
      var m: nat := if h < 0 then -h else h;
      ParseUnsignedOfUnsigned(m);
      var s := Format(v);
      if h < 0 {
        assert s[1..] == Unsigned(m);
      }
      assert s != "nan" && s != "inf" by { assert s[0] != 'n' && s[0] != 'i'; }
      assert s != "-inf" by {
        if h < 0 { assert s[1] == Unsigned(m)[0]; } else { assert s[0] != '-'; }
      }
  }
}
