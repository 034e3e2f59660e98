/**
 * Decimal text for integers, as Python builds and reads it: `str(n)` and
 * `int(s)`.
 */
module Numerals {
  import opened Wrappers

  predicate IsDigit(c: char) { '0' <= c <= '9' }

  predicate AllDigits(s: string) { forall i :: 0 <= i < |s| ==> IsDigit(s[i]) }

  function DigitChar(d: nat): (c: char)
    requires d < 10
    ensures IsDigit(c) && c as int - '0' as int == d
  {
    ('0' as int + d) as char
  }

  function DigitValue(c: char): (d: nat)
    requires IsDigit(c)
    ensures d < 10 && DigitChar(d) == c
  {
    c as int - '0' as int
  }

  /** The digits of `n`, most significant first, without leading zeros. */
  function NatToString(n: nat): (s: string)
    ensures |s| >= 1 && AllDigits(s)
    ensures (s[0] == '0') == (n == 0)
    ensures n < 10 <==> |s| == 1
    decreases n
  {
    if n < 10 then [DigitChar(n)] else NatToString(n / 10) + [DigitChar(n % 10)]
  }

  /** The number a string of decimal digits denotes, read most significant first. */
  function DigitsValue(s: string): nat
    requires AllDigits(s)
  {
    if s == [] then 0 else DigitsValue(s[..|s| - 1]) * 10 + DigitValue(s[|s| - 1])
  }

  lemma {:induction false} DigitsValueOfNatToString(n: nat)
    ensures DigitsValue(NatToString(n)) == n
    decreases n
  {
    if n >= 10 {
      var s := NatToString(n);
      assert s[..|s| - 1] == NatToString(n / 10);
      DigitsValueOfNatToString(n / 10);
    }
  }

  /** Python's `str(i)` for an int. */
  function IntToString(i: int): (s: string)
    ensures |s| >= 1 && (s[0] == '-') == (i < 0)
    ensures i >= 0 ==> AllDigits(s)
    ensures i < 0 ==> |s| >= 2 && AllDigits(s[1..])
  {
    if i < 0 then "-" + NatToString(-i) else NatToString(i)
  }

  /** The six ASCII characters that `int()` skips around a literal. */
  predicate IsSpace(c: char)
  {
    c == ' ' || c == '\t' || c == '\n' || c == '\r' || c == '\U{0B}' || c == '\U{0C}'
  }

  function StripLeading(s: string): (r: string)
    ensures |r| <= |s|
    ensures r == [] || !IsSpace(r[0])
  {
    if |s| > 0 && IsSpace(s[0]) then StripLeading(s[1..]) else s
  }

  function StripTrailing(s: string): (r: string)
    ensures |r| <= |s|
    ensures r == [] || !IsSpace(r[|r| - 1])
  {
    if |s| > 0 && IsSpace(s[|s| - 1]) then StripTrailing(s[..|s| - 1]) else s
  }

  /** `s` with its surrounding whitespace removed, as `int()` does before reading. */
  function Strip(s: string): string
  {
    StripTrailing(StripLeading(s))
  }

  /**
   * The digits of a literal of the form digit ('_'? digit)*, with the
   * underscores removed; None for any other string.
   */
  function Digits(s: string): (r: Option<string>)
    ensures r.Some? ==> |r.value| >= 1 && AllDigits(r.value)
    ensures |s| >= 1 && AllDigits(s) ==> r == Some(s)
    decreases |s|
  {
    if |s| == 0 || !IsDigit(s[0]) then None
    else if |s| == 1 then Some(s)
    else
      var rest := if s[1] == '_' then s[2..] else s[1..];
      match Digits(rest)
      case None => None
      case Some(d) =>
        assert AllDigits(s) ==> rest == s[1..] && [s[0]] + rest == s;
        Some([s[0]] + d)
  }

  /** What went wrong when `int()` could not read a literal. */
  datatype ParseError = ValueError(literal: string)

  /** The integer an already stripped literal denotes: an optional sign, then digits. */
  function ParseStripped(t: string): Option<int>
  {
    var signed := |t| > 0 && (t[0] == '-' || t[0] == '+');
    var body := if signed then t[1..] else t;
    match Digits(body)
    case None => None
    case Some(d) =>
      var n: int := DigitsValue(d);
      Some(if signed && t[0] == '-' then -n else n)
  }

  /**
   * Python's `int(s)` in base 10: surrounding whitespace, then an optional
   * sign, then digits optionally separated by single underscores.
   */
  function ParseInt(s: string): (r: Result<int, ParseError>)
    ensures r.Failure? ==> r.error == ValueError(s)
  {
    match ParseStripped(Strip(s))
    case None => Failure(ValueError(s))
    case Some(n) => Success(n)
  }

  lemma StripUnpadded(s: string)
    requires |s| >= 1 && !IsSpace(s[0]) && !IsSpace(s[|s| - 1])
    ensures Strip(s) == s
  {
    assert StripLeading(s) == s;
  }

  lemma ParseStrippedOfDigits(d: string)
    requires |d| >= 1 && AllDigits(d)
    ensures ParseStripped(d) == Some(DigitsValue(d) as int)
  {
    assert Digits(d) == Some(d);
  }

  lemma ParseStrippedOfNegated(t: string, d: string)
    requires |d| >= 1 && AllDigits(d) && t == "-" + d
    ensures ParseStripped(t) == Some(-(DigitsValue(d) as int))
  {
    assert t[1..] == d;
    assert Digits(d) == Some(d);
  }

  lemma ParseIntOfNatToString(n: nat)
    ensures ParseInt(NatToString(n)) == Success(n as int)
  {
    var d := NatToString(n);
    assert IsDigit(d[0]) && IsDigit(d[|d| - 1]);
    StripUnpadded(d);
    ParseStrippedOfDigits(d);
    DigitsValueOfNatToString(n);
  }

  lemma ParseIntOfNegated(t: string, n: nat)
    requires t == "-" + NatToString(n)
    ensures ParseInt(t) == Success(-(n as int))
  {
    var d := NatToString(n);
    assert IsDigit(d[|d| - 1]) && t[|t| - 1] == d[|d| - 1];
    StripUnpadded(t);
    ParseStrippedOfNegated(t, d);
    DigitsValueOfNatToString(n);
  }

  /** Reading back what `str` wrote gives the same integer. */
  lemma ParseIntOfIntToString(i: int)
    ensures ParseInt(IntToString(i)) == Success(i)
  {
    if i < 0 {
      ParseIntOfNegated(IntToString(i), -i);
    } else {
      ParseIntOfNatToString(i);
    }
  }

  predicate AllSpace(s: string) { forall i :: 0 <= i < |s| ==> IsSpace(s[i]) }

  lemma {:induction false} StripLeadingPad(lead: string, s: string)
    requires AllSpace(lead)
    ensures StripLeading(lead + s) == StripLeading(s)
  {
    if lead != [] {
      assert (lead + s)[0] == lead[0] && IsSpace(lead[0]);
      assert AllSpace(lead[1..]) by {
        forall i | 0 <= i < |lead| - 1 ensures IsSpace(lead[1..][i]) { assert lead[1..][i] == lead[i + 1]; }
      }
      assert (lead + s)[1..] == lead[1..] + s;
      StripLeadingPad(lead[1..], s);
    } else {
      assert lead + s == s;
    }
  }

  lemma {:induction false} StripTrailingPad(s: string, trail: string)
    requires AllSpace(trail)
    ensures StripTrailing(s + trail) == StripTrailing(s)
  {
    if trail != [] {
      var rest := trail[..|trail| - 1];
      assert (s + trail)[|s + trail| - 1] == trail[|trail| - 1] && IsSpace(trail[|trail| - 1]);
      assert AllSpace(rest) by {
        forall i | 0 <= i < |rest| ensures IsSpace(rest[i]) { assert rest[i] == trail[i]; }
      }
      assert (s + trail)[..|s + trail| - 1] == s + rest;
      StripTrailingPad(s, rest);
    } else {
      assert s + trail == s;
    }
  }

  lemma {:induction false} StripLeadingAppend(s: string, t: string)
    ensures StripLeading(s + t) == if StripLeading(s) == [] then StripLeading(t) else StripLeading(s) + t
  {
    if s != [] && IsSpace(s[0]) {
      assert (s + t)[1..] == s[1..] + t;
      StripLeadingAppend(s[1..], t);
    } else if s == [] {
      assert s + t == t;
    }
  }

  /** Whitespace around a literal never changes what `int()` reads. */
  lemma ParseIntIgnoresPadding(lead: string, s: string, trail: string)
    requires AllSpace(lead) && AllSpace(trail)
    ensures ParseInt(lead + s + trail) == (if ParseInt(s).Success? then ParseInt(s) else Failure(ValueError(lead + s + trail)))
  {
    StripLeadingPad(lead, s + trail);
    assert lead + s + trail == lead + (s + trail);
    StripLeadingAppend(s, trail);
    if StripLeading(s) == [] {
      StripLeadingPad(trail, []);
      assert trail + [] == trail;
    } else {
      StripTrailingPad(StripLeading(s), trail);
    }
    assert Strip(lead + s + trail) == Strip(s);
  }

  // ---------------------------------------------------------------------
  // Which literals `int()` accepts, and what they read as
  // ---------------------------------------------------------------------

  /** Every literal `Digits` accepts starts and ends with a digit and holds only digits and underscores. */
  lemma {:induction false} DigitsShape(s: string)
    requires Digits(s).Some?
    ensures |s| >= 1 && IsDigit(s[0]) && IsDigit(s[|s| - 1])
    ensures forall i :: 0 <= i < |s| ==> IsDigit(s[i]) || s[i] == '_'
    decreases |s|
  {
    if |s| > 1 {
      var k := if s[1] == '_' then 2 else 1;
      var rest := s[k..];
      DigitsShape(rest);
      assert s[|s| - 1] == rest[|rest| - 1];
      forall i | 0 <= i < |s| ensures IsDigit(s[i]) || s[i] == '_' {
        if i >= k { assert s[i] == rest[i - k]; }
      }
    }
  }

  lemma {:induction false} StripLeadingShape(s: string)
    ensures var k := |s| - |StripLeading(s)|;
      StripLeading(s) == s[k..] && AllSpace(s[..k])
  {
    if |s| > 0 && IsSpace(s[0]) {
      StripLeadingShape(s[1..]);
      var k := |s| - |StripLeading(s)|;
      assert s[1..][k - 1..] == s[k..];
      forall i | 0 <= i < k ensures IsSpace(s[..k][i]) {
        if i > 0 { assert s[..k][i] == s[1..][..k - 1][i - 1]; }
      }
    }
  }

  lemma {:induction false} StripTrailingShape(s: string)
    ensures var k := |StripTrailing(s)|;
      StripTrailing(s) == s[..k] && AllSpace(s[k..])
  {
    if |s| > 0 && IsSpace(s[|s| - 1]) {
      var u := s[..|s| - 1];
      StripTrailingShape(u);
      var k := |StripTrailing(s)|;
      assert u[..k] == s[..k];
      forall i | 0 <= i < |s| - k ensures IsSpace(s[k..][i]) {
        if k + i < |s| - 1 { assert s[k..][i] == u[k..][i]; }
      }
    }
  }

  /** The three ways a literal may begin: no sign, a plus or a minus. */
  predicate IsSign(sg: string) { |sg| == 0 || (|sg| == 1 && (sg[0] == '+' || sg[0] == '-')) }

  /** The value of a sign and a literal of digits and underscores: the digits read as a number, negated after a minus. */
  function LiteralValue(sg: string, d: string): int
    requires Digits(d).Some?
  {
    var n: int := DigitsValue(Digits(d).value);
    if |sg| == 1 && sg[0] == '-' then -n else n
  }

  /**
   * Every literal of the form whitespace, optional sign, digits with single
   * underscores between them, whitespace reads as its value: "+2020",
   * "02020", "2_020" and " 2020\n" all read as 2020.
   */
  lemma ParseIntOfLiteral(lead: string, sg: string, d: string, trail: string)
    requires AllSpace(lead) && AllSpace(trail) && IsSign(sg) && Digits(d).Some?
    ensures ParseInt(lead + (sg + d) + trail) == Success(LiteralValue(sg, d))
  {
    ParseIntOfSigned(sg, d);
    ParseIntPadded(lead, sg + d, trail);
  }

  lemma ParseIntPadded(lead: string, t: string, trail: string)
    requires AllSpace(lead) && AllSpace(trail) && ParseInt(t).Success?
    ensures ParseInt(lead + t + trail) == ParseInt(t)
  {
    ParseIntIgnoresPadding(lead, t, trail);
  }

  lemma ParseIntOfSigned(sg: string, d: string)
    requires IsSign(sg) && Digits(d).Some?
    ensures ParseInt(sg + d) == Success(LiteralValue(sg, d))
  {
    var t := sg + d;
    DigitsShape(d);
    UnpaddedSigned(sg, d);
    ParseStrippedOfSigned(sg, d);
    ParseIntOfUnpadded(t);
  }

  lemma UnpaddedSigned(sg: string, d: string)
    requires IsSign(sg) && |d| >= 1 && IsDigit(d[0]) && IsDigit(d[|d| - 1])
    ensures var t := sg + d; |t| >= 1 && !IsSpace(t[0]) && !IsSpace(t[|t| - 1])
  {
    var t := sg + d;
    assert t[|t| - 1] == d[|d| - 1];
    var c := t[0];
    assert c == '+' || c == '-' || IsDigit(c) by {
      if |sg| == 0 { assert t == d; } else { assert c == sg[0]; }
    }
  }

  lemma ParseIntOfUnpadded(t: string)
    requires |t| >= 1 && !IsSpace(t[0]) && !IsSpace(t[|t| - 1])
    ensures ParseInt(t) == match ParseStripped(t) case None => Failure(ValueError(t)) case Some(n) => Success(n)
  {
    StripUnpadded(t);
  }

  lemma ParseStrippedOfSigned(sg: string, d: string)
    requires IsSign(sg) && Digits(d).Some?
    ensures ParseStripped(sg + d) == Some(LiteralValue(sg, d))
  {
    DigitsShape(d);
    if |sg| == 0 {
      assert sg + d == d;
    } else {
      assert (sg + d)[0] == sg[0] && (sg + d)[1..] == d;
    }
  }

  /** Splits a literal `ParseStripped` reads into its sign and its digits. */
  lemma SplitStripped(t: string) returns (sg: string, d: string)
    requires ParseStripped(t).Some?
    ensures t == sg + d && IsSign(sg) && Digits(d).Some?
    ensures ParseStripped(t) == Some(LiteralValue(sg, d))
  {
    var signed := |t| > 0 && (t[0] == '-' || t[0] == '+');
    sg := if signed then t[..1] else "";
    d := if signed then t[1..] else t;
    assert t == sg + d;
    ParseStrippedOfSigned(sg, d);
  }

  /** Conversely, every string `int()` reads is such a literal, and reads as its value. */
  lemma ParseIntSuccessIsLiteral(s: string)
    requires ParseInt(s).Success?
    ensures exists lead, sg, d, trail ::
      && s == lead + (sg + d) + trail
      && AllSpace(lead) && AllSpace(trail) && IsSign(sg) && Digits(d).Some?
      && ParseInt(s).value == LiteralValue(sg, d)
  {
    var lead, sg, d, trail := SplitLiteral(s);
  }

  /** Splits a string `int()` reads into whitespace, sign, digits and whitespace. */
  lemma SplitLiteral(s: string) returns (lead: string, sg: string, d: string, trail: string)
    requires ParseInt(s).Success?
    ensures s == lead + (sg + d) + trail
    ensures AllSpace(lead) && AllSpace(trail) && IsSign(sg) && Digits(d).Some?
    ensures ParseInt(s).value == LiteralValue(sg, d)
  {
    var t;
    lead, t, trail := SplitPadding(s);
    sg, d := SplitStripped(t);
  }

  /** Splits a string into its leading whitespace, what `Strip` keeps, and its trailing whitespace. */
  lemma SplitPadding(s: string) returns (lead: string, t: string, trail: string)
    ensures s == lead + t + trail && t == Strip(s)
    ensures AllSpace(lead) && AllSpace(trail)
  {
    StripLeadingShape(s);
    var u := StripLeading(s);
    StripTrailingShape(u);
    t := StripTrailing(u);
    var k := |s| - |u|;
    lead, trail := s[..k], u[|t|..];
    assert u == s[k..];
    assert s == s[..k] + s[k..];
    assert u == t + trail;
  }

  /** A character that may stand in a literal `int()` accepts. */
  predicate IsLiteralChar(c: char)
  {
    IsDigit(c) || IsSpace(c) || c == '+' || c == '-' || c == '_'
  }

  /** The characters of a literal `int()` reads: literal characters only, and a digit after the sign. */
  lemma LiteralChars(lead: string, sg: string, d: string, trail: string)
    requires AllSpace(lead) && AllSpace(trail) && IsSign(sg) && Digits(d).Some?
    ensures var s := lead + (sg + d) + trail;
      && (forall i :: 0 <= i < |s| ==> IsLiteralChar(s[i]))
      && IsDigit(s[|lead| + |sg|])
  {
    DigitsShape(d);
    var s := lead + (sg + d) + trail;
    assert s[|lead| + |sg|] == d[0];
  }

  /** A string holding any other character raises ValueError: "FY20", "2020.0". */
  lemma ParseIntRejectsForeignChar(s: string, i: nat)
    requires i < |s| && !IsLiteralChar(s[i])
    ensures ParseInt(s) == Failure(ValueError(s))
  {
    if ParseInt(s).Success? {
      var lead, sg, d, trail := SplitLiteral(s);
      LiteralChars(lead, sg, d, trail);
    }
  }

  /** A string without a digit raises ValueError: "", "  ", "-", "_". */
  lemma ParseIntRejectsNoDigit(s: string)
    requires forall i :: 0 <= i < |s| ==> !IsDigit(s[i])
    ensures ParseInt(s) == Failure(ValueError(s))
  {
    if ParseInt(s).Success? {
      var lead, sg, d, trail := SplitLiteral(s);
      LiteralChars(lead, sg, d, trail);
    }
  }

  /** Year labels `int()` refuses: a prefix, a decimal point. */
  lemma RejectedLabels()
    ensures ParseInt("FY20") == Failure(ValueError("FY20"))
    ensures ParseInt("2020.0") == Failure(ValueError("2020.0"))
  {
    var a, b := "FY20", "2020.0";
    assert a[0] == 'F' && b[4] == '.';
    ParseIntRejectsForeignChar(a, 0);
    ParseIntRejectsForeignChar(b, 4);
  }

  /** A lone sign is not a number. */
  lemma RejectedSign()
    ensures ParseInt(" - ") == Failure(ValueError(" - "))
  {
    var s := " - ";
    assert s[0] == ' ' && s[1] == '-' && s[2] == ' ';
    ParseIntRejectsNoDigit(s);
  }

  /** A sign and underscores between digits are accepted. */
  lemma AcceptedUnderscore()
    ensures ParseInt("+2_020") == Success(2020)
  {
    var d := "2_020";
    UnderscoredDigits();
    ParseIntOfLiteral("", "+", d, "");
    assert "" + ("+" + d) + "" == "+2_020";
  }

  lemma UnderscoredDigits()
    ensures Digits("2_020") == Some("2020") && DigitsValue("2020") == 2020
  {
    var d := "2_020";
    assert d[1] == '_' && d[2..] == "020";
    assert Digits("020") == Some("020");
    assert [d[0]] + "020" == "2020";
    assert "2020"[..3] == "202" && "202"[..2] == "20" && "20"[..1] == "2";
  }

  /** A leading zero and surrounding whitespace are accepted. */
  lemma AcceptedPadded()
    ensures ParseInt(" -07\n") == Success(-7)
  {
    var d := "07";
    assert Digits(d) == Some(d);
    assert DigitsValue(d) == 7 by { assert d[..1] == "0"; }
    ParseIntOfLiteral(" ", "-", d, "\n");
    assert " " + ("-" + d) + "\n" == " -07\n";
  }

  // ---------------------------------------------------------------------
  // The literals `Digits` accepts, stated without its recursion
  // ---------------------------------------------------------------------

  /** Digits and underscores, a digit at each end, and never two underscores together. */
  predicate IsDigitLiteral(s: string)
  {
    && |s| >= 1 && IsDigit(s[0]) && IsDigit(s[|s| - 1])
    && (forall i :: 0 <= i < |s| ==> IsDigit(s[i]) || s[i] == '_')
    && (forall i :: 0 <= i < |s| - 1 && s[i] == '_' ==> s[i + 1] != '_')
  }

  /** The string with every underscore removed. */
  function WithoutUnderscores(s: string): string
  {
    if s == [] then [] else (if s[0] == '_' then [] else [s[0]]) + WithoutUnderscores(s[1..])
  }

  /** `Digits` accepts exactly the digit literals. */
  lemma {:induction false} DigitsAcceptsLiterals(s: string)
    ensures Digits(s).Some? <==> IsDigitLiteral(s)
    decreases |s|
  {
    if |s| >= 2 && IsDigit(s[0]) {
      var rest := if s[1] == '_' then s[2..] else s[1..];
      DigitsAcceptsLiterals(rest);
      if s[1] == '_' {
        LiteralAfterUnderscore(s);
      } else {
        LiteralAfterDigit(s);
      }
    }
  }

  lemma LiteralAfterUnderscore(s: string)
    requires |s| >= 2 && IsDigit(s[0]) && s[1] == '_'
    ensures IsDigitLiteral(s) <==> IsDigitLiteral(s[2..])
  {
    var rest := s[2..];
    if IsDigitLiteral(s) {
      assert s[2] != '_';
      assert rest[|rest| - 1] == s[|s| - 1];
      forall i | 0 <= i < |rest| ensures IsDigit(rest[i]) || rest[i] == '_' { assert rest[i] == s[i + 2]; }
      forall i | 0 <= i < |rest| - 1 && rest[i] == '_' ensures rest[i + 1] != '_' {
        assert rest[i] == s[i + 2] && rest[i + 1] == s[i + 3];
      }
    }
    if IsDigitLiteral(rest) {
      assert s[2] == rest[0] && s[|s| - 1] == rest[|rest| - 1];
      forall i | 0 <= i < |s| ensures IsDigit(s[i]) || s[i] == '_' { if i >= 2 { assert s[i] == rest[i - 2]; } }
      forall i | 0 <= i < |s| - 1 && s[i] == '_' ensures s[i + 1] != '_' {
        if i >= 2 { assert s[i] == rest[i - 2] && s[i + 1] == rest[i - 1]; }
      }
    }
  }

  lemma LiteralAfterDigit(s: string)
    requires |s| >= 2 && IsDigit(s[0]) && s[1] != '_'
    ensures IsDigitLiteral(s) <==> IsDigitLiteral(s[1..])
  {
    var rest := s[1..];
    if IsDigitLiteral(s) {
      assert rest[|rest| - 1] == s[|s| - 1];
      forall i | 0 <= i < |rest| ensures IsDigit(rest[i]) || rest[i] == '_' { assert rest[i] == s[i + 1]; }
      forall i | 0 <= i < |rest| - 1 && rest[i] == '_' ensures rest[i + 1] != '_' {
        assert rest[i] == s[i + 1] && rest[i + 1] == s[i + 2];
      }
    }
    if IsDigitLiteral(rest) {
      assert s[1] == rest[0] && s[|s| - 1] == rest[|rest| - 1];
      forall i | 0 <= i < |s| ensures IsDigit(s[i]) || s[i] == '_' { if i >= 1 { assert s[i] == rest[i - 1]; } }
      forall i | 0 <= i < |s| - 1 && s[i] == '_' ensures s[i + 1] != '_' {
        if i >= 1 { assert s[i] == rest[i - 1] && s[i + 1] == rest[i]; }
      }
    }
  }

  /** What `Digits` keeps of a literal is the literal with its underscores removed. */
  lemma {:induction false} DigitsDropsUnderscores(s: string)
    requires Digits(s).Some?
    ensures Digits(s).value == WithoutUnderscores(s)
    decreases |s|
  {
    if |s| == 1 {
      assert WithoutUnderscores(s) == [s[0]] + WithoutUnderscores(s[1..]);
    } else {
      var rest := if s[1] == '_' then s[2..] else s[1..];
      DigitsDropsUnderscores(rest);
      assert WithoutUnderscores(s) == [s[0]] + WithoutUnderscores(s[1..]);
      if s[1] == '_' {
        assert WithoutUnderscores(s[1..]) == [] + WithoutUnderscores(s[1..][1..]);
        assert s[1..][1..] == rest;
      }
    }
  }
}
