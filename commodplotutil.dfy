/**
 * The two helpers the seasonal line plots use: a line colour that stays the
 * same for a year across charts, and the "latest change" text appended to a
 * chart title.
 */
module CommodPlotUtil {
  import opened Wrappers
  import opened Numerals
  import opened Floats

  // ---------------------------------------------------------------------
  // Line colour per year
  // ---------------------------------------------------------------------

  /** The colour of a year the table does not cover. */
  const DefaultLineCol: string := "khaki"

  /** The colour of each offset from the current year, five years back to three ahead. */
  const YearColMap: map<int, string> := map[
    -5 := "darkorchid",
    -4 := "purple",
    -3 := "blue",
    -2 := "green",
    -1 := "orange",
    0 := "black",
    1 := "red",
    2 := "orangered",
    3 := "paleturquoise"
  ]

  /** The oldest and the newest offset the table covers. */
  const MinOffset: int := -5
  const MaxOffset: int := 3

  /** The argument of the colour lookup: an int, or a string that holds one. */
  datatype Year = IntYear(year: int) | StrYear(text: string)

  /** The table lookup with its fallback: the table's colour inside the window, the default outside. */
  function OffsetColour(delta: int): (c: string)
    ensures MinOffset <= delta <= MaxOffset ==> c == YearColMap[delta]
    ensures !(MinOffset <= delta <= MaxOffset) ==> c == DefaultLineCol
  {
    if delta in YearColMap then YearColMap[delta] else DefaultLineCol
  }

  /**
   * The colour of a year, given the current year: a string is first read
   * as an integer, which raises ValueError when it holds none. An integer
   * year always gets a colour: the table's entry for its offset when it
   * lies between five years before and three years after the current year,
   * and khaki otherwise.
   */
  function GetYearLineCol(year: Year, curyear: int): (r: Result<string, ParseError>)
    ensures year.IntYear? ==> r.Success?
    ensures year.IntYear? && curyear + MinOffset <= year.year <= curyear + MaxOffset ==>
      r == Success(YearColMap[year.year - curyear])
    ensures year.IntYear? && !(curyear + MinOffset <= year.year <= curyear + MaxOffset) ==>
      r == Success(DefaultLineCol)
    ensures year.StrYear? ==> (r.Success? <==> ParseInt(year.text).Success?)
    ensures year.StrYear? && r.Success? ==> r.value == OffsetColour(ParseInt(year.text).value - curyear)
    ensures r.Failure? ==> year.StrYear? && r.error == ValueError(year.text)
  {
    match year
    case IntYear(y) => Success(OffsetColour(y - curyear))
    case StrYear(s) =>
      match ParseInt(s)
      case Success(y) => Success(OffsetColour(y - curyear))
      case Failure(e) => Failure(e)
  }

  /** The table holds exactly the offsets from MinOffset to MaxOffset. */
  lemma TableCoversWindow()
    ensures forall d :: d in YearColMap <==> MinOffset <= d <= MaxOffset
  {
  }

  /** The current year is always drawn in black. */
  lemma CurrentYearIsBlack(curyear: int)
    ensures GetYearLineCol(IntYear(curyear), curyear) == Success("black")
    ensures GetYearLineCol(StrYear(IntToString(curyear)), curyear) == Success("black")
  {
    ParseIntOfIntToString(curyear);
  }

  /** The colour depends only on the distance between the year and the current year. */
  lemma ColourDependsOnOffsetOnly(year: int, curyear: int, k: int)
    ensures GetYearLineCol(IntYear(year + k), curyear + k) == GetYearLineCol(IntYear(year), curyear)
  {
  }

  /** A year written as a string, as `str` writes it, gets the colour of the integer year. */
  lemma StringYearAgrees(year: int, curyear: int)
    ensures GetYearLineCol(StrYear(IntToString(year)), curyear) == GetYearLineCol(IntYear(year), curyear)
  {
    ParseIntOfIntToString(year);
  }

  /** Whitespace around a year string does not change its colour. */
  lemma PaddedStringYearAgrees(lead: string, year: int, trail: string, curyear: int)
    requires AllSpace(lead) && AllSpace(trail)
    ensures GetYearLineCol(StrYear(lead + IntToString(year) + trail), curyear) == GetYearLineCol(IntYear(year), curyear)
  {
    ParseIntOfIntToString(year);
    ParseIntIgnoresPadding(lead, IntToString(year), trail);
  }

  /**
   * Inside the window every year has its own colour, and none of them is
   * the default: the colour of such a year tells its offset.
   */
  lemma WindowColoursDistinct(a: int, b: int)
    requires MinOffset <= a <= MaxOffset
    requires OffsetColour(a) == OffsetColour(b)
    ensures a == b
  {
  }

  // ---------------------------------------------------------------------
  // Latest-change summary
  // ---------------------------------------------------------------------

  /**
   * A DataFrame as the list of its columns, each a list of cells from the
   * top row down. A DataFrame's columns all have the same length; the type
   * does not insist on it, which is harmless because only the first column
   * is ever read.
   */
  datatype Frame = Frame(columns: seq<seq<Value>>)

  /** Positional indexing past the end of a DataFrame raises IndexError. */
  datatype FrameError = IndexError

  function Min(a: nat, b: nat): nat { if a < b then a else b }

  /** `tail(n)`: the last n rows, or all of them when there are fewer. */
  function Tail<T>(s: seq<T>, n: nat): (r: seq<T>)
    ensures |r| == Min(n, |s|)
    ensures forall i :: 0 <= i < |r| ==> r[i] == s[|s| - |r| + i]
  {
    s[|s| - Min(n, |s|)..]
  }

  /** `head(n)`: the first n rows, or all of them when there are fewer. */
  function Head<T>(s: seq<T>, n: nat): (r: seq<T>)
    ensures |r| == Min(n, |s|)
    ensures forall i :: 0 <= i < |r| ==> r[i] == s[i]
  {
    s[..Min(n, |s|)]
  }

  /** What stands between the latest value and the change: three spaces, U+25B3, a colon, a space. */
  const Separator: string := "   \U{25B3}: "

  /** A '+' before a change that is greater than zero; nothing before zero, a negative change or NaN. */
  function SignPrefix(delta: Value): (p: string)
    ensures p == "+" <==> IsPositive(delta)
    ensures p == "" <==> !IsPositive(delta)
  {
    if IsPositive(delta) then "+" else ""
  }

  /**
   * The summary line for a latest value and the change that led to it: it
   * opens with the text of the latest value and closes with the text of
   * the change (SummaryLayout gives the whole layout, DecodeOfSummary its
   * inverse).
   */
  function SummaryText(latest: Value, delta: Value): (s: string)
    ensures |s| == |Format(latest)| + |Separator| + |SignPrefix(delta)| + |Format(delta)|
    ensures s[..|Format(latest)|] == Format(latest)
    ensures s[|s| - |Format(delta)|..] == Format(delta)
  {
    Format(latest) + Separator + SignPrefix(delta) + Format(delta)
  }

  /**
   * The summary of the first column of a DataFrame: its last cell and the
   * change from the cell before it. With a single row that row is also the
   * one before, so the change is the cell minus itself: zero for a number,
   * NaN otherwise. With no row or no column the positional lookup raises
   * IndexError.
   */
  function DeltaSummaryStr(df: Frame): (r: Result<string, FrameError>)
    ensures r.Failure? <==> |df.columns| == 0 || |df.columns[0]| == 0
    ensures r.Success? ==>
      var col := df.columns[0];
      var n := |col|;
      r.value == SummaryText(col[n - 1], Sub(col[n - 1], col[if n >= 2 then n - 2 else 0]))
  {
    if |df.columns| == 0 || |df.columns[0]| == 0 then Failure(IndexError)
    else
      var col := df.columns[0];
      var val1 := Tail(col, 1)[0];
      var val2 := Head(Tail(col, 2), 1)[0];
      assert val1 == col[|col| - 1];
      assert val2 == col[if |col| >= 2 then |col| - 2 else 0];
      var delta := Sub(val1, val2);
      Success(SummaryText(val1, delta))
  }

  /** Only the first column is read: frames that agree on it have the same summary. */
  lemma SummaryReadsFirstColumnOnly(f: Frame, g: Frame)
    requires |f.columns| > 0 && |g.columns| > 0 && f.columns[0] == g.columns[0]
    ensures DeltaSummaryStr(f) == DeltaSummaryStr(g)
  {
  }

  /** Where the four parts of a concatenation sit in it. */
  lemma ConcatParts(l: string, sep: string, p: string, d: string)
    requires |d| > 0
    ensures var s := l + sep + p + d;
      && s[..|l|] == l
      && s[|l|..|l| + |sep|] == sep
      && s[|s| - |d|..] == d
      && s[|l| + |sep|] == (p + d)[0]
  {
    var s := l + sep + p + d;
    assert s == l + (sep + (p + d));
  }

  /**
   * The layout of the summary line: it opens with the rendered latest
   * value, then the separator and the sign prefix, and it closes with the
   * rendered change. The character after the separator is '+' exactly when
   * the change is positive, and '-' exactly when it is negative.
   */
  lemma SummaryLayout(latest: Value, delta: Value)
    ensures var s, k := SummaryText(latest, delta), |Format(latest)|;
      && s[..k] == Format(latest)
      && s[k..k + |Separator|] == Separator
      && s[|s| - |Format(delta)|..] == Format(delta)
      && (s[k + |Separator|] == '+' <==> IsPositive(delta))
      && (s[k + |Separator|] == '-' <==> IsNegative(delta))
  {
    var p, d := SignPrefix(delta), Format(delta);
    ConcatParts(Format(latest), Separator, p, d);
    if IsPositive(delta) {
      assert (p + d)[0] == '+';
    } else {
      assert p + d == d;
    }
  }

  /** The index of the first `c` in `s`, or `|s|` when there is none. */
  function IndexOf(s: string, c: char): (i: nat)
    ensures i <= |s|
    ensures i < |s| ==> s[i] == c
    ensures forall j :: 0 <= j < i ==> s[j] != c
  {
    if s == [] then 0 else if s[0] == c then 0 else 1 + IndexOf(s[1..], c)
  }

  /** Reads the part after the separator: a '+' exactly when the change that follows is positive. */
  function DecodeChange(rest: string): Option<Value>
  {
    var signed := |rest| > 0 && rest[0] == '+';
    match Parse(if signed then rest[1..] else rest)
    case Some(delta) => if signed == IsPositive(delta) then Some(delta) else None
    case None => None
  }

  /**
   * Reads a summary line back into the latest value and the change: the
   * latest value runs up to the first space, and the separator follows it.
   */
  function DecodeSummary(s: string): Option<(Value, Value)>
  {
    var i := IndexOf(s, ' ');
    var k := i + |Separator|;
    if k <= |s| && s[i..k] == Separator then
      match (Parse(s[..i]), DecodeChange(s[k..]))
      case (Some(latest), Some(delta)) => Some((latest, delta))
      case _ => None
    else
      None
  }

  lemma IndexOfSpaceAfter(a: string, b: string)
    requires forall j :: 0 <= j < |a| ==> a[j] != ' '
    requires |b| > 0 && b[0] == ' '
    ensures IndexOf(a + b, ' ') == |a|
  {
    var s := a + b;
    var i := IndexOf(s, ' ');
    assert s[|a|] == ' ';
  }

  /** A line made of a space-free part, the separator and a rest splits back into the two. */
  lemma SplitParts(l: string, rest: string, latest: Value, delta: Value)
    requires forall j :: 0 <= j < |l| ==> l[j] != ' '
    requires Parse(l) == Some(latest) && DecodeChange(rest) == Some(delta)
    ensures DecodeSummary(l + Separator + rest) == Some((latest, delta))
  {
    var s := l + Separator + rest;
    assert s == l + (Separator + rest);
    IndexOfSpaceAfter(l, Separator + rest);
    var k := |l| + |Separator|;
    assert s[..|l|] == l;
    assert s[|l|..k] == Separator;
    assert s[k..] == rest;
  }

  lemma DecodeChangeOfPrefixed(delta: Value)
    ensures DecodeChange(SignPrefix(delta) + Format(delta)) == Some(delta)
  {
    var rest := SignPrefix(delta) + Format(delta);
    ParseOfFormat(delta);
    if IsPositive(delta) {
      assert rest[0] == '+' && rest[1..] == Format(delta);
    } else {
      assert rest == Format(delta);
    }
  }

  lemma SummaryTextSplits(latest: Value, delta: Value)
    ensures SummaryText(latest, delta) == Format(latest) + Separator + (SignPrefix(delta) + Format(delta))
  {
  }

  /** The summary line determines the latest value and the change it was built from. */
  lemma DecodeOfSummary(latest: Value, delta: Value)
    ensures DecodeSummary(SummaryText(latest, delta)) == Some((latest, delta))
  {
    var l, rest := Format(latest), SignPrefix(delta) + Format(delta);
    SummaryTextSplits(latest, delta);
    ParseOfFormat(latest);
    DecodeChangeOfPrefixed(delta);
    SplitParts(l, rest, latest, delta);
  }

  /**
   * What the summary of a non-empty frame states: reading it back gives the
   * last cell of the first column and its change from the cell before (the
   * same cell when there is a single row).
   */
  lemma DeltaSummaryReadsBack(df: Frame)
    requires |df.columns| > 0 && |df.columns[0]| > 0
    ensures var col := df.columns[0];
      var latest, previous := col[|col| - 1], col[if |col| >= 2 then |col| - 2 else 0];
      && DeltaSummaryStr(df).Success?
      && DecodeSummary(DeltaSummaryStr(df).value) == Some((latest, Sub(latest, previous)))
  {
    var col := df.columns[0];
    var latest, previous := col[|col| - 1], col[if |col| >= 2 then |col| - 2 else 0];
    DecodeOfSummary(latest, Sub(latest, previous));
  }

  lemma FormatOfExamples()
    ensures Format(Num(5000)) == "50.0" && Format(Num(4500)) == "45.0"
    ensures Format(Num(500)) == "5.0" && Format(Num(-500)) == "-5.0"
  {
    assert NatToString(50) == "50";
    assert NatToString(45) == "45";
  }

  /** The rise from 45 to 50 that the docstring describes. */
  lemma RiseExample()
    ensures DeltaSummaryStr(Frame([[Num(4500), Num(5000)]])) == Success("50.0   \U{25B3}: +5.0")
  {
    FormatOfExamples();
    assert SummaryText(Num(5000), Num(500)) == "50.0" + Separator + "+" + "5.0";
    assert "50.0" + Separator + "+" + "5.0" == "50.0   \U{25B3}: +5.0";
    var col := [Num(4500), Num(5000)];
    assert col[1] == Num(5000) && Sub(col[1], col[0]) == Num(500);
  }

  /** The opposite fall, from 50 to 45: the minus sign comes from the number alone. */
  lemma FallExample()
    ensures DeltaSummaryStr(Frame([[Num(5000), Num(4500)]])) == Success("45.0   \U{25B3}: -5.0")
  {
    FormatOfExamples();
    assert SummaryText(Num(4500), Num(-500)) == "45.0" + Separator + "" + "-5.0";
    assert "45.0" + Separator + "" + "-5.0" == "45.0   \U{25B3}: -5.0";
    var col := [Num(5000), Num(4500)];
    assert col[1] == Num(4500) && Sub(col[1], col[0]) == Num(-500);
  }

  /** A +inf latest cell: the change is +inf after a finite cell, and NaN after the same infinity. */
  lemma InfinityExample()
    ensures DeltaSummaryStr(Frame([[Num(4500), PosInf]])) == Success("inf   \U{25B3}: +inf")
    ensures DeltaSummaryStr(Frame([[PosInf, PosInf]])) == Success("inf   \U{25B3}: nan")
  {
    assert SummaryText(PosInf, PosInf) == "inf" + Separator + "+" + "inf";
    assert "inf" + Separator + "+" + "inf" == "inf   \U{25B3}: +inf";
    assert SummaryText(PosInf, NaN) == "inf" + Separator + "" + "nan";
    assert "inf" + Separator + "" + "nan" == "inf   \U{25B3}: nan";
    var rise, flat := [Num(4500), PosInf], [PosInf, PosInf];
    assert rise[1] == PosInf && Sub(rise[1], rise[0]) == PosInf;
    assert flat[1] == PosInf && Sub(flat[1], flat[0]) == NaN;
  }

  /** A -inf latest cell after a finite one: the change is -inf, printed without a '+'. */
  lemma NegInfinityExample()
    ensures DeltaSummaryStr(Frame([[Num(4500), NegInf]])) == Success("-inf   \U{25B3}: -inf")
  {
    assert SummaryText(NegInf, NegInf) == "-inf" + Separator + "" + "-inf";
    assert "-inf" + Separator + "" + "-inf" == "-inf   \U{25B3}: -inf";
    var fall := [Num(4500), NegInf];
    assert fall[1] == NegInf && Sub(fall[1], fall[0]) == NegInf;
  }
}
