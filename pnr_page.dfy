/**
 * pages/Passport_Auto_PNR.py: one passport, `strptime("%y%m%d")` dates,
 * the (title, gender code) pair and the two single-passenger entries.
 */
module PnrPage {
  import opened Wrappers
  import opened PyText
  import opened Calendar
  import PnrBuilder

  // ---------------------------------------------------------------------
  // datetime.strptime(s, '%y%m%d')
  // ---------------------------------------------------------------------
  // CPython compiles the format to
  //   (?P<y>\d\d)(?P<m>1[0-2]|0[1-9]|[1-9])(?P<d>3[01]|[12]\d|0[1-9]|[1-9]| [1-9])
  // matches it at position 0 (first alternative that lets the rest match),
  // then rejects the string if any character is left over.

  predicate IsNonZeroDigit(c: char) { '1' <= c <= '9' }

  /** The (value, end) pairs the month group can take at `i`, in the order the regex tries them. */
  function MonthAlternatives(s: string, i: nat): (r: seq<(int, nat)>)
    ensures forall k :: 0 <= k < |r| ==> 1 <= r[k].0 <= 12 && i < r[k].1 <= |s|
  {
    (if i + 1 < |s| && s[i] == '1' && '0' <= s[i + 1] <= '2' then [(10 + DigitValue(s[i + 1]), i + 2)] else [])
    + (if i + 1 < |s| && s[i] == '0' && IsNonZeroDigit(s[i + 1]) then [(DigitValue(s[i + 1]), i + 2)] else [])
    + (if i < |s| && IsNonZeroDigit(s[i]) then [(DigitValue(s[i]), i + 1)] else [])
  }

  /** The (value, end) pairs the day group can take at `i`, in the order the regex tries them. */
  function DayAlternatives(s: string, i: nat): (r: seq<(int, nat)>)
    ensures forall k :: 0 <= k < |r| ==> 1 <= r[k].0 <= 31 && i < r[k].1 <= |s|
  {
    (if i + 1 < |s| && s[i] == '3' && '0' <= s[i + 1] <= '1' then [(30 + DigitValue(s[i + 1]), i + 2)] else [])
    + (if i + 1 < |s| && '1' <= s[i] <= '2' && IsDigit(s[i + 1])
       then [(10 * DigitValue(s[i]) + DigitValue(s[i + 1]), i + 2)] else [])
    + (if i + 1 < |s| && s[i] == '0' && IsNonZeroDigit(s[i + 1]) then [(DigitValue(s[i + 1]), i + 2)] else [])
    + (if i < |s| && IsNonZeroDigit(s[i]) then [(DigitValue(s[i]), i + 1)] else [])
    + (if i + 1 < |s| && s[i] == ' ' && IsNonZeroDigit(s[i + 1]) then [(DigitValue(s[i + 1]), i + 2)] else [])
  }

  /** Backtracking over the month alternatives: the first one after which a day matches. */
  function MatchMonthDay(s: string, months: seq<(int, nat)>): (r: Option<(int, int, nat)>)
    requires forall k :: 0 <= k < |months| ==> months[k].1 <= |s|
    ensures r.Some? ==> r.value.2 <= |s|
  {
    if |months| == 0 then None
    else
      var days := DayAlternatives(s, months[0].1);
      if |days| > 0 then Some((months[0].0, days[0].0, days[0].1))
      else MatchMonthDay(s, months[1..])
  }

  /** `format_regex.match(s)`: (two-digit year, month, day, end of match), or no match. */
  function RegexMatch(s: string): Option<(int, int, int, nat)> {
    if |s| < 2 || !IsDigit(s[0]) || !IsDigit(s[1]) then None
    else
      match MatchMonthDay(s, MonthAlternatives(s, 2))
      case None => None
      case Some((m, d, e)) => Some((10 * DigitValue(s[0]) + DigitValue(s[1]), m, d, e))
  }

  /** `%y`: 69..99 are 19YY, 00..68 are 20YY. */
  function StrptimeYear(yy: int): (y: int)
    requires 0 <= yy < 100
    ensures 69 <= yy ==> y == 1900 + yy
    ensures yy <= 68 ==> y == 2000 + yy
  {
    if yy <= 68 then yy + 2000 else yy + 1900
  }

  /** `datetime.strptime(s, '%y%m%d')`; None where it raises ValueError. */
  function Strptime(s: string): (r: Option<Date>)
    ensures r.Some? ==> Valid(r.value)
  {
    match RegexMatch(s)
    case None => None
    case Some((yy, m, d, e)) =>
      if e != |s| then None   // "unconverted data remains"
      else
        var y := StrptimeYear(yy);
        if IsValidDate(y, m, d) then Some(Date(y, m, d)) else None
  }

  /**
   * On six ASCII digits the only split is YY|MM|DD: the string parses
   * exactly when (%y-year, MM, DD) is a Gregorian date.
   */
  lemma SixDigitStrptime(s: string)
    requires |s| == 6 && AllDigits(s)
    ensures var yy, mm, dd := PnrBuilder.TwoDigits(s, 0), PnrBuilder.TwoDigits(s, 2), PnrBuilder.TwoDigits(s, 4);
      Strptime(s) == if IsValidDate(StrptimeYear(yy), mm, dd) then Some(Date(StrptimeYear(yy), mm, dd)) else None
  {
    var yy, mm, dd := PnrBuilder.TwoDigits(s, 0), PnrBuilder.TwoDigits(s, 2), PnrBuilder.TwoDigits(s, 4);
    var ms := MonthAlternatives(s, 2);
    if 1 <= mm <= 12 && 1 <= dd <= 31 {
      assert ms[0] == (mm, 4);
      var ds := DayAlternatives(s, 4);
      assert ds[0] == (dd, 6);
      assert RegexMatch(s) == Some((yy, mm, dd, 6));
    } else {
      // Every match that does not use both two-digit groups ends before the sixth character.
      MatchEndsShort(s, ms);
    }
  }

  /** When (MM, DD) is out of range, no match on six digits reaches the end. */
  lemma MatchEndsShort(s: string, ms: seq<(int, nat)>)
    requires |s| == 6 && AllDigits(s)
    requires ms == MonthAlternatives(s, 2)
    requires !(1 <= PnrBuilder.TwoDigits(s, 2) <= 12 && 1 <= PnrBuilder.TwoDigits(s, 4) <= 31)
    ensures forall r :: MatchMonthDay(s, ms) == Some(r) ==> r.2 < 6
  {
    MonthEnds(s);
    DayEndsAfterMonth(s);
    if 1 <= PnrBuilder.TwoDigits(s, 2) <= 12 {
      DayEndsShort(s);
    }
    MatchMonthDayEnd(s, ms);
  }

  /** On six digits a month ends at 3 or 4, and at 4 only for a two-digit month 01..12. */
  lemma MonthEnds(s: string)
    requires |s| == 6 && AllDigits(s)
    ensures forall k :: 0 <= k < |MonthAlternatives(s, 2)| ==>
      3 <= MonthAlternatives(s, 2)[k].1 <= 4 &&
      (MonthAlternatives(s, 2)[k].1 == 4 ==> 1 <= PnrBuilder.TwoDigits(s, 2) <= 12)
  {
  }

  /** A day after a one-digit month ends before the last character. */
  lemma DayEndsAfterMonth(s: string)
    requires |s| == 6 && AllDigits(s)
    ensures forall j :: 0 <= j < |DayAlternatives(s, 3)| ==> DayAlternatives(s, 3)[j].1 <= 5
  {
  }

  /** On six digits a day that starts at 4 reaches the end only as a two-digit day 01..31. */
  lemma DayEndsShort(s: string)
    requires |s| == 6 && AllDigits(s)
    requires !(1 <= PnrBuilder.TwoDigits(s, 4) <= 31)
    ensures forall j :: 0 <= j < |DayAlternatives(s, 4)| ==> DayAlternatives(s, 4)[j].1 == 5
  {
  }

  lemma {:induction false} MatchMonthDayEnd(s: string, ms: seq<(int, nat)>)
    requires |s| == 6 && AllDigits(s)
    requires forall k :: 0 <= k < |ms| ==> 3 <= ms[k].1 <= 4
    requires forall k :: 0 <= k < |ms| && ms[k].1 == 4 ==>
      forall j :: 0 <= j < |DayAlternatives(s, 4)| ==> DayAlternatives(s, 4)[j].1 == 5
    ensures forall r :: MatchMonthDay(s, ms) == Some(r) ==> r.2 < 6
  {
    if |ms| > 0 {
      MatchMonthDayEnd(s, ms[1..]);
    }
  }

  /** `format_date(s)`: DDMMMYY when `s` parses, `s` itself otherwise. */
  function FormatDate(s: string): (r: string)
    ensures r == s <==> Strptime(s).None?
    ensures Strptime(s).Some? ==> r == RenderDate(Strptime(s).value)
  {
    match Strptime(s)
    case None => s
    case Some(dt) =>
      var r := RenderDate(dt);
      RenderShape(dt);
      assert RegexMatch(s).Some? && IsDigit(s[2]) by {
        var ms := MonthAlternatives(s, 2);
        assert |ms| > 0;
      }
      assert r[2] != s[2];
      r
  }

  /**
   * On six ASCII digits this page and Passport_Auto_PNR.py render a date the
   * same way, whatever the clock: only the century differs between their pivots.
   */
  lemma AgreesWithSafeDate(s: string, nowYear: int)
    requires |s| == 6 && AllDigits(s)
    ensures PnrBuilder.SafeDate(s, nowYear) == if Strptime(s).None? then "" else FormatDate(s)
  {
    SixDigitStrptime(s);
    PnrBuilder.CenturyPivot(s, nowYear);
    PnrBuilder.SafeDateIgnoresClock(s, nowYear, 2068);
    PnrBuilder.CenturyPivot(s, 2068);
    var yy := PnrBuilder.TwoDigits(s, 0);
    assert yy > 68 ==> PnrBuilder.PivotYear(yy, 2068) == StrptimeYear(yy);
    assert yy <= 68 ==> PnrBuilder.PivotYear(yy, 2068) == StrptimeYear(yy);
  }

  /**
   * The regex backtracks: in "9911" the month first takes "11", leaves no
   * day, and falls back to "1"; the string is 1 January 1999.
   */
  lemma ShortInputBacktracks()
    ensures Strptime("9911") == Some(Date(1999, 1, 1))
  {
    var s := "9911";
    assert MonthAlternatives(s, 2) == [(11, 4), (1, 3)];
    assert DayAlternatives(s, 4) == [];
    assert DayAlternatives(s, 3) == [(1, 4)];
  }

  // ---------------------------------------------------------------------
  // get_title
  // ---------------------------------------------------------------------

  /**
   * `get_title(gender, dob_raw)`: None where `strptime` raises (there is no
   * try block); otherwise the holder title and the gender code: "MI"/"FI"
   * for infants, the sex string itself for everyone else.
   */
  function GetTitle(gender: string, dobRaw: string, today: Date): (r: Option<(string, string)>)
    ensures r.Some? <==> Strptime(dobRaw).Some?
    ensures r.Some? ==>
      var age := WholeYearAge(Strptime(dobRaw).value, today);
      && r.value.0 == PnrBuilder.PassengerTitle(age, gender)
      && r.value.1 == (if age < 2 then (if gender == "M" then "MI" else "FI") else gender)
  {
    match Strptime(dobRaw)
    case None => None
    case Some(birth) =>
      var age := today.year - birth.year
        - (if EarlierInYear(today.month, today.day, birth.month, birth.day) then 1 else 0);
      if age < 2 then Some(("INF", if gender == "M" then "MI" else "FI"))
      else if age < 12 then Some((if gender == "M" then "MSTR" else "MISS", gender))
      else Some((if gender == "M" then "MR" else "MRS", gender))
  }

  // ---------------------------------------------------------------------
  // The entries (lines 46-60)
  // ---------------------------------------------------------------------

  /** `d.get(key, default)`. */
  function Get(d: map<string, string>, key: string, default: string): string {
    if key in d then d[key] else default
  }

  datatype PageEntries = PageEntries(nm1: string, docs: string)

  /** The SRDOCS fields of one MRZ dictionary, before "-".join, for gender code `gCode`. */
  function PageDocsFields(d: map<string, string>, gCode: string): seq<string> {
    var nation := Upper(Get(d, "country", ""));
    [ "SRDOCS YY HK1", "P", nation, Upper(Get(d, "number", "")), nation,
      FormatDate(Get(d, "date_of_birth", "")), gCode, FormatDate(Get(d, "expiration_date", "")),
      Upper(Get(d, "surname", "")), Upper(Get(d, "names", "")), "H/P1" ]
  }

  /** The NM1 and SRDOCS entries of one MRZ dictionary; None where `get_title` raises. */
  function Entries(d: map<string, string>, today: Date): (r: Option<PageEntries>)
    ensures r.Some? <==> Strptime(Get(d, "date_of_birth", "")).Some?
  {
    var gender := Upper(Get(d, "sex", "M"));
    match GetTitle(gender, Get(d, "date_of_birth", ""), today)
    case None => None
    case Some((title, gCode)) =>
      Some(PageEntries(
        "NM1" + Upper(Get(d, "surname", "")) + "/" + Upper(Get(d, "names", "")) + " " + title,
        Join(PageDocsFields(d, gCode), '-')))
  }

  /** The NM1 entry is the upper-cased name and the title of the whole-year age for the upper-cased sex, "M" when missing. */
  lemma EntriesNm1(d: map<string, string>, today: Date)
    requires Entries(d, today).Some?
    ensures var birth := Strptime(Get(d, "date_of_birth", "")).value;
      Entries(d, today).value.nm1 ==
        "NM1" + Upper(Get(d, "surname", "")) + "/" + Upper(Get(d, "names", "")) + " "
        + PnrBuilder.PassengerTitle(WholeYearAge(birth, today), Upper(Get(d, "sex", "M")))
  {
  }

  /** Without a "sex" key the passenger is taken as male. */
  lemma MissingSexIsMale(d: map<string, string>, today: Date)
    requires "sex" !in d && Entries(d, today).Some?
    ensures var birth := Strptime(Get(d, "date_of_birth", "")).value;
      var age := WholeYearAge(birth, today);
      Entries(d, today).value.nm1 ==
        "NM1" + Upper(Get(d, "surname", "")) + "/" + Upper(Get(d, "names", "")) + " "
        + (if age < 2 then "INF" else if age < 12 then "MSTR" else "MR")
  {
    assert Upper("M") == "M";
  }

  /** The SRDOCS entry is the eleven fields joined by '-', with the gender code `get_title` gave. */
  lemma EntriesDocs(d: map<string, string>, today: Date)
    requires Entries(d, today).Some?
    ensures var g := GetTitle(Upper(Get(d, "sex", "M")), Get(d, "date_of_birth", ""), today).value.1;
      && (g == "MI" || g == "FI" || g == Upper(Get(d, "sex", "M")))
      && Entries(d, today).value.docs == Join(PageDocsFields(d, g), '-')
  {
  }

  /**
   * The SRDOCS entry splits back into its eleven fields when nationality,
   * number, gender code, surname, names and the two raw dates hold no '-'.
   */
  lemma PageDocsRoundTrip(d: map<string, string>, gCode: string)
    requires '-' !in Get(d, "country", "") && '-' !in Get(d, "number", "") && '-' !in gCode
    requires '-' !in Get(d, "surname", "") && '-' !in Get(d, "names", "")
    requires '-' !in Get(d, "date_of_birth", "") && '-' !in Get(d, "expiration_date", "")
    ensures var f := Split(Join(PageDocsFields(d, gCode), '-'), '-');
      && |f| == 11
      && f[2] == f[4] == Upper(Get(d, "country", ""))
      && f[3] == Upper(Get(d, "number", ""))
      && f[5] == FormatDate(Get(d, "date_of_birth", ""))
      && f[6] == gCode
      && f[7] == FormatDate(Get(d, "expiration_date", ""))
      && f[8] == Upper(Get(d, "surname", ""))
      && f[9] == Upper(Get(d, "names", ""))
      && f[10] == "H/P1"
  {
    PageDocsFieldsNoDash(d, gCode);
    SplitJoin(PageDocsFields(d, gCode), '-');
  }

  /** A gender code from a sex string without '-' has no '-'. */
  lemma GenderCodeNoDash(sex: string)
    requires '-' !in sex
    ensures '-' !in Upper(sex) && '-' !in "MI" && '-' !in "FI"
  {
    NoDashUpper(sex);
  }

  lemma PageDocsFieldsNoDash(d: map<string, string>, gCode: string)
    requires '-' !in Get(d, "country", "") && '-' !in Get(d, "number", "") && '-' !in gCode
    requires '-' !in Get(d, "surname", "") && '-' !in Get(d, "names", "")
    requires '-' !in Get(d, "date_of_birth", "") && '-' !in Get(d, "expiration_date", "")
    ensures forall i :: 0 <= i < |PageDocsFields(d, gCode)| ==> '-' !in PageDocsFields(d, gCode)[i]
  {
    NoDashUpper(Get(d, "country", ""));
    NoDashUpper(Get(d, "number", ""));
    NoDashUpper(Get(d, "surname", ""));
    NoDashUpper(Get(d, "names", ""));
    FormatDateNoDash(Get(d, "date_of_birth", ""));
    FormatDateNoDash(Get(d, "expiration_date", ""));
  }

  /** A formatted date holds a '-' only when the raw text did. */
  lemma FormatDateNoDash(s: string)
    requires '-' !in s
    ensures '-' !in FormatDate(s)
  {
    if Strptime(s).Some? {
      RenderShape(Strptime(s).value);
    }
  }

  lemma NoDashUpper(s: string)
    requires '-' !in s
    ensures '-' !in Upper(s)
  {
    forall i | 0 <= i < |s| ensures Upper(s)[i] != '-' {
      assert s[i] != '-';
    }
  }
}
