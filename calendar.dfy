/**
 * Proleptic Gregorian dates as Python's `datetime` builds them, the
 * `strftime("%d%b%y").upper()` rendering used for every date in a
 * reservation line, and the whole-year age rule.
 */
module Calendar {
  import opened Wrappers
  import opened PyText

  datatype Date = Date(year: int, month: int, day: int)

  predicate IsLeap(y: int) {
    y % 4 == 0 && (y % 100 != 0 || y % 400 == 0)
  }

  function DaysInMonth(y: int, m: int): (n: int)
    requires 1 <= m <= 12
    ensures 28 <= n <= 31
    ensures m == 2 ==> (n == 29 <==> IsLeap(y))
  {
    if m == 2 then (if IsLeap(y) then 29 else 28)
    else if m == 4 || m == 6 || m == 9 || m == 11 then 30
    else 31
  }

  /** What `datetime(y, m, d)` accepts: MINYEAR..MAXYEAR, a month, a day of that month. */
  predicate IsValidDate(y: int, m: int, d: int) {
    1 <= y <= 9999 && 1 <= m <= 12 && 1 <= d <= DaysInMonth(y, m)
  }

  predicate Valid(dt: Date) { IsValidDate(dt.year, dt.month, dt.day) }

  /** Years a century apart have the same leap status unless one of them is a century year. */
  lemma LeapAcrossCentury(k: int)
    requires 1 <= k <= 99
    ensures IsLeap(1900 + k) == IsLeap(2000 + k)
  {
    assert (1900 + k) % 4 == (2000 + k) % 4 == k % 4 by {
      assert 1900 + k == 4 * 475 + k && 2000 + k == 4 * 500 + k;
    }
    assert (1900 + k) % 100 == (2000 + k) % 100 == k by {
      assert 1900 + k == 100 * 19 + k && 2000 + k == 100 * 20 + k;
    }
  }

  // ---------------------------------------------------------------------
  // DDMMMYY
  // ---------------------------------------------------------------------

  /** `%b` in the C/English locale. */
  function MonthAbbrev(m: int): (s: string)
    requires 1 <= m <= 12
    ensures |s| == 3
  {
    ["Jan", "Feb", "Mar", "Apr", "May", "Jun", "Jul", "Aug", "Sep", "Oct", "Nov", "Dec"][m - 1]
  }

  function UpperMonths(): seq<string> {
    ["JAN", "FEB", "MAR", "APR", "MAY", "JUN", "JUL", "AUG", "SEP", "OCT", "NOV", "DEC"]
  }

  /** Upper-casing an abbreviation gives the upper-case month name: three capital letters. */
  lemma MonthUpper(m: int)
    requires 1 <= m <= 12
    ensures Upper(MonthAbbrev(m)) == UpperMonths()[m - 1]
    ensures var u := UpperMonths()[m - 1]; |u| == 3 && IsUpper(u[0]) && IsUpper(u[1]) && IsUpper(u[2])
  {
    var a, u := MonthAbbrev(m), UpperMonths()[m - 1];
    assert |Upper(a)| == 3;
    assert Upper(a)[0] == UpperChar(a[0]) && Upper(a)[1] == UpperChar(a[1]) && Upper(a)[2] == UpperChar(a[2]);
  }

  /** Upper-casing works character by character, so it distributes over concatenation. */
  lemma {:induction false} UpperConcat(a: string, b: string)
    ensures Upper(a + b) == Upper(a) + Upper(b)
    decreases |a|
  {
    if |a| == 0 {
      assert a + b == b;
    } else {
      assert (a + b)[1..] == a[1..] + b;
      UpperConcat(a[1..], b);
    }
  }

  /** Digits have no upper case. */
  lemma UpperDigits(s: string)
    requires AllDigits(s)
    ensures Upper(s) == s
  {
    assert |Upper(s)| == |s|;
    forall i | 0 <= i < |s| ensures Upper(s)[i] == s[i] {
      assert IsDigit(s[i]);
    }
  }

  /** `dt.strftime("%d%b%y")`. */
  function Strftime(dt: Date): string
    requires Valid(dt)
  {
    Pad2(dt.day) + MonthAbbrev(dt.month) + Pad2(dt.year % 100)
  }

  /** `dt.strftime("%d%b%y").upper()`: day digits, the upper-case month, year digits. */
  function RenderDate(dt: Date): (r: string)
    requires Valid(dt)
    ensures r == Pad2(dt.day) + UpperMonths()[dt.month - 1] + Pad2(dt.year % 100)
  {
    UpperConcat(Pad2(dt.day) + MonthAbbrev(dt.month), Pad2(dt.year % 100));
    UpperConcat(Pad2(dt.day), MonthAbbrev(dt.month));
    UpperDigits(Pad2(dt.day));
    UpperDigits(Pad2(dt.year % 100));
    MonthUpper(dt.month);
    Upper(Strftime(dt))
  }

  /** A rendered date is seven characters: two digits, three capital letters, two digits; so no '-'. */
  lemma RenderShape(dt: Date)
    requires Valid(dt)
    ensures var r := RenderDate(dt);
      && |r| == 7
      && IsDigit(r[0]) && IsDigit(r[1]) && IsDigit(r[5]) && IsDigit(r[6])
      && IsUpper(r[2]) && IsUpper(r[3]) && IsUpper(r[4])
      && '-' !in r
  {
    var r := RenderDate(dt);
    var d, u, y := Pad2(dt.day), UpperMonths()[dt.month - 1], Pad2(dt.year % 100);
    MonthUpper(dt.month);
    assert IsDigit(d[0]) && IsDigit(d[1]) && IsDigit(y[0]) && IsDigit(y[1]);
    assert r[0] == d[0] && r[1] == d[1] && r[5] == y[0] && r[6] == y[1];
    assert r[2] == u[0] && r[3] == u[1] && r[4] == u[2];
    forall i | 0 <= i < 7 ensures r[i] != '-' {
    }
  }

  /** Reads a DDMMMYY string back into (day, month, two-digit year). */
  function ParseRendered(s: string): Option<(int, int, int)>
  {
    if |s| != 7 then None
    else
      match (ParseInt(s[0..2]), ParseInt(s[5..7]))
      case (Some(d), Some(y)) =>
        if s[2..5] in UpperMonths() then
          var m :| 0 <= m < 12 && UpperMonths()[m] == s[2..5];
          Some((d, m + 1, y))
        else None
      case _ => None
  }

  /** Rendering loses only the century: day, month and year mod 100 read back exactly. */
  lemma RenderRoundTrip(dt: Date)
    requires Valid(dt)
    ensures ParseRendered(RenderDate(dt)) == Some((dt.day, dt.month, dt.year % 100))
  {
    var r := RenderDate(dt);
    var d, u, y := Pad2(dt.day), UpperMonths()[dt.month - 1], Pad2(dt.year % 100);
    MonthUpper(dt.month);
    assert r[0..2] == d;
    assert r[5..7] == y;
    assert r[2..5] == u;
    forall m | 0 <= m < 12 && UpperMonths()[m] == u ensures m == dt.month - 1 {
    }
  }

  // ---------------------------------------------------------------------
  // Whole-year age
  // ---------------------------------------------------------------------

  /** Python's tuple comparison `(m1, d1) < (m2, d2)`. */
  predicate EarlierInYear(m1: int, d1: int, m2: int, d2: int) {
    m1 < m2 || (m1 == m2 && d1 < d2)
  }

  /** Lexicographic `<=` on dates. */
  predicate NotAfter(a: Date, b: Date) {
    a.year < b.year || (a.year == b.year && !EarlierInYear(b.month, b.day, a.month, a.day))
  }

  /** `today.year - birth.year - ((today.month, today.day) < (birth.month, birth.day))`. */
  function WholeYearAge(birth: Date, today: Date): int {
    today.year - birth.year - (if EarlierInYear(today.month, today.day, birth.month, birth.day) then 1 else 0)
  }

  /**
   * The whole-year age is the number of birthdays reached: the `age`-th
   * anniversary (same month and day) is not after today, the next one is.
   */
  lemma WholeYearAgeIsAnniversaries(birth: Date, today: Date)
    ensures var age := WholeYearAge(birth, today);
      NotAfter(Date(birth.year + age, birth.month, birth.day), today) &&
      !NotAfter(Date(birth.year + age + 1, birth.month, birth.day), today)
  {
  }
}
