/**
 * Passport_Auto_PNR.py: MRZ dates with a century pivot on the current year,
 * Y/M/D ages, holder titles, and the NM1 (name) and SRDOCS (document)
 * reservation lines for a batch of scanned passports.
 */
module PnrBuilder {
  import opened Wrappers
  import opened PyText
  import opened Calendar

  /** The fields passporteye's `to_dict()` returns, keyed by field name. */
  type MrzDict = map<string, string>

  // ---------------------------------------------------------------------
  // mrz_date_fix and safe_date
  // ---------------------------------------------------------------------

  /** Years greater than the current two-digit year are last century. */
  function PivotYear(yy: int, nowYear: int): int {
    if yy > nowYear % 100 then yy + 1900 else yy + 2000
  }

  /**
   * `mrz_date_fix(d)`: `int()` of the slices `d[:2]`, `d[2:4]`, `d[4:6]`,
   * the pivot, then `datetime(y, m, da)`; any exception gives None.
   */
  function MrzDateFix(d: string, nowYear: int): (r: Option<Date>)
    ensures r.Some? ==> Valid(r.value) && 1900 <= r.value.year <= 2099
  {
    match (ParseInt(Slice(d, 0, 2)), ParseInt(Slice(d, 2, 4)), ParseInt(Slice(d, 4, 6)))
    case (Some(y), Some(m), Some(da)) =>
      var year := PivotYear(y, nowYear);
      if IsValidDate(year, m, da) then Some(Date(year, m, da)) else None
    case _ => None
  }

  /** The value of the two digits of `d` that start at `i`. */
  function TwoDigits(d: string, i: nat): int
    requires i + 2 <= |d| && IsDigit(d[i]) && IsDigit(d[i + 1])
  {
    10 * DigitValue(d[i]) + DigitValue(d[i + 1])
  }

  /**
   * On six ASCII digits YYMMDD the date resolves exactly when (pivot(YY), MM, DD)
   * is a Gregorian date, and the year is 1900+YY when YY exceeds the current
   * two-digit year and 2000+YY otherwise.
   */
  lemma CenturyPivot(d: string, nowYear: int)
    requires |d| == 6 && AllDigits(d)
    ensures var yy, mm, dd := TwoDigits(d, 0), TwoDigits(d, 2), TwoDigits(d, 4);
      var year := if yy > nowYear % 100 then 1900 + yy else 2000 + yy;
      MrzDateFix(d, nowYear) == if IsValidDate(year, mm, dd) then Some(Date(year, mm, dd)) else None
  {
    assert Slice(d, 0, 2) == d[0..2] && Slice(d, 2, 4) == d[2..4] && Slice(d, 4, 6) == d[4..6];
    assert AllDigits(d[0..2]) && AllDigits(d[2..4]) && AllDigits(d[4..6]);
  }

  /** Only the first six characters are read. */
  lemma OnlySixCharactersRead(d: string, nowYear: int)
    requires |d| >= 6
    ensures MrzDateFix(d, nowYear) == MrzDateFix(d[..6], nowYear)
  {
    assert Slice(d, 0, 2) == Slice(d[..6], 0, 2);
    assert Slice(d, 2, 4) == Slice(d[..6], 2, 4);
    assert Slice(d, 4, 6) == Slice(d[..6], 4, 6);
  }

  /** A five-character input still resolves: `d[4:6]` is the single last character. */
  lemma FiveCharacterInput()
    ensures MrzDateFix("99011", 2026) == Some(Date(1999, 1, 1))
  {
    var d := "99011";
    assert Slice(d, 0, 2) == "99" && Slice(d, 2, 4) == "01" && Slice(d, 4, 6) == "1";
  }

  /** `safe_date(d)`: the DDMMMYY rendering, or "" when the date does not resolve. */
  function SafeDate(d: string, nowYear: int): (r: string)
    ensures r == "" <==> MrzDateFix(d, nowYear).None?
    ensures r != "" ==> |r| == 7 && r == RenderDate(MrzDateFix(d, nowYear).value)
    ensures '-' !in r
  {
    match MrzDateFix(d, nowYear)
    case None => ""
    case Some(dt) => RenderShape(dt); RenderDate(dt)
  }

  /**
   * The rendered date does not depend on the clock: the pivot changes only
   * the century, which `%y` drops, and 19YY/20YY have the same leap status
   * for YY in 01..99 (YY = 00 is never above the current two-digit year).
   */
  lemma SafeDateIgnoresClock(d: string, now1: int, now2: int)
    ensures SafeDate(d, now1) == SafeDate(d, now2)
  {
    match (ParseInt(Slice(d, 0, 2)), ParseInt(Slice(d, 2, 4)), ParseInt(Slice(d, 4, 6)))
    case (Some(y), Some(m), Some(da)) =>
      assert y < 100 by {
        assert |Slice(d, 0, 2)| <= 2;
      }
      if 1 <= y && IsValidDate(2000 + y, m, da) != IsValidDate(1900 + y, m, da) {
        LeapAcrossCentury(y);
        assert false;
      }
      var y1, y2 := PivotYear(y, now1), PivotYear(y, now2);
      assert y1 % 100 == y && y2 % 100 == y by {
        assert y1 == 1900 + y || y1 == 2000 + y;
        assert y2 == 1900 + y || y2 == 2000 + y;
      }
      assert y == 0 ==> y1 == y2 == 2000;
    case _ =>
  }

  // ---------------------------------------------------------------------
  // calculate_age_full
  // ---------------------------------------------------------------------

  datatype AgeYmd = AgeYmd(years: int, months: int, days: int)

  /**
   * `calculate_age_full(dob)` with `today` for the wall clock: subtract the
   * components, borrow a month for 30 days, then a year for 12 months. An
   * unresolved birth date raises at `birth.year`: None.
   */
  function CalculateAgeFull(dob: string, today: Date): (r: Option<AgeYmd>)
    requires Valid(today)
    ensures r.Some? <==> MrzDateFix(dob, today.year).Some?
    ensures r.Some? ==>
      var birth := MrzDateFix(dob, today.year).value;
      && 0 <= r.value.months <= 11
      && 0 <= r.value.days <= 30
      && r.value.years * 12 + r.value.months
         == (today.year - birth.year) * 12 + (today.month - birth.month) - (if today.day < birth.day then 1 else 0)
      && r.value.years == WholeYearAge(birth, today)
  {
    match MrzDateFix(dob, today.year)
    case None => None
    case Some(birth) =>
      var years := today.year - birth.year;
      var months := today.month - birth.month;
      var days := today.day - birth.day;
      var (months1, days1) := if days < 0 then (months - 1, days + 30) else (months, days);
      var (years2, months2) := if months1 < 0 then (years - 1, months1 + 12) else (years, months1);
      Some(AgeYmd(years2, months2, days1))
  }

  // ---------------------------------------------------------------------
  // passenger_title
  // ---------------------------------------------------------------------

  /** `passenger_title(age_y, gender)`: total over every age and every sex string. */
  function PassengerTitle(ageY: int, gender: string): (r: string)
    ensures r in ["INF", "MSTR", "MISS", "MR", "MRS"]
    ensures r == "INF" <==> ageY < 2
    ensures (r == "MSTR" || r == "MISS") <==> 2 <= ageY < 12
    ensures (r == "MSTR" || r == "MR") <==> 2 <= ageY && gender == "M"
  {
    if ageY < 2 then "INF"
    else if ageY < 12 then (if gender == "M" then "MSTR" else "MISS")
    else if gender == "M" then "MR"
    else "MRS"
  }

  /**
   * Twelve years to the day is an adult. In the year of the twelfth
   * birthday the title is adult exactly from the anniversary on, and every
   * day of the year before is a child, so the day before the birthday is a
   * child whatever day of the month the passenger was born on.
   */
  lemma TwelfthBirthdayBoundary(birth: Date, today: Date, gender: string)
    ensures PassengerTitle(WholeYearAge(birth, Date(birth.year + 12, birth.month, birth.day)), gender)
            in ["MR", "MRS"]
    ensures today.year == birth.year + 12 ==>
      (PassengerTitle(WholeYearAge(birth, today), gender) in ["MR", "MRS"]
       <==> !EarlierInYear(today.month, today.day, birth.month, birth.day))
    ensures today.year == birth.year + 12 ==>
      (PassengerTitle(WholeYearAge(birth, today), gender) in ["MSTR", "MISS"]
       <==> EarlierInYear(today.month, today.day, birth.month, birth.day))
    ensures today.year == birth.year + 11 ==>
      PassengerTitle(WholeYearAge(birth, today), gender) in ["MSTR", "MISS"]
  {
  }

  // ---------------------------------------------------------------------
  // One passenger per recognised passport (lines 109-139)
  // ---------------------------------------------------------------------

  datatype Passenger = Passenger(
    surname: string, names: string, passport: string, gender: string, country: string,
    dob: string, exp: string, title: string, age: AgeYmd)

  const RequiredKeys: set<string> :=
    {"surname", "names", "number", "sex", "country", "date_of_birth", "expiration_date"}

  /**
   * The record built from one MRZ dictionary; None where the source raises
   * (a missing key, or a birth date that does not resolve).
   */
  function MakePassenger(d: MrzDict, today: Date): (r: Option<Passenger>)
    requires Valid(today)
    ensures r.Some? <==> RequiredKeys <= d.Keys && MrzDateFix(d["date_of_birth"], today.year).Some?
  {
    if RequiredKeys <= d.Keys then
      match CalculateAgeFull(d["date_of_birth"], today)
      case None => None
      case Some(age) =>
        Some(Passenger(
          RemoveChar(d["surname"], '<'),
          ReplaceChar(d["names"], '<', ' '),
          d["number"], d["sex"], d["country"],
          SafeDate(d["date_of_birth"], today.year),
          SafeDate(d["expiration_date"], today.year),
          PassengerTitle(age.years, d["sex"]),
          age))
    else None
  }

  /**
   * What a built record holds: the surname with every '<' removed, the
   * names with every '<' made a space, the number, sex and country as read,
   * both dates rendered, and the title of the whole-year age.
   */
  lemma PassengerFields(d: MrzDict, today: Date)
    requires Valid(today) && MakePassenger(d, today).Some?
    ensures
      var p := MakePassenger(d, today).value;
      var birth := MrzDateFix(d["date_of_birth"], today.year).value;
      && p.surname == RemoveChar(d["surname"], '<') && '<' !in p.surname
      && multiset(p.surname) == multiset(d["surname"])['<' := 0]
      && |p.names| == |d["names"]| && '<' !in p.names
      && (forall i :: 0 <= i < |p.names| ==> p.names[i] == if d["names"][i] == '<' then ' ' else d["names"][i])
      && p.passport == d["number"] && p.gender == d["sex"] && p.country == d["country"]
      && p.dob == RenderDate(birth) == SafeDate(d["date_of_birth"], today.year)
      && p.exp == SafeDate(d["expiration_date"], today.year)
      && p.age.years == WholeYearAge(birth, today)
      && p.title == PassengerTitle(WholeYearAge(birth, today), d["sex"])
  {
    var p := MakePassenger(d, today).value;
    assert '<' !in p.names by {
      forall i | 0 <= i < |p.names| ensures p.names[i] != '<' {
      }
    }
  }

  /** The dictionaries of the uploads the MRZ reader recognised, in upload order. */
  function Recognized(scans: seq<Option<MrzDict>>): (r: seq<MrzDict>)
    ensures |r| <= |scans|
  {
    if |scans| == 0 then []
    else
      var rest := Recognized(scans[..|scans| - 1]);
      match scans[|scans| - 1]
      case None => rest
      case Some(d) => rest + [d]
  }

  /** A dictionary is recognised exactly when some upload produced it. */
  lemma {:induction false} RecognizedMembers(scans: seq<Option<MrzDict>>)
    ensures forall d :: d in Recognized(scans) <==> Some(d) in scans
    decreases |scans|
  {
    if |scans| > 0 {
      var front := scans[..|scans| - 1];
      RecognizedMembers(front);
      assert forall o :: o in scans <==> o in front || o == scans[|scans| - 1];
    }
  }

  /** `MakePassenger` with the clock fixed, as the upload loop applies it to each record. */
  function Builder(today: Date): MrzDict -> Option<Passenger>
    requires Valid(today)
  {
    d => MakePassenger(d, today)
  }

  predicate AllBuild(recs: seq<MrzDict>, build: MrzDict -> Option<Passenger>) {
    forall k :: 0 <= k < |recs| ==> build(recs[k]).Some?
  }

  /** The records built in upload order, or None when one of them fails to build. */
  function BuildAll(recs: seq<MrzDict>, build: MrzDict -> Option<Passenger>): Option<seq<Passenger>>
    decreases |recs|
  {
    if |recs| == 0 then Some([])
    else
      match BuildAll(recs[..|recs| - 1], build)
      case None => None
      case Some(acc) =>
        match build(recs[|recs| - 1])
        case None => None
        case Some(p) => Some(acc + [p])
  }

  /** Building succeeds exactly when every record builds, and then holds the k-th record's passenger at k. */
  lemma {:induction false} BuildAllSpec(recs: seq<MrzDict>, build: MrzDict -> Option<Passenger>)
    ensures BuildAll(recs, build).Some? <==> AllBuild(recs, build)
    ensures BuildAll(recs, build).Some? ==>
      |BuildAll(recs, build).value| == |recs| &&
      forall k :: 0 <= k < |recs| ==> Some(BuildAll(recs, build).value[k]) == build(recs[k])
    decreases |recs|
  {
    if |recs| > 0 {
      var front := recs[..|recs| - 1];
      BuildAllSpec(front, build);
      if AllBuild(recs, build) {
        assert AllBuild(front, build) by {
          forall k | 0 <= k < |front| ensures build(front[k]).Some? {
            assert front[k] == recs[k];
          }
        }
        var acc := BuildAll(front, build).value;
        var p := build(recs[|recs| - 1]).value;
        forall k | 0 <= k < |recs| ensures Some((acc + [p])[k]) == build(recs[k]) {
          if k < |front| {
            assert front[k] == recs[k];
          }
        }
      } else if BuildAll(front, build).Some? {
        var k :| 0 <= k < |recs| && build(recs[k]).None?;
        assert k == |front|;
      }
    }
  }

  /** One more record: the batch so far extended by its passenger, or None. */
  lemma BuildAllSnoc(recs: seq<MrzDict>, d: MrzDict, build: MrzDict -> Option<Passenger>)
    ensures BuildAll(recs + [d], build) ==
      if BuildAll(recs, build).Some? && build(d).Some? then Some(BuildAll(recs, build).value + [build(d).value]) else None
  {
    assert (recs + [d])[..|recs|] == recs;
  }

  /** A prefix that fails to build makes every extension fail. */
  lemma {:induction false} BuildAllAbort(a: seq<MrzDict>, b: seq<MrzDict>, build: MrzDict -> Option<Passenger>)
    requires BuildAll(a, build).None?
    ensures BuildAll(a + b, build).None?
    decreases |b|
  {
    if |b| == 0 {
      assert a + b == a;
    } else {
      assert (a + b)[..|a + b| - 1] == a + b[..|b| - 1];
      BuildAllAbort(a, b[..|b| - 1], build);
    }
  }

  /**
   * The upload loop (lines 96-141): unrecognised uploads are skipped; any
   * exception in building a record aborts the run (None).
   */
  method CollectPassengers(scans: seq<Option<MrzDict>>, today: Date) returns (passengers: Option<seq<Passenger>>)
    requires Valid(today)
    ensures passengers == BuildAll(Recognized(scans), Builder(today))
  {
    var acc: seq<Passenger> := [];
    var i := 0;
    while i < |scans|
      invariant 0 <= i <= |scans|
      invariant BuildAll(Recognized(scans[..i]), Builder(today)) == Some(acc)
    {
      RecognizedSnoc(scans, i);
      if scans[i].Some? {
        var p := MakePassenger(scans[i].value, today);
        assert p == Builder(today)(scans[i].value);
        BuildAllSnoc(Recognized(scans[..i]), scans[i].value, Builder(today));
        if p.None? {
          ghost var front := Recognized(scans[..i + 1]);
          RecognizedAppend(scans[..i + 1], scans[i + 1..]);
          assert scans[..i + 1] + scans[i + 1..] == scans;
          BuildAllAbort(front, Recognized(scans[i + 1..]), Builder(today));
          return None;
        }
        acc := acc + [p.value];
      }
      i := i + 1;
    }
    assert scans[..i] == scans;
    passengers := Some(acc);
  }

  /** So the batch builds exactly when every recognised record does, with the k-th record's passenger in place k. */
  lemma CollectedPassengers(scans: seq<Option<MrzDict>>, today: Date)
    requires Valid(today)
    ensures var r := BuildAll(Recognized(scans), Builder(today));
      && (r.Some? <==> forall d :: Some(d) in scans ==> MakePassenger(d, today).Some?)
      && (r.Some? ==>
           |r.value| == |Recognized(scans)| &&
           forall k :: 0 <= k < |Recognized(scans)| ==> Some(r.value[k]) == MakePassenger(Recognized(scans)[k], today))
  {
    var recs := Recognized(scans);
    BuildAllSpec(recs, Builder(today));
    RecognizedMembers(scans);
    if !AllBuild(recs, Builder(today)) {
      var k :| 0 <= k < |recs| && Builder(today)(recs[k]).None?;
      assert Some(recs[k]) in scans;
    } else {
      forall d | Some(d) in scans ensures MakePassenger(d, today).Some? {
        var k :| 0 <= k < |recs| && recs[k] == d;
      }
    }
  }

  lemma RecognizedSnoc(scans: seq<Option<MrzDict>>, i: nat)
    requires i < |scans|
    ensures scans[i].Some? ==> Recognized(scans[..i + 1]) == Recognized(scans[..i]) + [scans[i].value]
    ensures scans[i].None? ==> Recognized(scans[..i + 1]) == Recognized(scans[..i])
  {
    assert scans[..i + 1][..i] == scans[..i];
  }

  lemma {:induction false} RecognizedAppend(a: seq<Option<MrzDict>>, b: seq<Option<MrzDict>>)
    ensures Recognized(a + b) == Recognized(a) + Recognized(b)
    decreases |b|
  {
    if |b| > 0 {
      assert (a + b)[..|a + b| - 1] == a + b[..|b| - 1];
      RecognizedAppend(a, b[..|b| - 1]);
    } else {
      assert a + b == a;
    }
  }

  // ---------------------------------------------------------------------
  // Bucketing (lines 149-163)
  // ---------------------------------------------------------------------

  datatype Bucket = Adults | Children | Infants

  /** "INF" is an infant, "MSTR" and "MISS" a child, every other title an adult. */
  function BucketOf(title: string): Bucket {
    if title == "INF" then Infants
    else if title in ["MSTR", "MISS"] then Children
    else Adults
  }

  /** The passengers of one bucket, in upload order. */
  function InBucket(ps: seq<Passenger>, b: Bucket): (r: seq<Passenger>)
    ensures |r| <= |ps|
  {
    if |ps| == 0 then []
    else
      var last := ps[|ps| - 1];
      InBucket(ps[..|ps| - 1], b) + Only(last, b)
  }

  /** Bucketing distributes over concatenation, so it keeps the upload order. */
  lemma {:induction false} InBucketAppend(a: seq<Passenger>, c: seq<Passenger>, b: Bucket)
    ensures InBucket(a + c, b) == InBucket(a, b) + InBucket(c, b)
    decreases |c|
  {
    if |c| == 0 {
      assert a + c == a;
    } else {
      assert (a + c)[..|a + c| - 1] == a + c[..|c| - 1];
      InBucketAppend(a, c[..|c| - 1], b);
    }
  }

  /** The part of `[last]` that lands in bucket `b`. */
  function Only(last: Passenger, b: Bucket): seq<Passenger> {
    if BucketOf(last.title) == b then [last] else []
  }

  lemma InBucketSnoc(q: seq<Passenger>, last: Passenger, b: Bucket)
    ensures InBucket(q + [last], b) == InBucket(q, b) + Only(last, b)
  {
    assert (q + [last])[..|q|] == q;
  }

  /** One passenger lands in exactly one bucket. */
  lemma OnlyOne(last: Passenger)
    ensures multiset(Only(last, Adults)) + multiset(Only(last, Children)) + multiset(Only(last, Infants)) == multiset{last}
  {
    match BucketOf(last.title)
    case Adults =>
      assert Only(last, Children) == [] && Only(last, Infants) == [];
    case Children =>
      assert Only(last, Adults) == [] && Only(last, Infants) == [];
    case Infants =>
      assert Only(last, Adults) == [] && Only(last, Children) == [];
  }

  /** Every passenger lands in exactly one bucket. */
  lemma {:induction false} BucketsPartition(ps: seq<Passenger>)
    ensures multiset(InBucket(ps, Adults)) + multiset(InBucket(ps, Children)) + multiset(InBucket(ps, Infants))
            == multiset(ps)
  {
    if |ps| > 0 {
      var q, last := ps[..|ps| - 1], ps[|ps| - 1];
      BucketsPartition(q);
      assert ps == q + [last];
      InBucketSnoc(q, last, Adults);
      InBucketSnoc(q, last, Children);
      InBucketSnoc(q, last, Infants);
      OnlyOne(last);
    }
  }

  /** So the three buckets together are as long as the batch. */
  lemma BucketSizes(ps: seq<Passenger>)
    ensures |InBucket(ps, Adults)| + |InBucket(ps, Children)| + |InBucket(ps, Infants)| == |ps|
  {
    BucketsPartition(ps);
    assert |multiset(ps)| == |ps|;
  }

  /** The bucketing loop. */
  method SplitBuckets(passengers: seq<Passenger>) returns (adults: seq<Passenger>, children: seq<Passenger>, infants: seq<Passenger>)
    ensures adults == InBucket(passengers, Adults)
    ensures children == InBucket(passengers, Children)
    ensures infants == InBucket(passengers, Infants)
  {
    adults, children, infants := [], [], [];
    var i := 0;
    while i < |passengers|
      invariant 0 <= i <= |passengers|
      invariant adults == InBucket(passengers[..i], Adults)
      invariant children == InBucket(passengers[..i], Children)
      invariant infants == InBucket(passengers[..i], Infants)
    {
      var p := passengers[i];
      assert passengers[..i + 1] == passengers[..i] + [p];
      InBucketSnoc(passengers[..i], p, Adults);
      InBucketSnoc(passengers[..i], p, Children);
      InBucketSnoc(passengers[..i], p, Infants);
      if p.title == "INF" {
        infants := infants + [p];
      } else if p.title in ["MSTR", "MISS"] {
        children := children + [p];
      } else {
        adults := adults + [p];
      }
      i := i + 1;
    }
    assert passengers[..i] == passengers;
  }

  // ---------------------------------------------------------------------
  // NM1 lines (lines 168-185)
  // ---------------------------------------------------------------------

  /** An adult's name line, carrying the infant assigned to it, if any. */
  function AdultLine(adult: Passenger, infant: Option<Passenger>): string {
    "NM1" + adult.surname + "/" + adult.names + " " + adult.title +
    match infant
    case None => ""
    case Some(inf) => " (INF/" + inf.surname + " " + inf.names + "/" + inf.dob + ")"
  }

  /** A child's name line. */
  function ChildLine(child: Passenger): (r: string)
    ensures |r| >= 10 + |child.dob| && r[..3] == "NM1"
    ensures r[|r| - 7 - |child.dob|..] == " (CHD/" + child.dob + ")"
  {
    "NM1" + child.surname + "/" + child.names + " " + child.title + " (CHD/" + child.dob + ")"
  }

  /**
   * The NM1 listing: one line per adult, the i-th adult carrying the i-th
   * infant while infants last, then one line per child.
   */
  predicate Nm1Listing(lines: seq<string>, adults: seq<Passenger>, children: seq<Passenger>, infants: seq<Passenger>) {
    && |lines| == |adults| + |children|
    && (forall i :: 0 <= i < |adults| ==>
          lines[i] == AdultLine(adults[i], if i < |infants| then Some(infants[i]) else None))
    && (forall j :: 0 <= j < |children| ==> lines[|adults| + j] == ChildLine(children[j]))
  }

  method Nm1Lines(adults: seq<Passenger>, children: seq<Passenger>, infants: seq<Passenger>) returns (lines: seq<string>)
    ensures Nm1Listing(lines, adults, children, infants)
  {
    lines := [];
    var infIndex := 0;
    var i := 0;
    while i < |adults|
      invariant 0 <= i <= |adults|
      invariant infIndex == if i < |infants| then i else |infants|
      invariant |lines| == i
      invariant forall k :: 0 <= k < i ==>
        lines[k] == AdultLine(adults[k], if k < |infants| then Some(infants[k]) else None)
    {
      var adult := adults[i];
      var nm1 := "NM1" + adult.surname + "/" + adult.names + " " + adult.title;
      if infIndex < |infants| {
        var inf := infants[infIndex];
        nm1 := nm1 + " (INF/" + inf.surname + " " + inf.names + "/" + inf.dob + ")";
        infIndex := infIndex + 1;
      }
      lines := lines + [nm1];
      i := i + 1;
    }
    var j := 0;
    while j < |children|
      invariant 0 <= j <= |children|
      invariant |lines| == |adults| + j
      invariant forall k :: 0 <= k < |adults| ==>
        lines[k] == AdultLine(adults[k], if k < |infants| then Some(infants[k]) else None)
      invariant forall k :: 0 <= k < j ==> lines[|adults| + k] == ChildLine(children[k])
    {
      var chd := children[j];
      lines := lines + ["NM1" + chd.surname + "/" + chd.names + " " + chd.title + " (CHD/" + chd.dob + ")"];
      j := j + 1;
    }
  }

  /** Over a whole batch there is one NM1 line per passenger who is not an infant. */
  lemma Nm1Count(lines: seq<string>, ps: seq<Passenger>)
    requires Nm1Listing(lines, InBucket(ps, Adults), InBucket(ps, Children), InBucket(ps, Infants))
    ensures |lines| == |ps| - |InBucket(ps, Infants)|
  {
    BucketSizes(ps);
  }

  // ---------------------------------------------------------------------
  // SRDOCS lines (lines 193-205)
  // ---------------------------------------------------------------------

  /**
   * The document line of the passenger at 1-based position `pax`: the
   * f-string is eleven fields joined by '-', the names with spaces hyphenated.
   */
  function DocsFields(p: Passenger, pax: nat): seq<string> {
    ["SRDOCS SV HK1", "P", p.country, p.passport, p.country, p.dob, p.gender,
     p.exp, p.surname, ReplaceChar(p.names, ' ', '-'), "H/P" + Decimal(pax)]
  }

  function DocsLine(p: Passenger, pax: nat): string {
    Join(DocsFields(p, pax), '-')
  }

  method DocsLines(passengers: seq<Passenger>) returns (lines: seq<string>)
    ensures |lines| == |passengers|
    ensures forall k :: 0 <= k < |passengers| ==> lines[k] == DocsLine(passengers[k], k + 1)
  {
    lines := [];
    var pax := 1;
    var i := 0;
    while i < |passengers|
      invariant 0 <= i <= |passengers|
      invariant pax == i + 1
      invariant |lines| == i
      invariant forall k :: 0 <= k < i ==> lines[k] == DocsLine(passengers[k], k + 1)
    {
      var p := passengers[i];
      lines := lines + [Join(
        ["SRDOCS SV HK1", "P", p.country, p.passport, p.country, p.dob, p.gender,
         p.exp, p.surname, ReplaceChar(p.names, ' ', '-'), "H/P" + Decimal(pax)], '-')];
      pax := pax + 1;
      i := i + 1;
    }
  }

  /**
   * Splitting a document line on '-' gives back the literal head, the
   * document type, nationality, passport number, nationality, birth date,
   * sex and expiry date whenever those fields hold no '-'; the last piece is
   * always the 1-based passenger marker.
   */
  lemma DocsLineFields(p: Passenger, pax: nat)
    requires '-' !in p.country && '-' !in p.passport && '-' !in p.dob && '-' !in p.gender && '-' !in p.exp
    ensures var f := Split(DocsLine(p, pax), '-');
      && |f| >= 9
      && f[..8] == ["SRDOCS SV HK1", "P", p.country, p.passport, p.country, p.dob, p.gender, p.exp]
      && f[|f| - 1] == "H/P" + Decimal(pax)
  {
    var fields := DocsFields(p, pax);
    var heads, rest := fields[..8], fields[8..];
    assert fields == heads + rest;
    SplitJoinPrefix(heads, rest, '-');
    assert '-' !in fields[10] by {
      assert forall i :: 0 <= i < |Decimal(pax)| ==> IsDigit(Decimal(pax)[i]);
    }
    SplitJoinLast(fields, '-');
    assert |Split(Join(rest, '-'), '-')| >= 1;
  }

  /**
   * For a built passenger, the document line gives back the MRZ nationality,
   * number and sex and the rendered dates whenever those MRZ fields hold no '-'.
   */
  lemma BuiltDocsLineFields(d: MrzDict, today: Date, pax: nat)
    requires Valid(today) && MakePassenger(d, today).Some?
    requires '-' !in d["country"] && '-' !in d["number"] && '-' !in d["sex"]
    ensures var f := Split(DocsLine(MakePassenger(d, today).value, pax), '-');
      && |f| >= 9
      && f[2] == f[4] == d["country"] && f[3] == d["number"] && f[6] == d["sex"]
      && f[5] == SafeDate(d["date_of_birth"], today.year)
      && f[7] == SafeDate(d["expiration_date"], today.year)
  {
    var p := MakePassenger(d, today).value;
    PassengerFields(d, today);
    DocsLineFields(p, pax);
    var f := Split(DocsLine(p, pax), '-');
    assert f[2] == f[..8][2] && f[3] == f[..8][3] && f[4] == f[..8][4];
    assert f[5] == f[..8][5] && f[6] == f[..8][6] && f[7] == f[..8][7];
  }

  // ---------------------------------------------------------------------
  // The whole page (lines 92-207)
  // ---------------------------------------------------------------------

  datatype PnrOutcome =
    | Aborted                                       // an exception ended the run
    | NoPassengers                                  // nothing recognised: no output section
    | Entries(nm1: seq<string>, docs: seq<string>)  // the two code blocks, one line per element

  method BuildEntries(scans: seq<Option<MrzDict>>, today: Date) returns (out: PnrOutcome)
    requires Valid(today)
    ensures out.Aborted? <==> BuildAll(Recognized(scans), Builder(today)).None?
    ensures out.NoPassengers? <==> BuildAll(Recognized(scans), Builder(today)) == Some([])
    ensures out.Entries? ==>
      var ps := BuildAll(Recognized(scans), Builder(today)).value;
      && Nm1Listing(out.nm1, InBucket(ps, Adults), InBucket(ps, Children), InBucket(ps, Infants))
      && |out.nm1| == |ps| - |InBucket(ps, Infants)|
      && |out.docs| == |ps|
      && forall k :: 0 <= k < |ps| ==> out.docs[k] == DocsLine(ps[k], k + 1)
  {
    var collected := CollectPassengers(scans, today);
    if collected.None? {
      return Aborted;
    }
    var passengers := collected.value;
    if |passengers| == 0 {
      return NoPassengers;
    }
    var adults, children, infants := SplitBuckets(passengers);
    var nm1 := Nm1Lines(adults, children, infants);
    Nm1Count(nm1, passengers);
    var docs := DocsLines(passengers);
    out := Entries(nm1, docs);
  }
}
