/**
 * Hajj_Form_Extractor.py: labelled fields and the two fixed-width
 * patterns read from the upper-cased OCR text of a booking form.
 */
module HajjForm {
  import opened Wrappers
  import opened PyText

  // ---------------------------------------------------------------------
  // Fixed-width patterns and the leftmost-match search
  // ---------------------------------------------------------------------

  /** The three patterns searched for; each matches a fixed number of characters. */
  datatype Pattern =
    | Literal(caption: string)   // a label of letters and spaces
    | NationalIdPattern          // \d{5}-\d{7}-\d
    | PassportPattern            // [A-Z]{2}\d{7}

  function Width(pat: Pattern): nat {
    match pat
    case Literal(c) => |c|
    case NationalIdPattern => 15
    case PassportPattern => 9
  }

  /** `\d{n}` at `a`, spelled out one position at a time. */
  predicate DigitsIn(s: string, a: nat, b: nat)
    requires a <= b <= |s|
    decreases b - a
  {
    a == b || (IsDigit(s[a]) && DigitsIn(s, a + 1, b))
  }

  /** A run of digits satisfies `\d{n}` over it. */
  lemma {:induction false} AllDigitsIn(s: string, a: nat, b: nat)
    requires a <= b <= |s|
    requires forall j :: a <= j < b ==> IsDigit(s[j])
    ensures DigitsIn(s, a, b)
    decreases b - a
  {
    if a < b {
      AllDigitsIn(s, a + 1, b);
    }
  }

  /** `pat` matches all of `s`. */
  predicate Matches(pat: Pattern, s: string) {
    |s| == Width(pat) &&
    match pat
    case Literal(c) => s == c
    case NationalIdPattern =>
      DigitsIn(s, 0, 5) && s[5] == '-' && DigitsIn(s, 6, 13) && s[13] == '-' && IsDigit(s[14])
    case PassportPattern => IsUpper(s[0]) && IsUpper(s[1]) && DigitsIn(s, 2, 9)
  }

  /** `pat` matches `text` starting at `i`. */
  predicate MatchAt(text: string, pat: Pattern, i: nat) {
    i + Width(pat) <= |text| && Matches(pat, text[i..i + Width(pat)])
  }

  /** The first position at or after `from` where `pat` matches: what `re.search` scans for. */
  function FirstMatch(text: string, pat: Pattern, from: nat): (r: Option<nat>)
    ensures r.Some? ==> from <= r.value && MatchAt(text, pat, r.value)
    ensures r.Some? ==> forall j :: from <= j < r.value ==> !MatchAt(text, pat, j)
    ensures r.None? ==> forall j :: from <= j ==> !MatchAt(text, pat, j)
    decreases |text| - from
  {
    if from + Width(pat) > |text| then None
    else if Matches(pat, text[from..from + Width(pat)]) then Some(from)
    else FirstMatch(text, pat, from + 1)
  }

  /** The leftmost match is unique: any position with a match and none before it is the one found. */
  lemma FirstMatchIsLeftmost(text: string, pat: Pattern, i: nat)
    requires MatchAt(text, pat, i)
    requires forall j :: 0 <= j < i ==> !MatchAt(text, pat, j)
    ensures FirstMatch(text, pat, 0) == Some(i)
  {
  }

  // ---------------------------------------------------------------------
  // find_value: LABEL\s*(.*) , then strip()
  // ---------------------------------------------------------------------

  /** The first '\n' at or after `k`, or the end: how far `.*` reaches. */
  function LineEnd(text: string, k: nat): (r: nat)
    requires k <= |text|
    ensures k <= r <= |text|
    ensures r < |text| ==> text[r] == '\n'
    decreases |text| - k
  {
    if k < |text| && text[k] != '\n' then LineEnd(text, k + 1) else k
  }

  /** `.*` stops at the first newline: none lies before it. */
  lemma {:induction false} LineEndIsLineEnd(text: string, k: nat)
    requires k <= |text|
    ensures forall j :: k <= j < LineEnd(text, k) ==> text[j] != '\n'
    decreases |text| - k
  {
    if k < |text| && text[k] != '\n' {
      LineEndIsLineEnd(text, k + 1);
    }
  }

  /**
   * Group 1 of `LABEL\s*(.*)`: after the leftmost occurrence of the label,
   * `\s*` skips to the first non-whitespace character (newlines included)
   * and `(.*)` runs to the next newline or the end; None without the label.
   */
  function Group(text: string, caption: string): (g: Option<string>)
    ensures g.Some? ==> '\n' !in g.value
  {
    match FirstMatch(text, Literal(caption), 0)
    case None => None
    case Some(i) =>
      assert MatchAt(text, Literal(caption), i);
      var k := LeadingEnd(text, i + |caption|);  // \s* is greedy
      var e := LineEnd(text, k);
      LineEndIsLineEnd(text, k);
      assert '\n' !in text[k..e] by {
        forall j | 0 <= j < e - k ensures text[k..e][j] != '\n' {
          assert text[k..e][j] == text[k + j];
        }
      }
      Some(text[k..e])
  }

  /**
   * The group, described without the search: for the leftmost occurrence
   * `i` of the label, `k` the first non-whitespace index after it and `e`
   * the next newline or the end, the group is `text[k..e]`.
   */
  lemma GroupSelects(text: string, caption: string, i: nat, k: nat, e: nat)
    requires MatchAt(text, Literal(caption), i)
    requires forall j :: 0 <= j < i ==> !MatchAt(text, Literal(caption), j)
    requires i + |caption| <= k <= e <= |text|
    requires forall j :: i + |caption| <= j < k ==> IsSpace(text[j])
    requires k < |text| ==> !IsSpace(text[k])
    requires forall j :: k <= j < e ==> text[j] != '\n'
    requires e < |text| ==> text[e] == '\n'
    ensures Group(text, caption) == Some(text[k..e])
  {
    FirstMatchIsLeftmost(text, Literal(caption), i);
    SkipSpaceIsFirst(text, i + |caption|, k);
    LineEndIsFirst(text, k, e);
  }

  lemma SkipSpaceIsFirst(text: string, k0: nat, k: nat)
    requires k0 <= k <= |text|
    requires forall j :: k0 <= j < k ==> IsSpace(text[j])
    requires k < |text| ==> !IsSpace(text[k])
    ensures LeadingEnd(text, k0) == k
  {
    LeadingEndSkips(text, k0);
  }

  lemma LineEndIsFirst(text: string, k: nat, e: nat)
    requires k <= e <= |text|
    requires forall j :: k <= j < e ==> text[j] != '\n'
    requires e < |text| ==> text[e] == '\n'
    ensures LineEnd(text, k) == e
  {
    LineEndIsLineEnd(text, k);
  }

  /**
   * `find_value(text, label)` for a label of letters and spaces, where the
   * regular expression is a literal search: the stripped group, or "" when
   * the label does not occur.
   */
  function FindValue(text: string, caption: string): (r: string)
    ensures '\n' !in r
    ensures |r| > 0 ==> !IsSpace(r[0]) && !IsSpace(r[|r| - 1])
  {
    match Group(text, caption)
    case None => ""
    case Some(g) =>
      StripKeepsOut(g, '\n');
      Strip(g)
  }

  /** A label that does not occur gives "". */
  lemma FindValueAbsent(text: string, caption: string)
    requires forall i :: !MatchAt(text, Literal(caption), i)
    ensures FindValue(text, caption) == ""
  {
    assert FirstMatch(text, Literal(caption), 0).None?;
  }

  /** So the value is the stripped rest of the line that holds the first non-blank character after the label. */
  lemma FindValueSelects(text: string, caption: string, i: nat, k: nat, e: nat)
    requires MatchAt(text, Literal(caption), i)
    requires forall j :: 0 <= j < i ==> !MatchAt(text, Literal(caption), j)
    requires i + |caption| <= k <= e <= |text|
    requires forall j :: i + |caption| <= j < k ==> IsSpace(text[j])
    requires k < |text| ==> !IsSpace(text[k])
    requires forall j :: k <= j < e ==> text[j] != '\n'
    requires e < |text| ==> text[e] == '\n'
    ensures FindValue(text, caption) == Strip(text[k..e])
  {
    GroupSelects(text, caption, i, k, e);
  }

  /**
   * A label followed only by whitespace up to the end of its line takes the
   * next line holding a non-whitespace character, stripped: `\s*` skips the
   * line break and any blank lines in between.
   */
  lemma LabelAtLineEndTakesNextLine(text: string, caption: string, i: nat, ls: nat, e: nat)
    requires MatchAt(text, Literal(caption), i)
    requires forall j :: 0 <= j < i ==> !MatchAt(text, Literal(caption), j)
    requires i + |caption| < ls <= e <= |text| && text[ls - 1] == '\n'
    requires forall j :: i + |caption| <= j < ls ==> IsSpace(text[j])
    requires forall j :: ls <= j < e ==> text[j] != '\n'
    requires e < |text| ==> text[e] == '\n'
    requires exists j :: ls <= j < e && !IsSpace(text[j])
    ensures FindValue(text, caption) == Strip(text[ls..e])
  {
    var k := LeadingEnd(text, ls);
    FirstNonBlank(text, i + |caption|, ls, e);
    FindValueSelects(text, caption, i, k, e);
    StripFromInside(text, ls, k, e);
  }

  /** `\s*` started in a whitespace run before a line with a non-whitespace character stops inside that line. */
  lemma FirstNonBlank(text: string, c: nat, ls: nat, e: nat)
    requires c <= ls <= e <= |text|
    requires forall j :: c <= j < ls ==> IsSpace(text[j])
    requires exists j :: ls <= j < e && !IsSpace(text[j])
    ensures var k := LeadingEnd(text, ls);
      ls <= k < e && !IsSpace(text[k]) && forall j :: c <= j < k ==> IsSpace(text[j])
  {
    var k := LeadingEnd(text, ls);
    LeadingEndSkips(text, ls);
    var w :| ls <= w < e && !IsSpace(text[w]);
    assert k <= w;
  }

  /** Stripping a line from a point inside its leading whitespace is stripping the whole line. */
  lemma StripFromInside(text: string, ls: nat, k: nat, e: nat)
    requires ls <= k <= e <= |text|
    requires forall j :: ls <= j < k ==> IsSpace(text[j])
    ensures Strip(text[k..e]) == Strip(text[ls..e])
  {
    var line := text[ls..e];
    assert text[k..e] == line[k - ls..];
    StripSkipsLeading(line, k - ls);
  }

  /** For example, a label at the end of its line, a blank line, then the value. */
  lemma LabelAtLineEnd()
    ensures FindValue("FATHER\n\n  ALI KHAN \nX", "FATHER") == "ALI KHAN"
  {
    var text := "FATHER\n\n  ALI KHAN \nX";
    assert text[0..6] == "FATHER";
    assert MatchAt(text, Literal("FATHER"), 0);
    assert text[6] == '\n' && text[7] == '\n' && text[8] == ' ' && text[9] == ' ';
    assert text[10] == 'A' && text[19] == '\n';
    var g := text[10..19];
    assert g == "ALI KHAN ";
    GroupSelects(text, "FATHER", 0, 10, 19);
    StripBounds(g, 0, 8);
    assert g[0..8] == "ALI KHAN";
  }

  /** "FATHER" also matches inside a longer label; the rest of that label is taken. */
  lemma LabelInsideLongerLabel()
    ensures FindValue("FATHER/HUSBAND ALI", "FATHER") == "/HUSBAND ALI"
  {
    var text := "FATHER/HUSBAND ALI";
    assert text[0..6] == "FATHER";
    assert MatchAt(text, Literal("FATHER"), 0);
    assert text[6] == '/';
    var g := text[6..18];
    assert g == "/HUSBAND ALI";
    GroupSelects(text, "FATHER", 0, 6, 18);
    StripBounds(g, 0, 12);
    assert g[0..12] == g;
  }

  // ---------------------------------------------------------------------
  // The two fixed-width patterns
  // ---------------------------------------------------------------------

  /** The leftmost match of `pat` in `text`, or "" when there is none (lines 76-84). */
  function Search(text: string, pat: Pattern): (r: string)
    ensures r != "" ==> |r| == Width(pat) && Matches(pat, r)
  {
    match FirstMatch(text, pat, 0)
    case None => ""
    case Some(i) => text[i..i + Width(pat)]
  }

  /** Only the leftmost match counts: a match with none before it is the result. */
  lemma SearchLeftmost(text: string, pat: Pattern, i: nat)
    requires MatchAt(text, pat, i)
    requires forall j :: 0 <= j < i ==> !MatchAt(text, pat, j)
    ensures Search(text, pat) == text[i..i + Width(pat)]
  {
    FirstMatchIsLeftmost(text, pat, i);
  }

  /** The result is "" exactly when the pattern matches nowhere. */
  lemma SearchEmptyIff(text: string, pat: Pattern)
    requires Width(pat) > 0
    ensures Search(text, pat) == "" <==> forall i :: !MatchAt(text, pat, i)
  {
    var w := FirstMatch(text, pat, 0);
    if w.Some? {
      assert MatchAt(text, pat, w.value);
    }
  }

  /** The search is unanchored: a national ID may start inside a longer run of digits. */
  lemma NationalIdInsideDigitRun()
    ensures Search("123456-1234567-8", NationalIdPattern) == "23456-1234567-8"
  {
    var id := "23456-1234567-8";
    var text := "1" + id;
    assert text == "123456-1234567-8";
    assert text[1..16] == id;
    assert !MatchAt(text, NationalIdPattern, 0) by {
      assert text[5] == id[4] == '6';
      assert text[0..15][5] == text[5];
    }
    AllDigitsIn(id, 0, 5);
    AllDigitsIn(id, 6, 13);
    assert MatchAt(text, NationalIdPattern, 1);
    SearchLeftmost(text, NationalIdPattern, 1);
  }

  // ---------------------------------------------------------------------
  // run(), lines 65-84
  // ---------------------------------------------------------------------

  /** What a `data` entry holds: a string, or (until lines 76-84) the result of `re.search`. */
  datatype Cell = Str(s: string) | Found(m: Option<string>)

  /** `re.search(pattern, text)` for a fixed-width pattern: the match object, or None. */
  function SearchCell(text: string, pat: Pattern): Cell {
    match FirstMatch(text, pat, 0)
    case None => Found(None)
    case Some(i) => Found(Some(text[i..i + Width(pat)]))
  }

  /** `match.group()` when there is a match, "" otherwise. */
  function GroupOrEmpty(c: Cell): (r: Cell)
    requires c.Found?
    ensures r.Str?
  {
    if c.m.Some? then Str(c.m.value) else Str("")
  }

  /**
   * The dictionary `data` after line 74: its eight keys, in insertion
   * order ("Name", "Father/Husband", "CNIC", "Passport", "DOB", "Mobile",
   * "WhatsApp", "Address"), are fixed, so each is a field here.
   */
  datatype Form = Form(name: Cell, fatherHusband: Cell, cnic: Cell, passport: Cell,
                       dob: Cell, mobile: Cell, whatsApp: Cell, address: Cell)

  /**
   * The extraction on the OCR output: upper-case it, fill the entries in
   * the source's order (the two pattern entries hold the search result),
   * then replace each search result by its matched text, or "" when there
   * was no match. Every entry ends as a string: the labelled ones are the
   * stripped line after their label, the pattern ones the leftmost match.
   */
  method ExtractForm(ocr: string) returns (data: Form)
    ensures var text := Upper(ocr);
      && data.name == Str(FindValue(text, "NAME OF APPLICANT"))
      && data.fatherHusband == Str(FindValue(text, "FATHER"))
      && data.cnic == Str(Search(text, NationalIdPattern))
      && data.passport == Str(Search(text, PassportPattern))
      && data.dob == Str(FindValue(text, "DATE OF BIRTH"))
      && data.mobile == Str(FindValue(text, "MOBILE"))
      && data.whatsApp == Str(FindValue(text, "WHATSAPP"))
      && data.address == Str(FindValue(text, "RESIDENT ADDRESS"))
  {
    var text := Upper(ocr);
    var name := Str(FindValue(text, "NAME OF APPLICANT"));
    var fatherHusband := Str(FindValue(text, "FATHER"));
    var cnic := SearchCell(text, NationalIdPattern);
    var passport := SearchCell(text, PassportPattern);
    var dob := Str(FindValue(text, "DATE OF BIRTH"));
    var mobile := Str(FindValue(text, "MOBILE"));
    var whatsApp := Str(FindValue(text, "WHATSAPP"));
    var address := Str(FindValue(text, "RESIDENT ADDRESS"));
    data := Form(name, fatherHusband, cnic, passport, dob, mobile, whatsApp, address);

    data := data.(cnic := GroupOrEmpty(data.cnic));
    data := data.(passport := GroupOrEmpty(data.passport));
    SearchCellGroup(text, NationalIdPattern);
    SearchCellGroup(text, PassportPattern);
  }

  /** Replacing a search result by its group gives the leftmost match or "". */
  lemma SearchCellGroup(text: string, pat: Pattern)
    ensures GroupOrEmpty(SearchCell(text, pat)) == Str(Search(text, pat))
  {
  }
}
