/**
 * The few Python `str` operations the core relies on, on `seq<char>`:
 * slicing, `int()` on digit strings, `str()` of a natural number, `upper()`,
 * `strip()`, `replace()` of one character, and `split()` on one character.
 */
module PyText {
  import opened Wrappers

  // ---------------------------------------------------------------------
  // Digits and numbers
  // ---------------------------------------------------------------------

  predicate IsDigit(c: char) { '0' <= c <= '9' }

  predicate AllDigits(s: string) { forall i :: 0 <= i < |s| ==> IsDigit(s[i]) }

  function DigitValue(c: char): (n: nat)
    requires IsDigit(c)
    ensures n < 10
  {
    (c as int - '0' as int) as nat
  }

  function DigitChar(n: nat): (c: char)
    requires n < 10
    ensures IsDigit(c) && DigitValue(c) == n
  {
    ('0' as int + n) as char
  }

  /** The value of a string of decimal digits, most significant first. */
  function DigitsValue(s: string): nat
    requires AllDigits(s)
  {
    if |s| == 0 then 0 else DigitsValue(s[..|s| - 1]) * 10 + DigitValue(s[|s| - 1])
  }

  /**
   * Python `int(s)` on a string: a value exactly for a non-empty run of ASCII
   * digits; every other string (the empty one included) raises, modelled as None.
   */
  function ParseInt(s: string): (r: Option<nat>)
    ensures r.Some? <==> |s| > 0 && AllDigits(s)
    ensures |s| == 1 && r.Some? ==> r.value == DigitValue(s[0])
    ensures |s| == 2 && r.Some? ==> r.value == 10 * DigitValue(s[0]) + DigitValue(s[1])
    ensures |s| <= 2 && r.Some? ==> r.value < 100
  {
    if |s| > 0 && AllDigits(s) then
      assert |s| == 1 ==> DigitsValue(s[..0]) == 0;
      assert |s| == 2 ==> s[..1][..0] == [] && DigitsValue(s[..1]) == DigitValue(s[0]);
      Some(DigitsValue(s))
    else None
  }

  /** Python `str(n)` for a natural number. */
  function Decimal(n: nat): (s: string)
    ensures |s| > 0 && AllDigits(s)
  {
    if n < 10 then [DigitChar(n)] else Decimal(n / 10) + [DigitChar(n % 10)]
  }

  /** `str` and `int` are inverse on natural numbers. */
  lemma {:induction false} ParseDecimal(n: nat)
    ensures ParseInt(Decimal(n)) == Some(n)
  {
    var s := Decimal(n);
    if n < 10 {
      assert s[..|s| - 1] == [];
    } else {
      ParseDecimal(n / 10);
      assert s[..|s| - 1] == Decimal(n / 10);
    }
  }

  /** Two decimal digits with a leading zero, as `%02d` (and `%d`/`%y` in strftime). */
  function Pad2(n: nat): (s: string)
    requires n < 100
    ensures |s| == 2 && AllDigits(s) && ParseInt(s) == Some(n)
  {
    [DigitChar(n / 10), DigitChar(n % 10)]
  }

  // ---------------------------------------------------------------------
  // Slicing
  // ---------------------------------------------------------------------

  /** Python `s[a:b]` for constant bounds 0 <= a <= b: both ends are clipped to the length. */
  function Slice(s: string, a: nat, b: nat): (r: string)
    requires a <= b
    ensures |r| == (if b <= |s| then b - a else if a <= |s| then |s| - a else 0)
    ensures b <= |s| ==> r == s[a..b]
  {
    var lo := if a <= |s| then a else |s|;
    var hi := if b <= |s| then b else |s|;
    s[lo..hi]
  }

  // ---------------------------------------------------------------------
  // Case
  // ---------------------------------------------------------------------

  predicate IsLower(c: char) { 'a' <= c <= 'z' }
  predicate IsUpper(c: char) { 'A' <= c <= 'Z' }

  function UpperChar(c: char): (d: char)
    ensures IsLower(c) ==> IsUpper(d) && d as int == c as int - 32
    ensures !IsLower(c) ==> d == c
  {
    if IsLower(c) then (c as int - 32) as char else c
  }

  /** Python `s.upper()`, on the ASCII letters. */
  function Upper(s: string): (r: string)
    ensures |r| == |s|
    ensures forall i :: 0 <= i < |s| ==> r[i] == UpperChar(s[i])
  {
    if |s| == 0 then [] else [UpperChar(s[0])] + Upper(s[1..])
  }

  // ---------------------------------------------------------------------
  // Whitespace
  // ---------------------------------------------------------------------

  /**
   * Python `str.isspace` on one character; the same class is `\s` in a `str`
   * regular expression and what `strip()` removes.
   */
  predicate IsSpace(c: char) {
    || ('\t' <= c <= '\r')
    || ('\U{1C}' <= c <= ' ')
    || c == '\U{85}' || c == '\U{A0}' || c == '\U{1680}'
    || ('\U{2000}' <= c <= '\U{200A}')
    || c == '\U{2028}' || c == '\U{2029}' || c == '\U{202F}' || c == '\U{205F}' || c == '\U{3000}'
  }

  /** The first index at or after `i` that is not whitespace, or `|s|`. */
  function LeadingEnd(s: string, i: nat): (a: nat)
    requires i <= |s|
    ensures i <= a <= |s|
    ensures a < |s| ==> !IsSpace(s[a])
    decreases |s| - i
  {
    if i < |s| && IsSpace(s[i]) then LeadingEnd(s, i + 1) else i
  }

  /** The end of `s[..b]` with trailing whitespace removed, but not below `a`. */
  function TrailingStart(s: string, a: nat, b: nat): (e: nat)
    requires a <= b <= |s|
    ensures a <= e <= b
    ensures e > a ==> !IsSpace(s[e - 1])
    decreases b
  {
    if b > a && IsSpace(s[b - 1]) then TrailingStart(s, a, b - 1) else b
  }

  lemma {:induction false} LeadingEndSkips(s: string, i: nat)
    requires i <= |s|
    ensures forall j :: i <= j < LeadingEnd(s, i) ==> IsSpace(s[j])
    decreases |s| - i
  {
    if i < |s| && IsSpace(s[i]) {
      LeadingEndSkips(s, i + 1);
    }
  }

  lemma {:induction false} TrailingStartSkips(s: string, a: nat, b: nat)
    requires a <= b <= |s|
    ensures forall j :: TrailingStart(s, a, b) <= j < b ==> IsSpace(s[j])
    decreases b
  {
    if b > a && IsSpace(s[b - 1]) {
      TrailingStartSkips(s, a, b - 1);
    }
  }

  /**
   * Python `s.strip()`: `s[a..e]` where `a` is the first non-whitespace
   * index and `e` is one past the last; whitespace-only strings become "".
   */
  function Strip(s: string): (r: string)
    ensures |r| > 0 ==> !IsSpace(r[0]) && !IsSpace(r[|r| - 1])
  {
    var a := LeadingEnd(s, 0);
    var e := TrailingStart(s, a, |s|);
    if a < e then
      assert s[a..e][0] == s[a] && s[a..e][e - a - 1] == s[e - 1];
      s[a..e]
    else s[a..e]
  }

  /** `strip()` removes exactly the whitespace at both ends. */
  lemma StripBounds(s: string, a: nat, e: nat)
    requires a <= e <= |s|
    requires forall j :: 0 <= j < a ==> IsSpace(s[j])
    requires forall j :: e <= j < |s| ==> IsSpace(s[j])
    requires a < e ==> !IsSpace(s[a]) && !IsSpace(s[e - 1])
    ensures Strip(s) == s[a..e]
  {
    LeadingEndSkips(s, 0);
    var a' := LeadingEnd(s, 0);
    if a < e {
      TrailingStartSkips(s, a, |s|);
    }
  }

  /** Skipping whitespace from `i` passes through a run of whitespace up to `a`. */
  lemma {:induction false} LeadingEndThrough(s: string, i: nat, a: nat)
    requires i <= a <= |s|
    requires forall j :: i <= j < a ==> IsSpace(s[j])
    ensures LeadingEnd(s, i) == LeadingEnd(s, a)
    decreases a - i
  {
    if i < a {
      LeadingEndThrough(s, i + 1, a);
    }
  }

  /** Skipping whitespace in a suffix is skipping it in the whole string, shifted. */
  lemma {:induction false} LeadingEndShift(s: string, a: nat, i: nat)
    requires a + i <= |s|
    ensures LeadingEnd(s, a + i) == a + LeadingEnd(s[a..], i)
    decreases |s| - (a + i)
  {
    assert a + i < |s| ==> s[a..][i] == s[a + i];
    if a + i < |s| && IsSpace(s[a + i]) {
      LeadingEndShift(s, a, i + 1);
    }
  }

  /** Trimming trailing whitespace in a suffix is trimming it in the whole string, shifted. */
  lemma {:induction false} TrailingStartShift(s: string, a: nat, x: nat, b: nat)
    requires a <= x <= b <= |s|
    ensures TrailingStart(s, x, b) == a + TrailingStart(s[a..], x - a, b - a)
    decreases b
  {
    assert b > x ==> s[a..][b - a - 1] == s[b - 1];
    if b > x && IsSpace(s[b - 1]) {
      TrailingStartShift(s, a, x, b - 1);
    }
  }

  lemma SuffixSlice(s: string, a: nat, i: nat, j: nat)
    requires a <= |s| && i <= j <= |s| - a
    ensures s[a..][i..j] == s[a + i..a + j]
  {
  }

  /** Leading whitespace makes no difference to `strip()`. */
  lemma StripSkipsLeading(s: string, a: nat)
    requires a <= |s|
    requires forall j :: 0 <= j < a ==> IsSpace(s[j])
    ensures Strip(s) == Strip(s[a..])
  {
    var u := s[a..];
    var a2 := LeadingEnd(u, 0);
    var e2 := TrailingStart(u, a2, |u|);
    var start := LeadingEnd(s, 0);
    var end := TrailingStart(s, start, |s|);
    LeadingEndThrough(s, 0, a);
    LeadingEndShift(s, a, 0);
    assert start == a + a2;
    assert start - a == a2 && |s| - a == |u|;
    TrailingStartShift(s, a, start, |s|);
    assert end == a + e2;
    assert Strip(s) == s[start..end];
    assert Strip(u) == u[a2..e2];
    SuffixSlice(s, a, a2, e2);
  }

  /** A stripped string is a piece of the original, so it holds none of its absent characters. */
  lemma StripKeepsOut(s: string, c: char)
    requires c !in s
    ensures c !in Strip(s)
  {
    var a := LeadingEnd(s, 0);
    var e := TrailingStart(s, a, |s|);
    forall j | 0 <= j < e - a ensures s[a..e][j] != c {
      assert s[a..e][j] == s[a + j];
    }
  }

  // ---------------------------------------------------------------------
  // Replacing and splitting on one character
  // ---------------------------------------------------------------------

  /** Python `s.replace(a, b)` for one-character `a` and `b`. */
  function ReplaceChar(s: string, a: char, b: char): (r: string)
    ensures |r| == |s|
    ensures forall i :: 0 <= i < |s| ==> r[i] == if s[i] == a then b else s[i]
  {
    if |s| == 0 then [] else [if s[0] == a then b else s[0]] + ReplaceChar(s[1..], a, b)
  }

  /** Python `s.replace(a, "")`: every `a` removed, the rest in order. */
  function RemoveChar(s: string, a: char): (r: string)
    ensures a !in r
    ensures multiset(r) == multiset(s)[a := 0]
    ensures |r| == |s| - multiset(s)[a]
  {
    if |s| == 0 then []
    else
      assert s == [s[0]] + s[1..];
      (if s[0] == a then [] else [s[0]]) + RemoveChar(s[1..], a)
  }

  /** Removal works piece by piece, so the kept characters stay in their order. */
  lemma {:induction false} RemoveConcat(x: string, y: string, a: char)
    ensures RemoveChar(x + y, a) == RemoveChar(x, a) + RemoveChar(y, a)
    decreases |x|
  {
    if |x| > 0 {
      var h := if x[0] == a then [] else [x[0]];
      assert (x + y)[0] == x[0];
      assert (x + y)[1..] == x[1..] + y;
      assert RemoveChar(x + y, a) == h + RemoveChar(x[1..] + y, a);
      assert RemoveChar(x, a) == h + RemoveChar(x[1..], a);
      RemoveConcat(x[1..], y, a);
    } else {
      assert x + y == y;
    }
  }

  /** Removing a character that does not occur changes nothing. */
  lemma {:induction false} RemoveAbsent(s: string, a: char)
    requires a !in s
    ensures RemoveChar(s, a) == s
  {
    if |s| > 0 {
      assert a !in s[1..];
      RemoveAbsent(s[1..], a);
      assert s == [s[0]] + s[1..];
    }
  }

  /** Python `s.split(c)` for one character `c`: the maximal `c`-free pieces, in order. */
  function Split(s: string, c: char): (r: seq<string>)
    ensures |r| > 0
    ensures forall i :: 0 <= i < |r| ==> c !in r[i]
  {
    if |s| == 0 then [""]
    else
      var rest := Split(s[1..], c);
      if s[0] == c then [""] + rest else [[s[0]] + rest[0]] + rest[1..]
  }

  /** A string without the separator is one piece. */
  lemma {:induction false} SplitNone(a: string, c: char)
    requires c !in a
    ensures Split(a, c) == [a]
  {
    if |a| > 0 {
      assert c !in a[1..];
      SplitNone(a[1..], c);
      assert a == [a[0]] + a[1..];
    }
  }

  /** A separator-free head followed by the separator splits off as the first piece. */
  lemma {:induction false} SplitConcat(a: string, c: char, b: string)
    requires c !in a
    ensures Split(a + [c] + b, c) == [a] + Split(b, c)
  {
    if |a| == 0 {
      assert a + [c] + b == [c] + b;
      assert ([c] + b)[1..] == b;
    } else {
      var s := a + [c] + b;
      assert s[0] == a[0] && s[1..] == a[1..] + [c] + b;
      assert c !in a[1..];
      SplitConcat(a[1..], c, b);
      assert [a[0]] + a[1..] == a;
    }
  }

  /** Python `c.join(fields)` for a one-character separator. */
  function Join(fields: seq<string>, c: char): string {
    if |fields| == 0 then ""
    else if |fields| == 1 then fields[0]
    else fields[0] + [c] + Join(fields[1..], c)
  }

  /** Splitting undoes joining when no field holds the separator. */
  lemma {:induction false} SplitJoin(fields: seq<string>, c: char)
    requires |fields| > 0
    requires forall i :: 0 <= i < |fields| ==> c !in fields[i]
    ensures Split(Join(fields, c), c) == fields
  {
    if |fields| == 1 {
      SplitNone(fields[0], c);
    } else {
      SplitJoin(fields[1..], c);
      SplitConcat(fields[0], c, Join(fields[1..], c));
      assert fields == [fields[0]] + fields[1..];
    }
  }

  /** Separator-free leading fields split off one by one, whatever the later fields hold. */
  lemma {:induction false} SplitJoinPrefix(heads: seq<string>, rest: seq<string>, c: char)
    requires |rest| > 0
    requires forall i :: 0 <= i < |heads| ==> c !in heads[i]
    ensures Split(Join(heads + rest, c), c) == heads + Split(Join(rest, c), c)
  {
    if |heads| > 0 {
      var all := heads + rest;
      assert all[1..] == heads[1..] + rest;
      SplitJoinPrefix(heads[1..], rest, c);
      SplitConcat(heads[0], c, Join(all[1..], c));
      assert heads == [heads[0]] + heads[1..];
    } else {
      assert heads + rest == rest;
    }
  }

  /** A separator-free last field is the last piece, whatever the earlier fields hold. */
  lemma {:induction false} SplitJoinLast(fields: seq<string>, c: char)
    requires |fields| > 0 && c !in fields[|fields| - 1]
    ensures var f := Split(Join(fields, c), c); f[|f| - 1] == fields[|fields| - 1]
  {
    if |fields| == 1 {
      SplitNone(fields[0], c);
    } else {
      SplitJoinLast(fields[1..], c);
      SplitTailLast(fields[0], c, Join(fields[1..], c));
    }
  }

  /** The pieces after the first separator end the same way as the whole. */
  lemma {:induction false} SplitTailLast(x: string, c: char, t: string)
    ensures var f, g := Split(x + [c] + t, c), Split(t, c); |f| > |g| && f[|f| - 1] == g[|g| - 1]
    decreases |x|
  {
    var s := x + [c] + t;
    if |x| == 0 {
      assert s[1..] == t;
    } else {
      assert s[1..] == x[1..] + [c] + t;
      SplitTailLast(x[1..], c, t);
    }
  }
}
