/** Release dates: what `datetime.strptime(segment, fmt).date()` accepts for the two
    formats the crawler tries, `"%B-%Y"` and `"%B-%d-%Y"`, in the English (C) locale,
    and the ISO text `str(date)` that ends up in file names. */
module Dates {
  import opened Text

  /** A `datetime.date`. */
  datatype Date = Date(year: int, month: int, day: int)

  predicate IsLeapYear(y: int) {
    y % 4 == 0 && (y % 100 != 0 || y % 400 == 0)
  }

  function DaysInMonth(month: int, year: int): int
    requires 1 <= month <= 12
  {
    if month == 2 then (if IsLeapYear(year) then 29 else 28)
    else if month == 4 || month == 6 || month == 9 || month == 11 then 30
    else 31
  }

  /** `datetime.date` refuses years outside 1..9999 and days the month does not have. */
  predicate ValidDate(d: Date) {
    1 <= d.year <= 9999 && 1 <= d.month <= 12 && 1 <= d.day <= DaysInMonth(d.month, d.year)
  }

  // ---------------------------------------------------------------------------
  // Tokens

  /** The full month names `%B` matches in the C locale, lower-cased. */
  function MonthName(m: int): string
    requires 1 <= m <= 12
  {
    if m == 1 then "january" else if m == 2 then "february" else if m == 3 then "march"
    else if m == 4 then "april" else if m == 5 then "may" else if m == 6 then "june"
    else if m == 7 then "july" else if m == 8 then "august" else if m == 9 then "september"
    else if m == 10 then "october" else if m == 11 then "november" else "december"
  }

  function LowerAscii(c: char): char {
    if 'A' <= c <= 'Z' then (c as int - 'A' as int + 'a' as int) as char else c
  }

  /** `str.lower` on ASCII text: each character lowered on its own. */
  function Lower(s: string): (r: string)
    ensures |r| == |s|
    ensures forall i :: 0 <= i < |s| ==> r[i] == LowerAscii(s[i])
  {
    MapSeq(s, LowerAscii)
  }

  function MonthFrom(name: string, k: nat): (m: Option<int>)
    requires k <= 12
    ensures m.Some? ==> k + 1 <= m.value <= 12 && name == MonthName(m.value)
    ensures m.None? ==> forall j :: k < j <= 12 ==> name != MonthName(j)
    decreases 12 - k
  {
    if k == 12 then None
    else if name == MonthName(k + 1) then Some(k + 1)
    else MonthFrom(name, k + 1)
  }

  /** The month a `%B` token names (1 to 12), matched without regard to case. */
  function MonthNumber(tok: string): (m: Option<int>)
    ensures m.Some? ==> 1 <= m.value <= 12 && Lower(tok) == MonthName(m.value)
    ensures m.None? ==> forall j :: 1 <= j <= 12 ==> Lower(tok) != MonthName(j)
  {
    MonthFrom(Lower(tok), 0)
  }

  predicate AllDigits(s: string) {
    forall i :: 0 <= i < |s| ==> IsAsciiDigit(s[i])
  }

  /** A `%Y` token: exactly four digits. */
  function YearToken(tok: string): (y: Option<int>)
    ensures y.Some? ==> 0 <= y.value <= 9999
  {
    if |tok| == 4 && AllDigits(tok) then
      assert DecimalValue(tok) <= 9999 by { DecimalValueBound(tok); }
      Some(DecimalValue(tok))
    else None
  }

  lemma {:induction false} DecimalValueBound(s: string)
    requires AllDigits(s)
    ensures DecimalValue(s) < Pow10(|s|)
  {
    if s != [] {
      DecimalValueBound(s[..|s| - 1]);
    }
  }

  function Pow10(n: nat): (p: nat)
    ensures p >= 1
  {
    if n == 0 then 1 else 10 * Pow10(n - 1)
  }

  /** A `%d` token: one digit 1-9, a space and a digit 1-9, or two digits 01-31. */
  function DayToken(tok: string): (d: Option<int>)
    ensures d.Some? ==> 1 <= d.value <= 31
  {
    if |tok| == 1 && '1' <= tok[0] <= '9' then Some(tok[0] as int - '0' as int)
    else if |tok| == 2 && tok[0] == ' ' && '1' <= tok[1] <= '9' then Some(tok[1] as int - '0' as int)
    else if |tok| == 2 && AllDigits(tok) && 1 <= DecimalValue(tok) <= 31 then Some(DecimalValue(tok))
    else None
  }

  // ---------------------------------------------------------------------------
  // The two formats

  /** `"%B-%Y"` and `"%B-%d-%Y"`. */
  datatype Format = MonthYear | MonthDayYear

  /** The formats in the order the crawler tries them. */
  const DateFormats: seq<Format> := [MonthYear, MonthDayYear]

  /** `strptime(s, f)`: the whole of `s` must match `f`, and the result must be a real
      calendar date; `%B-%Y` gives the first of the month. Month names and digits hold
      no `-`, so matching a format is splitting on `-` into the right number of tokens. */
  function Parse(f: Format, s: string): (r: Option<Date>)
    ensures r.Some? ==> ValidDate(r.value)
  {
    var parts := Split(s, '-');
    match f
    case MonthYear =>
      if |parts| != 2 then None
      else
        (match (MonthNumber(parts[0]), YearToken(parts[1]))
         case (Some(m), Some(y)) => if 1 <= y then Some(Date(y, m, 1)) else None
         case _ => None)
    case MonthDayYear =>
      if |parts| != 3 then None
      else
        match (MonthNumber(parts[0]), DayToken(parts[1]), YearToken(parts[2]))
        case (Some(m), Some(d), Some(y)) =>
          if 1 <= y && d <= DaysInMonth(m, y) then Some(Date(y, m, d)) else None
        case _ => None
  }

  /** The result of the first format that parses, if any does. */
  function FirstParse(formats: seq<Format>, s: string): (r: Option<Date>)
    ensures r.Some? ==> ValidDate(r.value)
    ensures r.Some? ==> exists k :: 0 <= k < |formats| && Parse(formats[k], s) == r
    ensures r.None? <==> forall k :: 0 <= k < |formats| ==> Parse(formats[k], s).None?
  {
    if formats == [] then None
    else if Parse(formats[0], s).Some? then Parse(formats[0], s)
    else
      var r := FirstParse(formats[1..], s);
      assert forall k :: 1 <= k < |formats| ==> formats[k] == formats[1..][k - 1];
      r
  }

  /** Trying the formats in order: when the first `i` fail and the next one succeeds,
      that one decides. */
  lemma {:induction false} FirstParseFirstSuccess(formats: seq<Format>, s: string, i: nat)
    requires i < |formats|
    requires forall k :: 0 <= k < i ==> Parse(formats[k], s).None?
    requires Parse(formats[i], s).Some?
    ensures FirstParse(formats, s) == Parse(formats[i], s)
  {
    if i > 0 {
      assert Parse(formats[0], s).None?;
      assert forall k :: 0 <= k < i - 1 ==> formats[1..][k] == formats[k + 1];
      FirstParseFirstSuccess(formats[1..], s, i - 1);
    }
  }

  /** A string has one `-` or two, so at most one of the formats matches it: the order
      in which they are tried never decides between two readings. */
  lemma FormatsExclusive(s: string)
    ensures Parse(MonthYear, s).None? || Parse(MonthDayYear, s).None?
  {
  }

  // ---------------------------------------------------------------------------
  // Writing dates

  /** The last `width` decimal digits of `n`, zero-padded (`"%0*d"`). */
  function Digits(n: nat, width: nat): (r: string)
    ensures |r| == width && AllDigits(r)
  {
    if width == 0 then [] else Digits(n / 10, width - 1) + [DigitChar(n % 10)]
  }

  lemma {:induction false} DigitsValue(n: nat, width: nat)
    requires n < Pow10(width)
    ensures DecimalValue(Digits(n, width)) == n
  {
    if width > 0 {
      DigitsValue(n / 10, width - 1);
      DigitValue(n % 10);
      var r := Digits(n, width);
      assert r[..|r| - 1] == Digits(n / 10, width - 1);
    } else {
      assert n == 0;
    }
  }

  /** `str(date)`: `YYYY-MM-DD`. */
  function Iso(d: Date): (r: string)
    requires ValidDate(d)
    ensures |r| == 10 && r[4] == '-' && r[7] == '-'
  {
    Digits(d.year, 4) + "-" + Digits(d.month, 2) + "-" + Digits(d.day, 2)
  }

  /** Reads `YYYY-MM-DD` back. */
  function ParseIso(s: string): Option<Date> {
    if |s| == 10 && s[4] == '-' && s[7] == '-' && AllDigits(s[..4]) && AllDigits(s[5..7]) && AllDigits(s[8..]) then
      Some(Date(DecimalValue(s[..4]), DecimalValue(s[5..7]), DecimalValue(s[8..])))
    else None
  }

  /** The ISO text of a date determines the date. */
  lemma IsoRoundTrip(d: Date)
    requires ValidDate(d)
    ensures ParseIso(Iso(d)) == Some(d)
  {
    var s := Iso(d);
    assert s[..4] == Digits(d.year, 4);
    assert s[5..7] == Digits(d.month, 2);
    assert s[8..] == Digits(d.day, 2);
    DigitsValue(d.year, 4);
    DigitsValue(d.month, 2);
    DigitsValue(d.day, 2);
  }

  /** The text `value if value is a date else ""` that the file names carry. */
  function DateText(d: Option<Date>): string {
    match d
    case Some(v) => if ValidDate(v) then Iso(v) else ""
    case None => ""
  }

  // ---------------------------------------------------------------------------
  // Round trips through the two formats

  lemma {:induction false} LowerOfLower(s: string)
    requires forall i :: 0 <= i < |s| ==> !('A' <= s[i] <= 'Z')
    ensures Lower(s) == s
  {
  }

  lemma MonthNameIsLower(m: int)
    requires 1 <= m <= 12
    ensures Lower(MonthName(m)) == MonthName(m)
  {
    if m == 1 {
      LowerOfLower("january");
    } else if m == 2 {
      LowerOfLower("february");
    } else if m == 3 {
      LowerOfLower("march");
    } else if m == 4 {
      LowerOfLower("april");
    } else if m == 5 {
      LowerOfLower("may");
    } else if m == 6 {
      LowerOfLower("june");
    } else if m == 7 {
      LowerOfLower("july");
    } else if m == 8 {
      LowerOfLower("august");
    } else if m == 9 {
      LowerOfLower("september");
    } else if m == 10 {
      LowerOfLower("october");
    } else if m == 11 {
      LowerOfLower("november");
    } else {
      LowerOfLower("december");
    }
  }

  lemma MonthFromName(m: int)
    requires 1 <= m <= 12
    ensures MonthFrom(MonthName(m), 0) == Some(m)
  {
    if m <= 3 { MonthFromName1(m); }
    else if m <= 6 { MonthFromName4(m); }
    else if m <= 9 { MonthFromName7(m); }
    else { MonthFromName10(m); }
  }

  lemma MonthFromName1(m: int)
    requires 1 <= m <= 3
    ensures MonthFrom(MonthName(m), 0) == Some(m)
  {
    if m == 1 {
      MonthFromJanuary();
    } else if m == 2 {
      MonthFromFebruary();
    } else {
      MonthFromMarch();
    }
  }

  lemma MonthFromName4(m: int)
    requires 4 <= m <= 6
    ensures MonthFrom(MonthName(m), 0) == Some(m)
  {
    if m == 4 {
      MonthFromApril();
    } else if m == 5 {
      MonthFromMay();
    } else {
      MonthFromJune();
    }
  }

  lemma MonthFromName7(m: int)
    requires 7 <= m <= 9
    ensures MonthFrom(MonthName(m), 0) == Some(m)
  {
    if m == 7 {
      MonthFromJuly();
    } else if m == 8 {
      MonthFromAugust();
    } else {
      MonthFromSeptember();
    }
  }

  lemma MonthFromName10(m: int)
    requires 10 <= m <= 12
    ensures MonthFrom(MonthName(m), 0) == Some(m)
  {
    if m == 10 {
      MonthFromOctober();
    } else if m == 11 {
      MonthFromNovember();
    } else {
      MonthFromDecember();
    }
  }

  lemma MonthFromJanuary() ensures MonthFrom("january", 0) == Some(1) {}
  lemma MonthFromFebruary() ensures MonthFrom("february", 0) == Some(2) {}
  lemma MonthFromMarch() ensures MonthFrom("march", 0) == Some(3) {}
  lemma MonthFromApril() ensures MonthFrom("april", 0) == Some(4) {}
  lemma MonthFromMay() ensures MonthFrom("may", 0) == Some(5) {}
  lemma MonthFromJune() ensures MonthFrom("june", 0) == Some(6) {}
  lemma MonthFromJuly() ensures MonthFrom("july", 0) == Some(7) {}
  lemma MonthFromAugust() ensures MonthFrom("august", 0) == Some(8) {}
  lemma MonthFromSeptember() ensures MonthFrom("september", 0) == Some(9) {}
  lemma MonthFromOctober() ensures MonthFrom("october", 0) == Some(10) {}
  lemma MonthFromNovember() ensures MonthFrom("november", 0) == Some(11) {}
  lemma MonthFromDecember() ensures MonthFrom("december", 0) == Some(12) {}

  /** Every month name is recognised as its own month. */
  lemma MonthNumberOfName(m: int)
    requires 1 <= m <= 12
    ensures MonthNumber(MonthName(m)) == Some(m)
  {
    MonthNameIsLower(m);
    MonthFromName(m);
  }

  /** How `date.strftime("%B-%Y")` would write a first-of-month date (lower-case). */
  function MonthYearText(d: Date): string
    requires ValidDate(d)
  {
    MonthName(d.month) + "-" + Digits(d.year, 4)
  }

  /** How `date.strftime("%B-%d-%Y")` would write a date (lower-case). */
  function MonthDayYearText(d: Date): string
    requires ValidDate(d)
  {
    MonthName(d.month) + "-" + Digits(d.day, 2) + "-" + Digits(d.year, 4)
  }

  lemma NoDashInDigits(n: nat, width: nat)
    ensures '-' !in Digits(n, width)
  {
  }

  lemma NoDashInMonthName(m: int)
    requires 1 <= m <= 12
    ensures '-' !in MonthName(m)
  {
  }

  lemma YearTokenOfDigits(y: int)
    requires 0 <= y <= 9999
    ensures YearToken(Digits(y, 4)) == Some(y)
  {
    DigitsValue(y, 4);
  }

  lemma DayTokenOfDigits(day: int)
    requires 1 <= day <= 31
    ensures DayToken(Digits(day, 2)) == Some(day)
  {
    var b := Digits(day, 2);
    DigitsValue(day, 2);
    assert IsAsciiDigit(b[0]);
  }

  /** `"%B-%Y"` reads back the first of any month it wrote. */
  lemma MonthYearRoundTrip(d: Date)
    requires ValidDate(d) && d.day == 1
    ensures Parse(MonthYear, MonthYearText(d)) == Some(d)
  {
    var a, b := MonthName(d.month), Digits(d.year, 4);
    NoDashInMonthName(d.month);
    NoDashInDigits(d.year, 4);
    assert Join([a, b], '-') == MonthYearText(d);
    SplitJoin([a, b], '-');
    MonthNumberOfName(d.month);
    YearTokenOfDigits(d.year);
  }

  lemma SplitThree(a: string, b: string, c: string)
    requires '-' !in a && '-' !in b && '-' !in c
    ensures Split(a + "-" + b + "-" + c, '-') == [a, b, c]
  {
    assert Join([a, b, c], '-') == a + "-" + b + "-" + c by {
      assert [a, b, c][1..] == [b, c];
      assert Join([b, c], '-') == b + "-" + c;
    }
    SplitJoin([a, b, c], '-');
  }

  lemma ParseMonthDayYearTokens(s: string, d: Date)
    requires ValidDate(d)
    requires var parts := Split(s, '-');
      && |parts| == 3
      && MonthNumber(parts[0]) == Some(d.month)
      && DayToken(parts[1]) == Some(d.day)
      && YearToken(parts[2]) == Some(d.year)
    ensures Parse(MonthDayYear, s) == Some(d)
  {
  }

  /** `"%B-%d-%Y"` reads back any date it wrote. */
  lemma MonthDayYearRoundTrip(d: Date)
    requires ValidDate(d)
    ensures Parse(MonthDayYear, MonthDayYearText(d)) == Some(d)
  {
    var a, b, c := MonthName(d.month), Digits(d.day, 2), Digits(d.year, 4);
    NoDashInMonthName(d.month);
    NoDashInDigits(d.day, 2);
    NoDashInDigits(d.year, 4);
    SplitThree(a, b, c);
    MonthNumberOfName(d.month);
    DayTokenOfDigits(d.day);
    YearTokenOfDigits(d.year);
    ParseMonthDayYearTokens(MonthDayYearText(d), d);
  }

  /** Trying `"%B-%Y"` first and `"%B-%d-%Y"` second finds every date either format
      writes, each as itself. */
  lemma FirstParseFindsBoth(d: Date)
    requires ValidDate(d)
    ensures d.day == 1 ==> FirstParse(DateFormats, MonthYearText(d)) == Some(d)
    ensures FirstParse(DateFormats, MonthDayYearText(d)) == Some(d)
  {
    if d.day == 1 {
      MonthYearRoundTrip(d);
    }
    MonthDayYearRoundTrip(d);
    FormatsExclusive(MonthDayYearText(d));
  }

  // ---------------------------------------------------------------------------
  // The release slugs the site uses

  /** `august-12-2014` is 12 August 2014. */
  lemma SlugMonthDayYear()
    ensures FirstParse(DateFormats, "august-12-2014") == Some(Date(2014, 8, 12))
  {
    SlugText();
    FirstParseFindsBoth(Date(2014, 8, 12));
  }

  lemma SlugText()
    ensures MonthDayYearText(Date(2014, 8, 12)) == "august-12-2014"
  {
    Digits12();
    Digits2014();
  }

  lemma Digits12()
    ensures Digits(12, 2) == "12"
  {
  }

  lemma Digits2014()
    ensures Digits(2014, 4) == "2014"
  {
    assert Digits(20, 2) == "20";
  }

  lemma NotMonth() ensures MonthNumber("not") == None {
    assert Lower("not") == "not";
    assert MonthFrom("not", 0) == None;
  }
  lemma NotSplit() ensures Split("not-a-date", '-') == ["not", "a", "date"] {
    SplitThree("not", "a", "date");
    assert "not-a-date" == "not" + "-" + "a" + "-" + "date";
  }
  /** `not-a-date` is no date: neither format matches, and that is not an error. */
  lemma SlugNotADate()
    ensures FirstParse(DateFormats, "not-a-date") == None
  {
    NotSplit();
    NotMonth();
    assert Parse(MonthYear, "not-a-date") == None;
    assert Parse(MonthDayYear, "not-a-date") == None;
  }
  lemma AugustMonth() ensures MonthNumber("August") == Some(8) {
    assert Lower("August") == MonthName(8);
    MonthFromName(8);
  }
  lemma AugustSplit() ensures Split("August-2014", '-') == ["August", "2014"] {
    assert Join(["August", "2014"], '-') == "August-2014";
    SplitJoin(["August", "2014"], '-');
  }
  lemma Year2014() ensures YearToken("2014") == Some(2014) {
    assert AllDigits("2014");
    assert "2014"[..3] == "201" && "201"[..2] == "20" && "20"[..1] == "2" && "2"[..0] == "";
    assert DecimalValue("2014") == 2014;
  }
  /** `August-2014` is the first of August 2014: `%B` ignores case. */
  lemma SlugMonthYear()
    ensures FirstParse(DateFormats, "August-2014") == Some(Date(2014, 8, 1))
  {
    AugustSplit();
    AugustMonth();
    Year2014();
    assert Parse(MonthYear, "August-2014") == Some(Date(2014, 8, 1));
  }
}
