/**
 * `parse_date`: reads a date written `<day> <full English month name> <year>`
 * (the `strptime` format `"%d %B %Y"`) and renders it three ways: the word
 * form (`"%d %B %Y"`), the numeric form `DD/MM/YYYY` (`"%d/%m/%Y"`) and the
 * file-name form `YYYYMMDD` (`"%Y%m%d"`). A string that does not parse, or that
 * names a day the month does not have, raises `ValueError`.
 */
module DateNormalizer {
  import opened Wrappers
  import opened Text

  /** A day of the proleptic Gregorian calendar, as `datetime` holds it. */
  datatype Date = Date(day: nat, month: nat, year: nat)

  /** The three renderings `parse_date` returns. */
  datatype NormalizedDate = NormalizedDate(monthInWord: string, monthInNum: string, filenameDate: string)

  function MonthName(m: nat): (name: string)
    requires 1 <= m <= 12
    ensures IsWord(name)
  {
    match m
    case 1 => "January"
    case 2 => "February"
    case 3 => "March"
    case 4 => "April"
    case 5 => "May"
    case 6 => "June"
    case 7 => "July"
    case 8 => "August"
    case 9 => "September"
    case 10 => "October"
    case 11 => "November"
    case _ => "December"
  }

  /** Length, first and third letter of an upper-cased month name, mapped
      back to the month: the three together tell the twelve names apart. */
  function MonthOfKey(len: nat, first: char, third: char): nat {
    if len == 7 && first == 'J' then 1
    else if len == 8 && first == 'F' then 2
    else if len == 5 && first == 'M' then 3
    else if len == 5 then 4
    else if len == 3 then 5
    else if len == 4 && third == 'N' then 6
    else if len == 4 then 7
    else if len == 6 then 8
    else if len == 9 then 9
    else if len == 7 then 10
    else if first == 'N' then 11
    else 12
  }

  lemma MonthKeyOfName(m: nat)
    requires 1 <= m <= 12
    ensures |Upper(MonthName(m))| >= 3
    ensures MonthOfKey(|Upper(MonthName(m))|, Upper(MonthName(m))[0], Upper(MonthName(m))[2]) == m
  {
    var a := MonthName(m);
    assert |a| >= 3;
    assert Upper(a)[0] == UpperChar(a[0]) && Upper(a)[2] == UpperChar(a[2]);
  }

  /** Full month names differ even with letter case ignored. */
  lemma MonthNamesDistinct(i: nat, j: nat)
    requires 1 <= i <= 12 && 1 <= j <= 12
    requires Upper(MonthName(i)) == Upper(MonthName(j))
    ensures i == j
  {
    MonthKeyOfName(i);
    MonthKeyOfName(j);
  }

  /** The first month from `k` on whose upper-cased name is `u`. */
  function MonthFrom(u: string, k: nat): (m: Option<nat>)
    requires 1 <= k <= 13
    ensures m.Some? ==> k <= m.value <= 12 && u == Upper(MonthName(m.value))
    ensures m.None? ==> forall j :: k <= j <= 12 ==> u != Upper(MonthName(j))
    decreases 13 - k
  {
    if k == 13 then None
    else if u == Upper(MonthName(k)) then Some(k)
    else MonthFrom(u, k + 1)
  }

  /** `%B` as `strptime` matches it, letter case ignored: the month whose
      full name `token` is. */
  function MonthNumber(token: string): (m: Option<nat>)
    ensures m.Some? ==> 1 <= m.value <= 12 && Upper(token) == Upper(MonthName(m.value))
    ensures m.None? ==> forall j :: 1 <= j <= 12 ==> Upper(token) != Upper(MonthName(j))
  {
    MonthFrom(Upper(token), 1)
  }

  lemma MonthNumberOfName(m: nat)
    requires 1 <= m <= 12
    ensures MonthNumber(MonthName(m)) == Some(m)
  {
    var r := MonthNumber(MonthName(m));
    assert r.Some?;
    MonthNamesDistinct(r.value, m);
  }

  predicate IsLeapYear(y: nat) {
    y % 4 == 0 && (y % 100 != 0 || y % 400 == 0)
  }

  function DaysInMonth(m: nat, y: nat): (n: nat)
    requires 1 <= m <= 12
    ensures 28 <= n <= 31
  {
    if m == 2 then (if IsLeapYear(y) then 29 else 28)
    else if m == 4 || m == 6 || m == 9 || m == 11 then 30
    else 31
  }

  /** What `datetime` accepts: years 1 to 9999, and a day the month has. */
  predicate ValidDate(d: Date) {
    1 <= d.year <= 9999 && 1 <= d.month <= 12 && 1 <= d.day <= DaysInMonth(d.month, d.year)
  }

  // ---------------------------------------------------------------------
  // Fixed-width decimal fields

  function Digit(n: nat): (c: char)
    requires n < 10
    ensures IsDigit(c) && DigitValue(c) == n
  {
    ('0' as int + n) as char
  }

  predicate AllDigits(s: string) {
    forall k :: 0 <= k < |s| ==> IsDigit(s[k])
  }

  /** `%d` / `%m` output: two digits, zero-padded. */
  function Pad2(n: nat): (s: string)
    requires n < 100
    ensures |s| == 2 && AllDigits(s)
  {
    [Digit(n / 10), Digit(n % 10)]
  }

  /** `%Y` output: four digits, zero-padded. */
  function Pad4(n: nat): (s: string)
    requires n < 10000
    ensures |s| == 4 && AllDigits(s)
  {
    Pad2(n / 100) + Pad2(n % 100)
  }

  function Value2(s: string): nat
    requires |s| == 2 && AllDigits(s)
  {
    10 * DigitValue(s[0]) + DigitValue(s[1])
  }

  function Value4(s: string): nat
    requires |s| == 4 && AllDigits(s)
  {
    100 * Value2(s[..2]) + Value2(s[2..])
  }

  lemma Value2Pad2(n: nat)
    requires n < 100
    ensures Value2(Pad2(n)) == n
  {
  }

  lemma Value4Pad4(n: nat)
    requires n < 10000
    ensures Value4(Pad4(n)) == n
  {
    var s := Pad4(n);
    assert s[..2] == Pad2(n / 100) && s[2..] == Pad2(n % 100);
    Value2Pad2(n / 100);
    Value2Pad2(n % 100);
  }

  // ---------------------------------------------------------------------
  // Parsing: strptime(date_str, "%d %B %Y")

  /** The `%d` field at the start of `s`, as the value and the number of
      characters it takes. `strptime` tries `3[01]`, `[12]\d`, `0[1-9]`,
      `[1-9]` and ` [1-9]` in that order, and a whitespace character must
      follow, so two leading digits are read together and a single digit
      only when no digit follows it. */
  function DayToken(s: string): (t: Option<(nat, nat)>)
    ensures t.Some? ==> 1 <= t.value.0 <= 31 && 1 <= t.value.1 <= 2 && t.value.1 <= |s|
  {
    if |s| >= 2 && IsDigit(s[0]) && IsDigit(s[1]) then
      var v := 10 * DigitValue(s[0]) + DigitValue(s[1]);
      if 1 <= v <= 31 then Some((v, 2)) else None
    else if |s| >= 1 && '1' <= s[0] <= '9' then Some((DigitValue(s[0]), 1))
    else if |s| >= 2 && s[0] == ' ' && '1' <= s[1] <= '9' then Some((DigitValue(s[1]), 2))
    else None
  }

  /** The calendar date `strptime(s, "%d %B %Y")` reads, or `None` where it
      raises: a day field, one or more whitespace characters, a full month
      name, one or more whitespace characters, four digits and nothing after
      them, naming a day that exists. */
  function ParseCalendarDate(s: string): (d: Option<Date>)
    ensures d.Some? ==> ValidDate(d.value)
  {
    match DayToken(s)
    case None => None
    case Some((day, width)) =>
      var a := SkipSpaces(s, width);
      var t := WordLength(s[a..]);
      var b := SkipSpaces(s, a + t);
      if a == width || b == a + t then None
      else match MonthNumber(s[a..a + t])
        case None => None
        case Some(month) =>
          if |s| - b == 4 && AllDigits(s[b..]) then
            var date := Date(day, month, Value4(s[b..]));
            if ValidDate(date) then Some(date) else None
          else None
  }

  /** The three renderings of one date. */
  function Render(d: Date): (n: NormalizedDate)
    requires ValidDate(d)
  {
    NormalizedDate(
      Pad2(d.day) + " " + MonthName(d.month) + " " + Pad4(d.year),
      Pad2(d.day) + "/" + Pad2(d.month) + "/" + Pad4(d.year),
      Pad4(d.year) + Pad2(d.month) + Pad2(d.day))
  }

  /** `DD/MM/YYYY`: two digits, `/`, two digits, `/`, four digits. */
  predicate IsNumericDate(s: string) {
    && |s| == 10
    && IsDigit(s[0]) && IsDigit(s[1]) && s[2] == '/'
    && IsDigit(s[3]) && IsDigit(s[4]) && s[5] == '/'
    && IsDigit(s[6]) && IsDigit(s[7]) && IsDigit(s[8]) && IsDigit(s[9])
  }

  lemma RenderShape(d: Date)
    requires ValidDate(d)
    ensures IsNumericDate(Render(d).monthInNum)
    ensures |Render(d).filenameDate| == 8 && AllDigits(Render(d).filenameDate)
  {
    var dd, mm, yyyy := Pad2(d.day), Pad2(d.month), Pad4(d.year);
    var num := Render(d).monthInNum;
    assert num == dd + "/" + mm + "/" + yyyy;
    assert num[0] == dd[0] && num[1] == dd[1] && num[2] == '/';
    assert num[3] == mm[0] && num[4] == mm[1] && num[5] == '/';
    assert num[6..] == yyyy;
    var f := Render(d).filenameDate;
    assert f == yyyy + mm + dd;
    forall k | 0 <= k < 8 ensures IsDigit(f[k]) {
      if k < 4 { assert f[k] == yyyy[k]; }
      else if k < 6 { assert f[k] == mm[k - 4]; }
      else { assert f[k] == dd[k - 6]; }
    }
  }

  /** `parse_date`: the three renderings, or `ValueError` with the message
      `"Invalid date format: <input>"`. */
  function ParseDate(dateStr: string): (r: Result<NormalizedDate, string>)
    ensures r.Failure? <==> ParseCalendarDate(dateStr).None?
    ensures r.Failure? ==> r.error == "Invalid date format: " + dateStr
    ensures r.Success? ==> IsNumericDate(r.value.monthInNum)
    ensures r.Success? ==> |r.value.filenameDate| == 8 && AllDigits(r.value.filenameDate)
  {
    match ParseCalendarDate(dateStr)
    case Some(d) => RenderShape(d); Success(Render(d))
    case None => Failure("Invalid date format: " + dateStr)
  }

  // ---------------------------------------------------------------------
  // Reading the renderings back

  /** The date a `DD/MM/YYYY` string names. */
  function DecodeNumeric(s: string): Option<Date> {
    if IsNumericDate(s) then
      assert AllDigits(s[0..2]) && AllDigits(s[3..5]) && AllDigits(s[6..10]);
      Some(Date(Value2(s[0..2]), Value2(s[3..5]), Value4(s[6..10])))
    else None
  }

  /** The date a `YYYYMMDD` string names. */
  function DecodeCompact(s: string): Option<Date> {
    if |s| == 8 && AllDigits(s) then
      Some(Date(Value2(s[6..8]), Value2(s[4..6]), Value4(s[0..4])))
    else None
  }

  /** How `ParseCalendarDate` reads a two-digit day, a space, a word, a space
      and a four-digit year. */
  lemma ParseParts(day: nat, name: string, year: nat)
    requires 1 <= day <= 31 && IsWord(name) && year < 10000
    ensures ParseCalendarDate(Pad2(day) + " " + name + " " + Pad4(year)) ==
      match MonthNumber(name)
      case None => None
      case Some(m) => if ValidDate(Date(day, m, year)) then Some(Date(day, m, year)) else None
  {
    var dd, yyyy := Pad2(day), Pad4(year);
    var w := dd + " " + name + " " + yyyy;
    var t := |name|;
    LayoutSlices(dd, name, yyyy);
    PadDayToken(day, " " + name + " " + yyyy);
    assert w == dd + (" " + name + " " + yyyy);
    SkipOneSpace(w, 2);
    SkipOneSpace(w, 3 + t);
    WordLengthOfWord(name, " " + yyyy);
    Value4Pad4(year);
    ParseLayout(w, day, t);
  }

  /** The pieces of `dd + " " + name + " " + yyyy`, by position. */
  lemma LayoutSlices(dd: string, name: string, yyyy: string)
    requires |dd| == 2 && |yyyy| == 4 && name != []
    ensures var w := dd + " " + name + " " + yyyy;
      && |w| == |name| + 8
      && w[2] == ' ' && w[3] == name[0]
      && w[3..] == name + (" " + yyyy)
      && w[3..3 + |name|] == name
      && w[3 + |name|] == ' ' && w[4 + |name|] == yyyy[0]
      && w[4 + |name|..] == yyyy
  {
  }

  lemma PadDayToken(day: nat, rest: string)
    requires 1 <= day <= 31
    ensures DayToken(Pad2(day) + rest) == Some((day, 2))
  {
    var w := Pad2(day) + rest;
    assert w[0] == Pad2(day)[0] && w[1] == Pad2(day)[1];
    Value2Pad2(day);
  }

  lemma SkipOneSpace(w: string, i: nat)
    requires i + 1 < |w| && w[i] == ' ' && !IsSpace(w[i + 1])
    ensures SkipSpaces(w, i) == i + 1
  {
    assert SkipSpaces(w, i + 1) == i + 1;
  }

  /** `ParseCalendarDate` on text laid out as a two-character day, one space,
      a word of `t` characters, one space and four digits. */
  lemma ParseLayout(w: string, day: nat, t: nat)
    requires |w| == t + 8 && DayToken(w) == Some((day, 2))
    requires SkipSpaces(w, 2) == 3 && t > 0 && WordLength(w[3..]) == t && SkipSpaces(w, 3 + t) == 4 + t
    requires AllDigits(w[4 + t..])
    ensures ParseCalendarDate(w) ==
      match MonthNumber(w[3..3 + t])
      case None => None
      case Some(m) =>
        var date := Date(day, m, Value4(w[4 + t..]));
        if ValidDate(date) then Some(date) else None
  {
  }

  /** The word form of a valid date is read back as that date. */
  lemma ParseWordForm(d: Date)
    requires ValidDate(d)
    ensures ParseCalendarDate(Render(d).monthInWord) == Some(d)
  {
    ParseParts(d.day, MonthName(d.month), d.year);
    MonthNumberOfName(d.month);
  }

  /** `parse_date` succeeds on the word form it produces, and gives the same
      three renderings again. */
  lemma ParseDateOfWordForm(d: Date)
    requires ValidDate(d)
    ensures ParseDate(Render(d).monthInWord) == Success(Render(d))
  {
    ParseWordForm(d);
  }

  lemma DecodeNumericParts(day: nat, month: nat, year: nat)
    requires day < 100 && month < 100 && year < 10000
    ensures DecodeNumeric(Pad2(day) + "/" + Pad2(month) + "/" + Pad4(year)) == Some(Date(day, month, year))
  {
    var dd, mm, yyyy := Pad2(day), Pad2(month), Pad4(year);
    var n := dd + "/" + mm + "/" + yyyy;
    assert n[0..2] == dd && n[3..5] == mm && n[6..10] == yyyy;
    assert IsNumericDate(n) by {
      assert n[0] == dd[0] && n[1] == dd[1] && n[2] == '/';
      assert n[3] == mm[0] && n[4] == mm[1] && n[5] == '/';
      assert n[6] == yyyy[0] && n[7] == yyyy[1] && n[8] == yyyy[2] && n[9] == yyyy[3];
    }
    Value2Pad2(day);
    Value2Pad2(month);
    Value4Pad4(year);
  }

  lemma DecodeCompactParts(day: nat, month: nat, year: nat)
    requires day < 100 && month < 100 && year < 10000
    ensures DecodeCompact(Pad4(year) + Pad2(month) + Pad2(day)) == Some(Date(day, month, year))
  {
    var dd, mm, yyyy := Pad2(day), Pad2(month), Pad4(year);
    var f := yyyy + mm + dd;
    assert f[0..4] == yyyy && f[4..6] == mm && f[6..8] == dd;
    assert AllDigits(f) by {
      forall k | 0 <= k < 8 ensures IsDigit(f[k]) {
        if k < 4 { assert f[k] == yyyy[k]; }
        else if k < 6 { assert f[k] == mm[k - 4]; }
        else { assert f[k] == dd[k - 6]; }
      }
    }
    Value2Pad2(day);
    Value2Pad2(month);
    Value4Pad4(year);
  }

  /** All three renderings `parse_date` returns name the date it read. */
  lemma ParseDateRenderingsAgree(dateStr: string)
    ensures ParseDate(dateStr).Success? ==>
      var n := ParseDate(dateStr).value;
      var d := ParseCalendarDate(dateStr).value;
      && DecodeNumeric(n.monthInNum) == Some(d)
      && DecodeCompact(n.filenameDate) == Some(d)
      && ParseCalendarDate(n.monthInWord) == Some(d)
  {
    if ParseDate(dateStr).Success? {
      var d := ParseCalendarDate(dateStr).value;
      ParseWordForm(d);
      DecodeNumericParts(d.day, d.month, d.year);
      DecodeCompactParts(d.day, d.month, d.year);
    }
  }

  /** Example: the date `"05 January 2024"`. */
  lemma ParseDateExample()
    ensures ParseDate("05 January 2024") ==
      Success(NormalizedDate("05 January 2024", "05/01/2024", "20240105"))
  {
    var d := Date(5, 1, 2024);
    RenderExample();
    ParseWordForm(d);
    assert ParseCalendarDate(Render(d).monthInWord) == Some(d);
  }

  lemma RenderExample()
    ensures ValidDate(Date(5, 1, 2024))
    ensures Render(Date(5, 1, 2024)) == NormalizedDate("05 January 2024", "05/01/2024", "20240105")
  {
    PadExample();
    assert MonthName(1) == "January";
  }

  lemma PadExample()
    ensures Pad2(5) == "05" && Pad2(1) == "01" && Pad4(2024) == "2024"
  {
    assert Pad2(20) == "20" && Pad2(24) == "24";
  }

  /** Example: an ISO-style date is rejected. */
  lemma ParseDateRejectsIso()
    ensures ParseDate("2024-01-05").Failure?
  {
    var s := "2024-01-05";
    assert DayToken(s) == Some((20, 2));
    assert !IsSpace(s[2]);
    assert SkipSpaces(s, 2) == 2;
    assert ParseCalendarDate(s) == None;
  }
}
