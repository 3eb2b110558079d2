/** Dates as the scripts see them: the `"%B %d, %Y"` display form both scripts
    print, the time-zone pre-strip of `update_blog.py`, and its chain of
    `strptime` formats tried in order. The parsers themselves (`strptime`,
    `dateutil`, `feedparser`) are parameters. */
module Dates {
  import opened Wrappers
  import opened Text

  /** `%Y` prints four digits for the years this model covers. */
  type Year = y: int | 1000 <= y <= 9999 witness 1000
  type Month = m: int | 1 <= m <= 12 witness 1
  type Day = d: int | 1 <= d <= 31 witness 1

  /** The calendar part of a parsed `datetime`; the display form ignores the
      time of day. */
  datatype Date = Date(year: Year, month: Month, day: Day)

  /** The text both scripts show when no date is known. */
  const UnknownDate: string := "Unknown date"

  const MonthNames: seq<string> := [
    "January", "February", "March", "April", "May", "June",
    "July", "August", "September", "October", "November", "December"
  ]

  /** `%B`: the full English month name. */
  function MonthName(m: Month): string {
    MonthNames[m - 1]
  }

  /** The month whose full name is `name`, if any. */
  function MonthOf(name: string): (r: Option<Month>)
    ensures r.Some? ==> MonthName(r.value) == name
  {
    if name == "January" then Some(1)
    else if name == "February" then Some(2)
    else if name == "March" then Some(3)
    else if name == "April" then Some(4)
    else if name == "May" then Some(5)
    else if name == "June" then Some(6)
    else if name == "July" then Some(7)
    else if name == "August" then Some(8)
    else if name == "September" then Some(9)
    else if name == "October" then Some(10)
    else if name == "November" then Some(11)
    else if name == "December" then Some(12)
    else None
  }

  /** Every month name is recognised as its own month, and none holds a space. */
  lemma MonthNameRoundTrip(m: Month)
    ensures MonthOf(MonthName(m)) == Some(m)
    ensures ' ' !in MonthName(m)
    ensures 3 <= |MonthName(m)| <= 9
  {
  }

  function Digit(n: nat): (c: char)
    requires n < 10
    ensures '0' <= c <= '9' && c as int - '0' as int == n
  {
    ('0' as int + n) as char
  }

  predicate IsDigit(c: char) {
    '0' <= c <= '9'
  }

  function DigitValue(c: char): nat
    requires IsDigit(c)
  {
    c as int - '0' as int
  }

  /** `%d`: the day of the month as two digits. */
  function TwoDigits(n: nat): (r: string)
    requires n < 100
    ensures |r| == 2 && IsDigit(r[0]) && IsDigit(r[1])
    ensures 10 * DigitValue(r[0]) + DigitValue(r[1]) == n
  {
    [Digit(n / 10), Digit(n % 10)]
  }

  /** `%Y`: a year as four digits. */
  function FourDigits(n: Year): (r: string)
    ensures |r| == 4 && forall i :: 0 <= i < 4 ==> IsDigit(r[i])
    ensures r[0] != '0'
    ensures 1000 * DigitValue(r[0]) + 100 * DigitValue(r[1]) + 10 * DigitValue(r[2]) + DigitValue(r[3]) == n
  {
    var hi, lo := n / 100, n % 100;
    assert 100 * hi + lo == n && 10 <= hi < 100 && lo < 100;
    TwoDigits(hi) + TwoDigits(lo)
  }

  /** `strftime("%B %d, %Y")`, for instance `"March 05, 2024"`. */
  function FormatDate(d: Date): (r: string)
    ensures |MonthName(d.month)| + 9 == |r|
    ensures r != UnknownDate
  {
    var r := MonthName(d.month) + " " + TwoDigits(d.day) + ", " + FourDigits(d.year);
    assert r[|r| - 1] != 'e' by {
      assert r[|r| - 1] == FourDigits(d.year)[3];
    }
    r
  }

  /** Reads `"dd, yyyy"` back into a day and a year. */
  function ParseDayYear(rest: string): Option<(Day, Year)> {
    if |rest| != 8 then None
    else if !(IsDigit(rest[0]) && IsDigit(rest[1]) && rest[2] == ',' && rest[3] == ' '
              && IsDigit(rest[4]) && IsDigit(rest[5]) && IsDigit(rest[6]) && IsDigit(rest[7]))
    then None
    else
      var day := 10 * DigitValue(rest[0]) + DigitValue(rest[1]);
      var year := 1000 * DigitValue(rest[4]) + 100 * DigitValue(rest[5])
        + 10 * DigitValue(rest[6]) + DigitValue(rest[7]);
      if 1 <= day <= 31 && 1000 <= year then Some((day, year)) else None
  }

  lemma DayYearRoundTrip(day: Day, year: Year)
    ensures ParseDayYear(TwoDigits(day) + (", " + FourDigits(year))) == Some((day, year))
  {
  }

  lemma DayYearFormats(rest: string, day: Day, year: Year)
    requires ParseDayYear(rest) == Some((day, year))
    ensures TwoDigits(day) + (", " + FourDigits(year)) == rest
  {
    assert |rest| == 8 && rest[2] == ',' && rest[3] == ' ';
    assert IsDigit(rest[0]) && IsDigit(rest[1]);
    assert IsDigit(rest[4]) && IsDigit(rest[5]) && IsDigit(rest[6]) && IsDigit(rest[7]);
    assert day == 10 * DigitValue(rest[0]) + DigitValue(rest[1]);
    assert year == 1000 * DigitValue(rest[4]) + 100 * DigitValue(rest[5])
      + 10 * DigitValue(rest[6]) + DigitValue(rest[7]);
    var dd := TwoDigits(day);
    var yy := FourDigits(year);
    SameDigits(dd[0], dd[1], rest[0], rest[1]);
    SameFourDigits(yy, rest[4..]);
    var t := dd + (", " + yy);
    assert forall i :: 0 <= i < 8 ==> t[i] == rest[i];
  }

  /** Two digit pairs with the same value are the same pair. */
  lemma SameDigits(a0: char, a1: char, b0: char, b1: char)
    requires IsDigit(a0) && IsDigit(a1) && IsDigit(b0) && IsDigit(b1)
    requires 10 * DigitValue(a0) + DigitValue(a1) == 10 * DigitValue(b0) + DigitValue(b1)
    ensures a0 == b0 && a1 == b1
  {
  }

  /** Two four-digit texts with the same value are the same text. */
  lemma SameFourDigits(a: string, b: string)
    requires |a| == 4 && |b| == 4
    requires forall i :: 0 <= i < 4 ==> IsDigit(a[i]) && IsDigit(b[i])
    requires 1000 * DigitValue(a[0]) + 100 * DigitValue(a[1]) + 10 * DigitValue(a[2]) + DigitValue(a[3])
      == 1000 * DigitValue(b[0]) + 100 * DigitValue(b[1]) + 10 * DigitValue(b[2]) + DigitValue(b[3])
    ensures a == b
  {
    var x0, x1, x2, x3 := DigitValue(a[0]), DigitValue(a[1]), DigitValue(a[2]), DigitValue(a[3]);
    var y0, y1, y2, y3 := DigitValue(b[0]), DigitValue(b[1]), DigitValue(b[2]), DigitValue(b[3]);
    assert x0 == y0;
    assert x1 == y1;
    assert x2 == y2;
    assert forall i :: 0 <= i < 4 ==> a[i] == b[i];
  }

  /** Reads the display form back: a month name, a space, then `"dd, yyyy"`. */
  function ParseDisplayed(s: string): Option<Date> {
    var k := IndexOf(s, ' ', 0);
    if k == |s| then None
    else
      match MonthOf(s[..k])
      case None => None
      case Some(m) =>
        match ParseDayYear(s[k + 1..])
        case None => None
        case Some((day, year)) => Some(Date(year, m, day))
  }

  /** The display form as a month name, a space and the `"dd, yyyy"` tail. */
  lemma FormatDateParts(d: Date)
    ensures FormatDate(d) == MonthName(d.month) + ([' '] + (TwoDigits(d.day) + (", " + FourDigits(d.year))))
  {
    var name, dd, yy := MonthName(d.month), TwoDigits(d.day), FourDigits(d.year);
    AppendAssoc(name, " ", dd);
    AppendAssoc(name + " " + dd, ", ", yy);
    AppendAssoc(name, " " + dd, ", " + yy);
    AppendAssoc(" ", dd, ", " + yy);
  }

  /** The display form loses nothing: reading it back gives the same date. */
  lemma FormatDateRoundTrip(d: Date)
    ensures ParseDisplayed(FormatDate(d)) == Some(d)
  {
    var name := MonthName(d.month);
    var tail := TwoDigits(d.day) + (", " + FourDigits(d.year));
    var s := FormatDate(d);
    FormatDateParts(d);
    MonthNameRoundTrip(d.month);
    assert s[..|name|] == name;
    forall i | 0 <= i < |name| ensures s[i] != ' ' {
      assert s[i] == name[i];
    }
    assert s[|name|] == ' ';
    assert IndexOf(s, ' ', 0) == |name|;
    assert s[|name| + 1..] == tail;
    DayYearRoundTrip(d.day, d.year);
  }

  /** And every text that reads as a date is exactly that date's display form. */
  lemma ParseDisplayedFormats(s: string, d: Date)
    requires ParseDisplayed(s) == Some(d)
    ensures FormatDate(d) == s
  {
    var k := IndexOf(s, ' ', 0);
    assert MonthName(d.month) == s[..k];
    DayYearFormats(s[k + 1..], d.day, d.year);
    FormatDateParts(d);
    assert s == s[..k] + ([s[k]] + s[k + 1..]);
  }

  /** The time-zone pre-strip of `update_blog.py`, on the already stripped
      `pubDate` text. At most one rule applies, in this order: cut at the first
      `+`; else remove every `" GMT"`; else remove every `" UTC"`; each rule
      then strips white space. */
  function StripTimezone(s: string): (r: string)
    ensures '+' !in r
    ensures |r| <= |s|
    ensures Trimmed(s) ==> Trimmed(r)
    ensures ('+' in s || Contains(s, " GMT") || Contains(s, " UTC")) <==> |r| < |s|
    ensures ('+' !in s && !Contains(s, " GMT") && !Contains(s, " UTC")) ==> r == s
    ensures '+' in s ==> r == Trim(s[..IndexOf(s, '+', 0)])
    ensures '+' !in s && Contains(s, " GMT") ==> r == Trim(RemoveAll(s, " GMT"))
    ensures '+' !in s && !Contains(s, " GMT") && Contains(s, " UTC") ==> r == Trim(RemoveAll(s, " UTC"))
  {
    if '+' in s then
      var k := IndexOf(s, '+', 0);
      var r := Trim(s[..k]);
      assert '+' !in r by {
        forall c | c in r ensures c != '+' {
          var i :| 0 <= i < k && s[..k][i] == c;
        }
      }
      r
    else if Contains(s, " GMT") then
      Trim(RemoveAll(s, " GMT"))
    else if Contains(s, " UTC") then
      Trim(RemoveAll(s, " UTC"))
    else s
  }

  /** The `+` rule comes first: a stripped date followed by `" +"` and an
      offset comes back as it was, whatever `" GMT"` or `" UTC"` it holds. */
  lemma StripTimezoneOffsetFirst(d: string, z: string)
    requires '+' !in d && Trimmed(d)
    ensures StripTimezone(d + " +" + z) == d
  {
    var s := d + " +" + z;
    var n := |d| + 1;
    assert s[n] == '+';
    forall j | 0 <= j < n ensures s[j] != '+' {
      if j < |d| {
        assert s[j] == d[j];
      }
    }
    assert IndexOf(s, '+', 0) == n;
    var head := s[..n];
    assert head == d + " ";
    assert head[0..|d|] == d;
    TrimUnique(head, 0, |d|);
  }

  /** A date that ends in `" GMT"` loses that suffix and is stripped, when
      no earlier `" GMT"` and no `+` come before it. */
  lemma StripTimezoneTrailingGmt(d: string)
    requires '+' !in d
    requires forall p :: 0 <= p < |d| ==> !OccursAt(d + " GMT", p, " GMT")
    ensures StripTimezone(d + " GMT") == Trim(d)
  {
    var e: string := [];
    var s := d + " GMT";
    assert s + e == s;
    assert '+' !in s by {
      assert forall k :: 0 <= k < |s| ==> s[k] in d || s[k] in " GMT";
    }
    assert s[|d|..|d| + 4] == " GMT";
    assert OccursAt(s, |d|, " GMT");
    assert Contains(s, " GMT");
    RemoveAllFirst(d, e, " GMT");
    assert d + e == d;
  }

  /** The formats `update_blog.py` hands to `strptime`, in the order tried. */
  datatype DateFormat =
    | WeekdayDayMonthYearTime  // '%a, %d %b %Y %H:%M:%S'
    | DayMonthYearTime         // '%d %b %Y %H:%M:%S'
    | WeekdayDayMonthYear      // '%a, %d %b %Y'

  const Formats: seq<DateFormat> := [WeekdayDayMonthYearTime, DayMonthYearTime, WeekdayDayMonthYear]

  /** `fmts[k]` is the first format in `fmts` that `strptime` accepts for `s`. */
  predicate ParsesFirstAt(s: string, fmts: seq<DateFormat>, strptime: (string, DateFormat) -> Option<Date>, k: int) {
    && 0 <= k < |fmts|
    && strptime(s, fmts[k]).Some?
    && forall j :: 0 <= j < k ==> strptime(s, fmts[j]).None?
  }

  /** The date from the first format in `fmts` that `strptime` accepts. */
  function FirstParse(s: string, fmts: seq<DateFormat>, strptime: (string, DateFormat) -> Option<Date>): (r: Option<Date>)
    decreases |fmts|
    ensures r.Some? <==> exists k :: 0 <= k < |fmts| && strptime(s, fmts[k]).Some?
    ensures r.Some? ==> exists k :: ParsesFirstAt(s, fmts, strptime, k) && strptime(s, fmts[k]) == r
  {
    if fmts == [] then None
    else
      match strptime(s, fmts[0])
      case Some(d) => Some(d)
      case None =>
        var r := FirstParse(s, fmts[1..], strptime);
        assert forall k :: 1 <= k < |fmts| ==> fmts[1..][k - 1] == fmts[k];
        assert r.Some? ==> exists k :: ParsesFirstAt(s, fmts, strptime, k) && strptime(s, fmts[k]) == r by {
          if r.Some? {
            var k :| ParsesFirstAt(s, fmts[1..], strptime, k) && strptime(s, fmts[1..][k]) == r;
            assert strptime(s, fmts[k + 1]) == r;
            forall j | 0 <= j < k + 1 ensures strptime(s, fmts[j]).None? {
              if j > 0 {
                assert fmts[j] == fmts[1..][j - 1];
              }
            }
          }
        }
        r
  }

  /** What `update_blog.py` shows for a `pubDate` element whose text is
      `text`: `"Unknown date"` without text; otherwise the first format that
      parses the time-zone-stripped text, displayed; failing all formats, the
      stripped original text. */
  function PublishedFromPubDate(text: Option<string>, strptime: (string, DateFormat) -> Option<Date>): (r: string)
    ensures text.None? || text == Some("") ==> r == UnknownDate
    ensures text.Some? && text.value != "" ==>
      match FirstParse(StripTimezone(Trim(text.value)), Formats, strptime)
      case Some(d) => r == FormatDate(d) && ParseDisplayed(r) == Some(d)
      case None => r == Trim(text.value)
  {
    if text.None? || text.value == "" then UnknownDate
    else
      match FirstParse(StripTimezone(Trim(text.value)), Formats, strptime)
      case Some(d) =>
        FormatDateRoundTrip(d);
        FormatDate(d)
      case None => Trim(text.value)
  }

  /** The date loop of `update_blog.py`: start from the `"Unknown date"`
      sentinel, try each format in turn until one parses, and fall back to the
      stripped original text when the sentinel survives. */
  method PublishedDate(text: Option<string>, strptime: (string, DateFormat) -> Option<Date>) returns (published: string)
    ensures published == PublishedFromPubDate(text, strptime)
  {
    published := UnknownDate;
    if text.Some? && text.value != "" {
      var dateStr := StripTimezone(Trim(text.value));
      var i := 0;
      while i < |Formats|
        invariant 0 <= i <= |Formats|
        invariant published == UnknownDate
        invariant FirstParse(dateStr, Formats, strptime) == FirstParse(dateStr, Formats[i..], strptime)
      {
        var parsed := strptime(dateStr, Formats[i]);
        if parsed.Some? {
          assert Formats[i..][0] == Formats[i];
          published := FormatDate(parsed.value);
          break;
        }
        assert Formats[i..][1..] == Formats[i + 1..];
        i := i + 1;
      }
      if published == UnknownDate {
        published := Trim(text.value);
      }
    }
  }

  /** The date precedence of `update_blog_posts.py`: the feed's parsed date
      first; else the `published` string, parsed by `dateutil` and displayed,
      or kept verbatim when it does not parse; else `"Unknown date"`. */
  function PublishedFromEntry(publishedParsed: Option<Date>, published: Option<string>, dateutil: string -> Option<Date>): (r: string)
    ensures publishedParsed.Some? ==> ParseDisplayed(r) == publishedParsed
    ensures publishedParsed.None? && published.None? ==> r == UnknownDate
    ensures publishedParsed.None? && published.Some? ==>
      if dateutil(published.value).Some? then ParseDisplayed(r) == dateutil(published.value)
      else r == published.value
  {
    match publishedParsed
    case Some(d) =>
      FormatDateRoundTrip(d);
      FormatDate(d)
    case None =>
      match published
      case None => UnknownDate
      case Some(p) =>
        match dateutil(p)
        case Some(d) =>
          FormatDateRoundTrip(d);
          FormatDate(d)
        case None => p
  }
}
