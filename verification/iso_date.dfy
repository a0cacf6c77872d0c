/** The day-bucket key: the calendar-date part of `Date.prototype.toISOString`,
    i.e. the ISO 8601 extended calendar date `YYYY-MM-DD` (years beyond 9999
    are written with a sign and six digits, `+YYYYYY-MM-DD`). */
module IsoDate {
  import opened Calendar

  function DigitChar(n: nat): (c: char)
    requires n < 10
    ensures '0' <= c <= '9'
  {
    "0123456789"[n]
  }

  function DigitValue(c: char): nat {
    if '0' <= c <= '9' then c as int - '0' as int else 0
  }

  lemma DigitRoundTrip(n: nat)
    requires n < 10
    ensures DigitValue(DigitChar(n)) == n
  {
  }

  function Pow10(w: nat): (p: nat)
    ensures p >= 1
  {
    if w == 0 then 1 else 10 * Pow10(w - 1)
  }

  /** The decimal digits of n, left-padded with '0' to at least `width`
      characters (String(n).padStart(width, "0")). */
  function Padded(n: nat, width: nat): (s: string)
    ensures |s| >= 1 && |s| >= width
    ensures 1 <= width && n < Pow10(width) ==> |s| == width
    ensures '0' <= s[0] <= '9'
    decreases n, width, 1
  {
    PaddedLead(n, width) + [DigitChar(n % 10)]
  }

  /** All of Padded(n, width) but its last digit. */
  function PaddedLead(n: nat, width: nat): (s: string)
    ensures |s| + 1 >= width
    ensures 1 <= width && n < Pow10(width) ==> |s| + 1 == width
    ensures |s| > 0 ==> '0' <= s[0] <= '9'
    decreases n, width, 0
  {
    if n >= 10 || width > 1 then Padded(n / 10, if width > 0 then width - 1 else 0) else []
  }

  /** Reads a string of decimal digits back as a number. */
  function ParseDigits(s: string): nat {
    if s == [] then 0 else ParseDigits(s[..|s| - 1]) * 10 + DigitValue(s[|s| - 1])
  }

  lemma ParseSnoc(s: string, c: char)
    ensures ParseDigits(s + [c]) == ParseDigits(s) * 10 + DigitValue(c)
  {
    assert (s + [c])[..|s|] == s;
  }

  /** Parsing the padded digits of n gives n back, whatever the padding. */
  lemma {:induction false} ParsePadded(n: nat, width: nat)
    ensures ParseDigits(Padded(n, width)) == n
    decreases n, width
  {
    var lead := PaddedLead(n, width);
    ParseSnoc(lead, DigitChar(n % 10));
    DigitRoundTrip(n % 10);
    if n >= 10 || width > 1 {
      ParsePadded(n / 10, if width > 0 then width - 1 else 0);
    }
  }

  /** The year field of toISOString: four digits for years 0..9999,
      otherwise a '+' and (at least) six digits. */
  function YearText(y: nat): (s: string)
    ensures |s| >= 4 && s[0] != '-'
    ensures y <= 9999 <==> |s| == 4
    ensures y > 9999 ==> s[0] == '+'
  {
    assert Pow10(4) == 10000;
    if y <= 9999 then Padded(y, 4) else "+" + Padded(y, 6)
  }

  /** The `YYYY-MM-DD` text of a calendar date. */
  function FormatDate(c: Date): (s: string)
    requires ValidDate(c)
    ensures |s| >= 10 && s[|s| - 3] == '-' && s[|s| - 6] == '-'
    ensures c.year <= 9999 ==> |s| == 10
  {
    assert Pow10(2) == 100 && Pow10(4) == 10000;
    YearText(c.year) + "-" + Padded(c.month, 2) + "-" + Padded(c.day, 2)
  }

  /** Reads a `YYYY-MM-DD` or `+YYYYYY-MM-DD` key back into a date; the
      inverse of FormatDate (text too short to be a key gives year 0). */
  function ParseDate(s: string): Date {
    if |s| < 6 then Date(0, 0, 0)
    else
      var yearText := s[..|s| - 6];
      var year := if |yearText| > 0 && yearText[0] == '+' then ParseDigits(yearText[1..]) else ParseDigits(yearText);
      Date(year, ParseDigits(s[|s| - 5..|s| - 3]), ParseDigits(s[|s| - 2..]))
  }

  /** Where the three fields of a key sit, counted from its end. */
  lemma KeyFields(y: string, m: string, d: string)
    requires |m| == 2 && |d| == 2
    ensures var s := y + "-" + m + "-" + d;
            && |s| == |y| + 6
            && s[..|s| - 6] == y && s[|s| - 5..|s| - 3] == m && s[|s| - 2..] == d
  {
    var s := y + "-" + m + "-" + d;
    assert s[..|s| - 6] == y;
    assert s[|s| - 5..|s| - 3] == m;
    assert s[|s| - 2..] == d;
  }

  /** The year field reads back as the year. */
  lemma ParseYearText(y: nat)
    ensures var t := YearText(y);
            (if |t| > 0 && t[0] == '+' then ParseDigits(t[1..]) else ParseDigits(t)) == y
  {
    if y <= 9999 {
      ParsePadded(y, 4);
    } else {
      var t := YearText(y);
      assert t[1..] == Padded(y, 6);
      ParsePadded(y, 6);
    }
  }

  /** Formatting a date and parsing the text back gives the date. */
  lemma ParseFormat(c: Date)
    requires ValidDate(c)
    ensures ParseDate(FormatDate(c)) == c
  {
    assert Pow10(2) == 100;
    var y, m, d := YearText(c.year), Padded(c.month, 2), Padded(c.day, 2);
    KeyFields(y, m, d);
    ParseYearText(c.year);
    ParsePadded(c.month, 2);
    ParsePadded(c.day, 2);
  }

  /** The day-bucket key of a day: new Date().toISOString().split("T")[0],
      the date part before the 'T' of the full timestamp; `YYYY-MM-DD`,
      ten characters up to year 9999. */
  function DayKey(d: Day): (k: string)
    ensures |k| >= 10 && k[|k| - 3] == '-' && k[|k| - 6] == '-'
    ensures DateOf(d).year <= 9999 ==> |k| == 10
  {
    FormatDate(DateOf(d))
  }

  /** Reading a day key back gives the calendar date of that day. */
  lemma DayKeyDate(d: Day)
    ensures ParseDate(DayKey(d)) == DateOf(d)
  {
    ParseFormat(DateOf(d));
  }

  /** Distinct days have distinct day keys, so every UTC day gets a bucket
      of its own. */
  lemma DayKeyInjective(d1: Day, d2: Day)
    ensures DayKey(d1) == DayKey(d2) <==> d1 == d2
  {
    if DayKey(d1) == DayKey(d2) {
      DayKeyDate(d1);
      DayKeyDate(d2);
      DateOfInjective(d1, d2);
    }
  }

  lemma PaddedExamples()
    ensures Padded(2023, 4) == "2023" && Padded(1, 2) == "01"
  {
    assert Padded(2, 1) == "2";
    assert Padded(20, 2) == "20";
    assert Padded(202, 3) == "202";
    assert Padded(0, 1) == "0";
  }

  /** 2023-01-01, day 19358, has the key "2023-01-01". */
  lemma DayKeyExample()
    ensures DayKey(19358) == "2023-01-01"
  {
    DateOfExample();
    assert FormatDate(Date(2023, 1, 1)) == "2023-01-01" by {
      PaddedExamples();
    }
  }
}
