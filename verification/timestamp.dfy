/** The `updated:` timestamp of the skill document (index.ts): `formatUtc`,
    which prints the UTC fields of a date as `YYYY-MM-DD HH:MM:SS UTC`, and
    `parseTimestamp`, which rewrites that text into the RFC 3339 shape before
    handing it to the JavaScript date parser. */
module Timestamp {
  import opened Wrappers
  import opened Text

  /** What a JavaScript `Date` holds: milliseconds since the epoch. */
  type Instant = int

  /** The UTC calendar fields of a `Date`, as `getUTCFullYear`,
      `getUTCMonth` (0-based), `getUTCDate`, `getUTCHours`, `getUTCMinutes`
      and `getUTCSeconds` return them. */
  datatype DateTime = DateTime(year: int, monthIndex: nat, day: nat, hour: nat, minute: nat, second: nat)

  /** The ranges a `Date` keeps its fields in. */
  predicate ValidFields(d: DateTime)
  {
    d.monthIndex < 12 && 1 <= d.day <= 31 && d.hour < 24 && d.minute < 60 && d.second < 60
  }

  /** `String(year)`: a negative year keeps its minus sign. */
  function YearText(y: int): (r: string)
    ensures |r| >= 1
    ensures y >= 0 ==> forall i :: 0 <= i < |r| ==> IsDigit(r[i])
    ensures y < 0 ==> r[0] == '-'
  {
    if y < 0 then "-" + Digits(-y) else Digits(y)
  }

  /** `pad(value)`: the decimal digits of a field, at least two of them. */
  function Two(n: nat): (r: string)
    ensures |r| >= 2 && forall i :: 0 <= i < |r| ==> IsDigit(r[i])
    ensures DigitsValue(r) == n
    ensures n < 100 ==> |r| == 2
  {
    var s := Digits(n);
    if |s| == 1 then
      assert DigitsValue("0" + s) == DigitsValue(s) by {
        assert ("0" + s)[..1] == "0";
      }
      "0" + s
    else
      assert n < 100 ==> |s| <= 2 by {
        if n < 100 && |s| > 2 {
          Pow10Monotonic(2, |s| - 1);
        }
      }
      s
  }

  lemma {:induction false} Pow10Monotonic(a: nat, b: nat)
    requires a <= b
    ensures Pow10(a) <= Pow10(b)
    decreases b
  {
    if a < b {
      Pow10Monotonic(a, b - 1);
    }
  }

  /** `formatUtc(date)`: `YYYY-MM-DD HH:MM:SS UTC`. */
  function FormatUtc(d: DateTime): (r: string)
    ensures EndsWith(r, " UTC")
  {
    DateText(d) + " " + ClockText(d) + " UTC"
  }

  function DateText(d: DateTime): string
  {
    YearText(d.year) + "-" + Two(d.monthIndex + 1) + "-" + Two(d.day)
  }

  function ClockText(d: DateTime): string
  {
    Two(d.hour) + ":" + Two(d.minute) + ":" + Two(d.second)
  }

  /** The text `parseTimestamp` hands to the date parser:
      `value.trim().replace(" UTC", "Z").replace(" ", "T")`. */
  function Normalize(value: string): string
  {
    ReplaceFirst(ReplaceFirst(Trim(value), " UTC", "Z"), " ", "T")
  }

  /** `parseTimestamp(value)`: nothing for a missing or empty value,
      otherwise whatever the date parser makes of the normalised text. The
      parser (`new Date(...)` with its `NaN` check) is a parameter. */
  function ParseTimestamp(value: Option<string>, parseDate: string -> Option<Instant>): (r: Option<Instant>)
    ensures r.Some? ==> value.Some? && value.value != "" && parseDate(Normalize(value.value)) == r
    ensures value.Some? && value.value != "" ==> r == parseDate(Normalize(value.value))
  {
    match value
    case None => None
    case Some(v) => if v == "" then None else parseDate(Normalize(v))
  }

  predicate AllDigits(s: string)
  {
    forall i :: 0 <= i < |s| ==> IsDigit(s[i])
  }

  /** The `date-time` production of section 5.6 of RFC 3339 with a four-digit
      year, whole seconds and the offset `Z`: `YYYY-MM-DDTHH:MM:SSZ`. */
  predicate IsRfc3339Utc(s: string)
  {
    && |s| == 20
    && AllDigits(s[0..4]) && s[4] == '-' && AllDigits(s[5..7]) && s[7] == '-'
    && AllDigits(s[8..10]) && s[10] == 'T' && AllDigits(s[11..13]) && s[13] == ':'
    && AllDigits(s[14..16]) && s[16] == ':' && AllDigits(s[17..19]) && s[19] == 'Z'
  }

  lemma {:induction false} FourDigitYear(y: nat)
    requires 1000 <= y <= 9999
    ensures |Digits(y)| == 4
  {
    var r := Digits(y);
    if |r| < 4 {
      Pow10Monotonic(|r|, 3);
    } else if |r| > 4 {
      Pow10Monotonic(4, |r| - 1);
    }
  }

  /** The layout of the date part of a four-digit-year timestamp. */
  lemma DateTextShape(d: DateTime)
    requires ValidFields(d) && 1000 <= d.year <= 9999
    ensures var t := DateText(d);
      && |t| == 10 && ' ' !in t && 'U' !in t && t[0] != ' ' && IsDigit(t[0])
      && AllDigits(t[0..4]) && t[4] == '-' && AllDigits(t[5..7]) && t[7] == '-' && AllDigits(t[8..10])
      && DigitsValue(t[0..4]) == d.year && DigitsValue(t[5..7]) == d.monthIndex + 1
      && DigitsValue(t[8..10]) == d.day
  {
    FourDigitYear(d.year);
    var y, mo, da := YearText(d.year), Two(d.monthIndex + 1), Two(d.day);
    var t := DateText(d);
    assert t[0..4] == y && t[5..7] == mo && t[8..10] == da;
    forall i | 0 <= i < |t|
      ensures t[i] != ' ' && t[i] != 'U'
    {
      if i < 4 { assert t[i] == y[i]; }
      else if 5 <= i < 7 { assert t[i] == mo[i - 5]; }
      else if 8 <= i < 10 { assert t[i] == da[i - 8]; }
    }
  }

  /** The layout of the clock part of a timestamp. */
  lemma ClockTextShape(d: DateTime)
    requires ValidFields(d)
    ensures var t := ClockText(d);
      && |t| == 8 && 'U' !in t
      && AllDigits(t[0..2]) && t[2] == ':' && AllDigits(t[3..5]) && t[5] == ':' && AllDigits(t[6..8])
      && DigitsValue(t[0..2]) == d.hour && DigitsValue(t[3..5]) == d.minute
      && DigitsValue(t[6..8]) == d.second
  {
    var h, mi, se := Two(d.hour), Two(d.minute), Two(d.second);
    var t := ClockText(d);
    assert t[0..2] == h && t[3..5] == mi && t[6..8] == se;
    forall i | 0 <= i < |t|
      ensures t[i] != 'U'
    {
      if i < 2 { assert t[i] == h[i]; }
      else if 3 <= i < 5 { assert t[i] == mi[i - 3]; }
      else if 6 <= i < 8 { assert t[i] == se[i - 6]; }
    }
  }

  /** A run of digits holds neither a space nor a `U`. */
  lemma DigitsPlain(s: string)
    requires AllDigits(s)
    ensures ' ' !in s && 'U' !in s
  {
    forall i | 0 <= i < |s|
      ensures s[i] != ' ' && s[i] != 'U'
    {
      assert IsDigit(s[i]);
    }
  }

  /** Whatever the year, the date part is digits and dashes after a
      possible minus sign: no space, no `U`, and it does not start with
      white space. */
  lemma DateTextPlain(d: DateTime)
    ensures var t := DateText(d);
      && t != [] && ' ' !in t && 'U' !in t && (IsDigit(t[0]) || t[0] == '-')
  {
    var y, mo, da := YearText(d.year), Two(d.monthIndex + 1), Two(d.day);
    DigitsPlain(mo);
    DigitsPlain(da);
    if d.year < 0 {
      DigitsPlain(Digits(-d.year));
      assert y == "-" + Digits(-d.year);
    } else {
      DigitsPlain(y);
    }
    assert DateText(d) == y + "-" + mo + "-" + da;
    assert DateText(d)[0] == y[0];
  }

  /** The clock part holds only digits and colons, so no `U`. */
  lemma ClockTextPlain(d: DateTime)
    ensures 'U' !in ClockText(d)
  {
    var h, mi, se := Two(d.hour), Two(d.minute), Two(d.second);
    DigitsPlain(h);
    DigitsPlain(mi);
    DigitsPlain(se);
    assert ClockText(d) == h + ":" + mi + ":" + se;
  }

  /** Normalising a formatted timestamp, whatever its year, replaces the
      ` UTC` suffix by `Z` and the separating space by `T`. */
  lemma NormalizeFormatUtcText(d: DateTime)
    ensures Normalize(FormatUtc(d)) == DateText(d) + "T" + (ClockText(d) + "Z")
  {
    var date, time := DateText(d), ClockText(d);
    assert date != [] && ' ' !in date && 'U' !in date && !IsSpace(date[0]) by {
      DateTextPlain(d);
    }
    assert 'U' !in time by {
      ClockTextPlain(d);
    }
    NormalizeJoined(date, time);
  }

  /** Normalising `<date> <clock> UTC` when the date has no space, does not
      start with white space, and neither part has a `U`. */
  lemma NormalizeJoined(date: string, time: string)
    requires date != [] && ' ' !in date && 'U' !in date && !IsSpace(date[0])
    requires 'U' !in time
    ensures Normalize(date + " " + time + " UTC") == date + "T" + (time + "Z")
  {
    var a := date + " " + time;
    var f := a + " UTC";
    assert f[0] == date[0] && f[|f| - 1] == 'C';
    TrimIdentity(f);
    assert 'U' !in a;
    assert f == a + " UTC" + "";
    ReplaceFirstAfter(a, " UTC", "", "Z", 1);
    assert a + "Z" + "" == date + " " + (time + "Z");
    ReplaceFirstAfter(date, " ", time + "Z", "T", 0);
  }

  /** The normalised form of a formatted four-digit-year timestamp is the
      RFC 3339 UTC date-time naming the same fields (with the month counted
      from 1), so the date parser reads back what `formatUtc` printed. */
  lemma NormalizeFormatUtc(d: DateTime)
    requires ValidFields(d) && 1000 <= d.year <= 9999
    ensures var r := Normalize(FormatUtc(d));
      && IsRfc3339Utc(r)
      && DigitsValue(r[0..4]) == d.year && DigitsValue(r[5..7]) == d.monthIndex + 1
      && DigitsValue(r[8..10]) == d.day && DigitsValue(r[11..13]) == d.hour
      && DigitsValue(r[14..16]) == d.minute && DigitsValue(r[17..19]) == d.second
  {
    NormalizeFormatUtcText(d);
    DateTextShape(d);
    ClockTextShape(d);
    var date, time := DateText(d), ClockText(d);
    JoinedSlices(date, time);
  }

  lemma JoinedSlices(date: string, time: string)
    requires |date| == 10 && |time| == 8
    ensures var r := date + "T" + (time + "Z");
      && |r| == 20 && r[10] == 'T' && r[19] == 'Z'
      && r[0..4] == date[0..4] && r[4] == date[4] && r[5..7] == date[5..7] && r[7] == date[7]
      && r[8..10] == date[8..10] && r[11..13] == time[0..2] && r[13] == time[2]
      && r[14..16] == time[3..5] && r[16] == time[5] && r[17..19] == time[6..8]
  {
  }
}
