/** The part of System.DateTime the core uses: a calendar date with a time of
    day, the truncation `new DateTime(d.Year, d.Month, d.Day)`, and the text
    form DateTime.Parse reads. */
module Dates {
  import opened Results
  import opened Text

  /** A timestamp; `second` counts the seconds since midnight. */
  datatype DateTime = DateTime(year: int, month: int, day: int, second: int) {

    /** What System.DateTime can represent. */
    predicate Valid() {
      && 1 <= year <= 9999
      && 1 <= month <= 12
      && 1 <= day <= DaysInMonth(year, month)
      && 0 <= second < SecondsPerDay
    }

    /** The calendar day of this timestamp, at midnight. */
    function Truncate(): (r: DateTime)
      ensures r.second == 0
      ensures r.year == year && r.month == month && r.day == day
      ensures Valid() ==> r.Valid()
    {
      DateTime(year, month, day, 0)
    }

    predicate SameDay(other: DateTime) {
      year == other.year && month == other.month && day == other.day
    }
  }

  const SecondsPerDay := 86400

  predicate IsLeapYear(y: int) {
    (y % 4 == 0 && y % 100 != 0) || y % 400 == 0
  }

  function DaysInMonth(y: int, m: int): (n: int)
    requires 1 <= m <= 12
    ensures 28 <= n <= 31
  {
    if m == 2 then (if IsLeapYear(y) then 29 else 28)
    else if m == 4 || m == 6 || m == 9 || m == 11 then 30
    else 31
  }

  /** Two timestamps reach the same work-order key exactly when they fall on the same calendar day. */
  lemma TruncateSameDay(a: DateTime, b: DateTime)
    ensures a.Truncate() == b.Truncate() <==> a.SameDay(b)
  {
  }

  /** Truncating twice is truncating once. */
  lemma TruncateIdempotent(d: DateTime)
    ensures d.Truncate().Truncate() == d.Truncate()
  {
  }

  /** The sortable text form "yyyy-MM-dd HH:mm:ss". */
  function Format(d: DateTime): (r: string)
    requires d.Valid()
    ensures |r| == 19
  {
    FormatDate(d.year, d.month, d.day) + " " + FormatTime(d.second)
  }

  /** "yyyy-MM-dd". */
  function FormatDate(y: nat, m: nat, d: nat): (r: string)
    ensures |r| == 10
  {
    PadDigits(y, 4) + "-" + PadDigits(m, 2) + "-" + PadDigits(d, 2)
  }

  /** "HH:mm:ss" of a number of seconds since midnight. */
  function FormatTime(t: nat): (r: string)
    ensures |r| == 8
  {
    PadDigits(t / 3600, 2) + ":" + PadDigits(t % 3600 / 60, 2) + ":" + PadDigits(t % 60, 2)
  }

  /** The value of the fixed-width digit field `s[i..j]`, if it is all digits. */
  function Field(s: string, i: nat, j: nat): Option<nat>
    requires i <= j <= |s|
  {
    if AllDigits(s[i..j]) then Some(DigitsValue(s[i..j])) else None
  }

  /** DateTime.Parse of the ISO 8601 forms "yyyy-MM-dd" and "yyyy-MM-dd HH:mm:ss"
      (a 'T' may stand for the space).  Anything else fails. */
  function Parse(s: string): (r: Option<DateTime>)
    ensures r.Some? ==> r.value.Valid()
    ensures r.Some? && |s| == 10 ==> r.value.second == 0
  {
    if (|s| != 10 && |s| != 19) || s[4] != '-' || s[7] != '-' then None
    else
      var y, mo, d := Field(s, 0, 4), Field(s, 5, 7), Field(s, 8, 10);
      if y.None? || mo.None? || d.None? then None
      else if !(1 <= y.value <= 9999 && 1 <= mo.value <= 12) then None
      else if !(1 <= d.value <= DaysInMonth(y.value, mo.value)) then None
      else if |s| == 10 then Some(DateTime(y.value, mo.value, d.value, 0))
      else if (s[10] != ' ' && s[10] != 'T') || s[13] != ':' || s[16] != ':' then None
      else
        var h, mi, se := Field(s, 11, 13), Field(s, 14, 16), Field(s, 17, 19);
        if h.None? || mi.None? || se.None? then None
        else if !(h.value < 24 && mi.value < 60 && se.value < 60) then None
        else Some(DateTime(y.value, mo.value, d.value, h.value * 3600 + mi.value * 60 + se.value))
  }

  lemma FieldOfPad(s: string, i: nat, n: nat, w: nat)
    requires n < Pow10(w) && i + w <= |s|
    requires s[i..i + w] == PadDigits(n, w)
    ensures Field(s, i, i + w) == Some(n)
  {
    PadDigitsRoundTrip(n, w);
  }

  lemma SplitSecond(t: int)
    requires 0 <= t < SecondsPerDay
    ensures t / 3600 < 24 && t % 3600 / 60 < 60 && t % 60 < 60
    ensures t / 3600 * 3600 + t % 3600 / 60 * 60 + t % 60 == t
  {
  }

  lemma FormatDateLayout(y: nat, m: nat, d: nat)
    ensures var s := FormatDate(y, m, d);
      && s[4] == '-' && s[7] == '-'
      && s[0..4] == PadDigits(y, 4) && s[5..7] == PadDigits(m, 2) && s[8..10] == PadDigits(d, 2)
  {
  }

  lemma FormatTimeLayout(t: nat)
    ensures var s := FormatTime(t);
      && s[2] == ':' && s[5] == ':'
      && s[0..2] == PadDigits(t / 3600, 2) && s[3..5] == PadDigits(t % 3600 / 60, 2) && s[6..8] == PadDigits(t % 60, 2)
  {
  }

  /** Where Format puts each field and separator. */
  lemma FormatLayout(d: DateTime)
    requires d.Valid()
    ensures var s := Format(d);
      && s[4] == '-' && s[7] == '-' && s[10] == ' ' && s[13] == ':' && s[16] == ':'
      && s[0..4] == PadDigits(d.year, 4)
      && s[5..7] == PadDigits(d.month, 2)
      && s[8..10] == PadDigits(d.day, 2)
      && s[11..13] == PadDigits(d.second / 3600, 2)
      && s[14..16] == PadDigits(d.second % 3600 / 60, 2)
      && s[17..19] == PadDigits(d.second % 60, 2)
  {
    var a, t := FormatDate(d.year, d.month, d.day), FormatTime(d.second);
    FormatDateLayout(d.year, d.month, d.day);
    FormatTimeLayout(d.second);
    var s := a + " " + t;
    assert s[..10] == a && s[11..] == t;
    assert s[0..4] == a[0..4] && s[5..7] == a[5..7] && s[8..10] == a[8..10];
    assert s[11..13] == t[0..2] && s[14..16] == t[3..5] && s[17..19] == t[6..8];
  }

  /** Parse of a 19-character text whose separators and digit fields are in place. */
  lemma ParseOfFields(s: string, d: DateTime, h: nat, mi: nat, se: nat)
    requires d.Valid() && |s| == 19
    requires s[4] == '-' && s[7] == '-' && s[10] == ' ' && s[13] == ':' && s[16] == ':'
    requires Field(s, 0, 4) == Some(d.year) && Field(s, 5, 7) == Some(d.month) && Field(s, 8, 10) == Some(d.day)
    requires Field(s, 11, 13) == Some(h) && Field(s, 14, 16) == Some(mi) && Field(s, 17, 19) == Some(se)
    requires h < 24 && mi < 60 && se < 60 && d.second == h * 3600 + mi * 60 + se
    ensures Parse(s) == Some(d)
  {
  }

  /** Parse reads back every timestamp that Format writes. */
  lemma ParseFormat(d: DateTime)
    requires d.Valid()
    ensures Parse(Format(d)) == Some(d)
  {
    var s := Format(d);
    var h, mi, se := d.second / 3600, d.second % 3600 / 60, d.second % 60;
    SplitSecond(d.second);
    assert Pow10(2) == 100 && Pow10(4) == 10000;
    FormatLayout(d);
    FieldOfPad(s, 0, d.year, 4);
    FieldOfPad(s, 5, d.month, 2);
    FieldOfPad(s, 8, d.day, 2);
    FieldOfPad(s, 11, h, 2);
    FieldOfPad(s, 14, mi, 2);
    FieldOfPad(s, 17, se, 2);
    ParseOfFields(s, d, h, mi, se);
  }
}
