/**
 * Names and timestamps of violation evidence. Both are built from one
 * local date-time: the evidence file is `violation_YYYYMMDD_HHMMSS.jpg`
 * inside the alerts directory, the stored row timestamp is
 * `YYYY-MM-DD HH:MM:SS`; every field is zero-padded to its width.
 */
module Evidence {
  import opened Wrappers

  /** A local date-time, as a Python `datetime` without its microseconds. */
  datatype DateTime = DateTime(year: nat, month: nat, day: nat, hour: nat, minute: nat, second: nat)

  predicate IsLeapYear(y: nat)
  {
    (y % 4 == 0 && y % 100 != 0) || y % 400 == 0
  }

  function DaysInMonth(y: nat, m: nat): nat
  {
    if m == 2 then (if IsLeapYear(y) then 29 else 28)
    else if m == 4 || m == 6 || m == 9 || m == 11 then 30
    else 31
  }

  /** The values a `datetime` can hold: years 1 to 9999, calendar days, no leap second. */
  predicate Valid(t: DateTime)
  {
    && 1 <= t.year <= 9999
    && 1 <= t.month <= 12
    && 1 <= t.day <= DaysInMonth(t.year, t.month)
    && t.hour < 24 && t.minute < 60 && t.second < 60
  }

  function DigitChar(d: nat): char
    requires d < 10
  {
    ('0' as int + d) as char
  }

  /** Decimal digits of `n`, left-padded with zeros to `width`. */
  function Padded(n: nat, width: nat): (s: string)
    requires n < Power10(width)
    ensures |s| == width
    decreases width
  {
    if width == 0 then [] else Padded(n / 10, width - 1) + [DigitChar(n % 10)]
  }

  function Power10(k: nat): (p: nat)
    ensures p >= 1
  {
    if k == 0 then 1 else 10 * Power10(k - 1)
  }

  function Pad2(n: nat): (s: string)
    requires n < 100
  {
    Padded(n, 2)
  }

  function Pad4(n: nat): (s: string)
    requires n < 10000
  {
    Padded(n, 4)
  }

  /** `%Y<sep>%m<sep>%d`. */
  function DateText(t: DateTime, sep: string): (s: string)
    requires Valid(t)
    ensures |s| == 8 + 2 * |sep|
  {
    Pad4(t.year) + sep + Pad2(t.month) + sep + Pad2(t.day)
  }

  /** `%H<sep>%M<sep>%S`. */
  function TimeText(t: DateTime, sep: string): (s: string)
    requires Valid(t)
    ensures |s| == 6 + 2 * |sep|
  {
    Pad2(t.hour) + sep + Pad2(t.minute) + sep + Pad2(t.second)
  }

  /** A date, one separating character, a time. */
  function Stamp(t: DateTime, dateSep: string, mid: char, timeSep: string): (s: string)
    requires Valid(t)
    ensures |s| == 15 + 2 * |dateSep| + 2 * |timeSep|
  {
    DateText(t, dateSep) + [mid] + TimeText(t, timeSep)
  }

  /** `strftime('%Y%m%d_%H%M%S')`. */
  function CompactStamp(t: DateTime): (s: string)
    requires Valid(t)
    ensures |s| == 15
  {
    Stamp(t, "", '_', "")
  }

  /** `strftime('%Y-%m-%d %H:%M:%S')`: the timestamp stored in a violation row. */
  function TimestampString(t: DateTime): (s: string)
    requires Valid(t)
    ensures |s| == 19
  {
    Stamp(t, "-", ' ', ":")
  }

  const EvidencePrefix := "violation_"
  const EvidenceSuffix := ".jpg"

  /** File name of the evidence image taken at `t`. */
  function EvidenceName(t: DateTime): (s: string)
    requires Valid(t)
    ensures |s| == 29
  {
    EvidencePrefix + CompactStamp(t) + EvidenceSuffix
  }

  /** Path separator of the host (the program targets Windows). */
  const Sep: char := '\\'

  predicate IsSep(c: char)
  {
    c == '\\' || c == '/'
  }

  /**
   * Joining a directory and a relative file name: nothing is inserted after
   * an empty directory or one that already ends in a separator.
   */
  function JoinPath(dir: string, name: string): (p: string)
    ensures |p| >= |dir| + |name| && p[..|dir|] == dir && p[|p| - |name|..] == name
  {
    if dir == [] || IsSep(dir[|dir| - 1]) then dir + name else dir + [Sep] + name
  }

  /** Between the directory and the name there is exactly one separator, or none when the directory is empty or ends in one. */
  lemma JoinPathSeparator(dir: string, name: string)
    ensures var p, joined := JoinPath(dir, name), dir != [] && !IsSep(dir[|dir| - 1]);
      && |p| == |dir| + |name| + (if joined then 1 else 0)
      && (joined ==> p[|dir|] == Sep)
  {
  }

  /** Full path of the evidence image: the alerts directory joined with the evidence name. */
  function EvidencePath(alertsDir: string, t: DateTime): (p: string)
    requires Valid(t)
    ensures |p| >= |alertsDir| + 29
  {
    JoinPath(alertsDir, EvidenceName(t))
  }

  // ---------------------------------------------------------------------------
  // Reading the strings back

  function DigitValue(c: char): Option<nat>
  {
    if '0' <= c <= '9' then Some(c as int - '0' as int) else None
  }

  /** The value of the `k` decimal digits of `s` starting at `i`; None if one of them is not a digit. */
  function Field(s: string, i: nat, k: nat): Option<nat>
    requires i + k <= |s|
  {
    if k == 0 then Some(0)
    else
      match (Field(s, i, k - 1), DigitValue(s[i + k - 1]))
      case (Some(hi), Some(lo)) => Some(10 * hi + lo)
      case _ => None
  }

  /** Reading back `width` padded digits written at `i` gives the padded number. */
  lemma {:induction false} FieldPadded(s: string, i: nat, n: nat, width: nat)
    requires n < Power10(width) && i + width <= |s|
    requires forall j :: 0 <= j < width ==> s[i + j] == Padded(n, width)[j]
    ensures Field(s, i, width) == Some(n)
    decreases width
  {
    if width > 0 {
      var p := Padded(n, width);
      var q := Padded(n / 10, width - 1);
      forall j | 0 <= j < width - 1
        ensures s[i + j] == q[j]
      {
        assert p[j] == q[j];
      }
      FieldPadded(s, i, n / 10, width - 1);
      assert s[i + width - 1] == p[width - 1] == DigitChar(n % 10);
      assert DigitValue(DigitChar(n % 10)) == Some(n % 10);
      assert n == 10 * (n / 10) + n % 10;
    }
  }

  /** Three fields of widths `w0`, 2 and 2, separated by `sep`. */
  function ParseFields(s: string, w0: nat, sep: string): Option<(nat, nat, nat)>
  {
    var i1 := w0 + |sep|;
    var i2 := i1 + 2 + |sep|;
    if |s| == i2 + 2 && s[w0..i1] == sep && s[i1 + 2..i2] == sep then
      match (Number(s[..w0]), Number(s[i1..i1 + 2]), Number(s[i2..]))
      case (Some(a), Some(b), Some(c)) => Some((a, b, c))
      case _ => None
    else None
  }

  /** Builds a date-time from a parsed date and time, if it is a real instant. */
  function Assemble(date: Option<(nat, nat, nat)>, time: Option<(nat, nat, nat)>): Option<DateTime>
  {
    if date.Some? && time.Some? then
      var t := DateTime(date.value.0, date.value.1, date.value.2, time.value.0, time.value.1, time.value.2);
      if Valid(t) then Some(t) else None
    else None
  }

  /** Reads a stamp written by `Stamp` with the same separators back into its instant. */
  function ParseStamp(s: string, dateSep: string, mid: char, timeSep: string): Option<DateTime>
  {
    var n := 8 + 2 * |dateSep|;
    if |s| == n + 7 + 2 * |timeSep| && s[n] == mid
    then Assemble(ParseFields(s[..n], 4, dateSep), ParseFields(s[n + 1..], 2, timeSep))
    else None
  }

  /** Reads a `YYYY-MM-DD HH:MM:SS` string back into the instant it names. */
  function ParseTimestamp(s: string): Option<DateTime>
  {
    ParseStamp(s, "-", ' ', ":")
  }

  /** Reads a `YYYYMMDD_HHMMSS` stamp back into the instant it names. */
  function ParseCompactStamp(s: string): Option<DateTime>
  {
    ParseStamp(s, "", '_', "")
  }

  /** Reads a `violation_YYYYMMDD_HHMMSS.jpg` name back into the instant it names. */
  function ParseEvidenceName(s: string): Option<DateTime>
  {
    if |s| == 29 && s[..10] == EvidencePrefix && s[25..] == EvidenceSuffix
    then ParseCompactStamp(s[10..25])
    else None
  }

  /** The number written by all of `s`; None if some character is not a digit. */
  function Number(s: string): Option<nat>
  {
    Field(s, 0, |s|)
  }

  lemma NumberPadded(n: nat, width: nat)
    requires n < Power10(width)
    ensures Number(Padded(n, width)) == Some(n)
  {
    var s := Padded(n, width);
    assert forall j :: 0 <= j < width ==> s[0 + j] == s[j];
    FieldPadded(s, 0, n, width);
  }

  /** Where the three fields and two separators of `p0 + sep + p1 + sep + p2` lie. */
  lemma FieldsLayout(p0: string, p1: string, p2: string, sep: string)
    ensures var s, i1 := p0 + sep + p1 + sep + p2, |p0| + |sep|;
      var i2 := i1 + |p1| + |sep|;
      && |s| == i2 + |p2|
      && s[..|p0|] == p0 && s[|p0|..i1] == sep && s[i1..i1 + |p1|] == p1
      && s[i1 + |p1|..i2] == sep && s[i2..] == p2
  {
    var s, i1 := p0 + sep + p1 + sep + p2, |p0| + |sep|;
    var i2 := i1 + |p1| + |sep|;
    assert s[..|p0|] == p0;
    assert s[|p0|..i1] == sep;
    assert s[i1..i1 + |p1|] == p1;
    assert s[i1 + |p1|..i2] == sep;
    assert s[i2..] == p2;
  }

  /** Three numerals joined by `sep` read back as the three numbers. */
  lemma FieldsRoundTrip(p0: string, p1: string, p2: string, sep: string, a: nat, b: nat, c: nat)
    requires |p1| == 2 && |p2| == 2
    requires Number(p0) == Some(a) && Number(p1) == Some(b) && Number(p2) == Some(c)
    ensures ParseFields(p0 + sep + p1 + sep + p2, |p0|, sep) == Some((a, b, c))
  {
    FieldsLayout(p0, p1, p2, sep);
  }

  /** Where the two parts of `x + [mid] + y` lie. */
  lemma MidLayout(x: string, mid: char, y: string)
    ensures var s := x + [mid] + y;
      |s| == |x| + 1 + |y| && s[..|x|] == x && s[|x|] == mid && s[|x| + 1..] == y
  {
    var s := x + [mid] + y;
    assert s[..|x|] == x;
    assert s[|x| + 1..] == y;
  }

  lemma DateRoundTrip(t: DateTime, sep: string)
    requires Valid(t)
    ensures ParseFields(DateText(t, sep), 4, sep) == Some((t.year, t.month, t.day))
  {
    NumberPadded(t.year, 4);
    NumberPadded(t.month, 2);
    NumberPadded(t.day, 2);
    FieldsRoundTrip(Pad4(t.year), Pad2(t.month), Pad2(t.day), sep, t.year, t.month, t.day);
  }

  lemma TimeRoundTrip(t: DateTime, sep: string)
    requires Valid(t)
    ensures ParseFields(TimeText(t, sep), 2, sep) == Some((t.hour, t.minute, t.second))
  {
    NumberPadded(t.hour, 2);
    NumberPadded(t.minute, 2);
    NumberPadded(t.second, 2);
    FieldsRoundTrip(Pad2(t.hour), Pad2(t.minute), Pad2(t.second), sep, t.hour, t.minute, t.second);
  }

  lemma StampRoundTrip(t: DateTime, dateSep: string, mid: char, timeSep: string)
    requires Valid(t)
    ensures ParseStamp(Stamp(t, dateSep, mid, timeSep), dateSep, mid, timeSep) == Some(t)
  {
    MidLayout(DateText(t, dateSep), mid, TimeText(t, timeSep));
    DateRoundTrip(t, dateSep);
    TimeRoundTrip(t, timeSep);
  }

  lemma TimestampRoundTrip(t: DateTime)
    requires Valid(t)
    ensures ParseTimestamp(TimestampString(t)) == Some(t)
  {
    StampRoundTrip(t, "-", ' ', ":");
  }

  lemma EvidenceNameRoundTrip(t: DateTime)
    requires Valid(t)
    ensures ParseEvidenceName(EvidenceName(t)) == Some(t)
  {
    var s := EvidenceName(t);
    assert s[..10] == EvidencePrefix;
    assert s[25..] == EvidenceSuffix;
    assert s[10..25] == CompactStamp(t);
    StampRoundTrip(t, "", '_', "");
  }

  /** The evidence name and the row timestamp name one and the same instant. */
  lemma NameAndTimestampAgree(t: DateTime)
    requires Valid(t)
    ensures ParseEvidenceName(EvidenceName(t)) == ParseTimestamp(TimestampString(t)) == Some(t)
  {
    EvidenceNameRoundTrip(t);
    TimestampRoundTrip(t);
  }

  /** Distinct instants (to the second) give distinct evidence files in one directory. */
  lemma EvidencePathInjective(dir: string, a: DateTime, b: DateTime)
    requires Valid(a) && Valid(b)
    requires EvidencePath(dir, a) == EvidencePath(dir, b)
    ensures a == b
  {
    var p := EvidencePath(dir, a);
    assert EvidenceName(a) == p[|p| - 29..] == EvidenceName(b);
    EvidenceNameRoundTrip(a);
    EvidenceNameRoundTrip(b);
  }

  /**
   * The evidence file lies directly in the alerts directory: the path is the
   * directory, one separator unless the directory is empty or already ends
   * in one, then the evidence file name.
   */
  lemma EvidencePathShape(alertsDir: string, t: DateTime)
    requires Valid(t)
    ensures var p, joined := EvidencePath(alertsDir, t), alertsDir != [] && !IsSep(alertsDir[|alertsDir| - 1]);
      && p[..|alertsDir|] == alertsDir && p[|p| - 29..] == EvidenceName(t)
      && |p| == |alertsDir| + 29 + (if joined then 1 else 0)
      && (joined ==> p[|alertsDir|] == Sep)
  {
    JoinPathSeparator(alertsDir, EvidenceName(t));
  }

  /** Every evidence path carries the `violation_` marker. */
  lemma EvidencePathMarked(dir: string, t: DateTime)
    requires Valid(t)
    ensures var p := EvidencePath(dir, t);
            |p| >= 29 && p[|p| - 29..|p| - 19] == EvidencePrefix
  {
    var p := EvidencePath(dir, t);
    var n := EvidenceName(t);
    assert p[|p| - 29..] == n;
    assert p[|p| - 29..|p| - 19] == n[..10];
  }
}
