/**
 * The `.commit` file: one line naming the date, the game version and its Steam
 * build id, with a " [Forced]" note when the run was forced. The date is written
 * in the "dd MMMM yyyy" format with English month names.
 */
module CommitFile {
  import opened Wrappers
  import opened Files

  /** A calendar date as DateTimeOffset accepts it (years 1 through 9999, Gregorian). */
  datatype Date = Date(year: int, month: int, day: int)

  predicate IsLeapYear(year: int) {
    year % 4 == 0 && (year % 100 != 0 || year % 400 == 0)
  }

  function DaysInMonth(year: int, month: int): int
    requires 1 <= month <= 12
  {
    if month == 2 then (if IsLeapYear(year) then 29 else 28)
    else if month == 4 || month == 6 || month == 9 || month == 11 then 30
    else 31
  }

  predicate ValidDate(d: Date) {
    1 <= d.year <= 9999 && 1 <= d.month <= 12 && 1 <= d.day <= DaysInMonth(d.year, d.month)
  }

  type CalendarDate = d: Date | ValidDate(d) witness Date(1, 1, 1)

  const MonthNames: seq<string> :=
    ["January", "February", "March", "April", "May", "June",
     "July", "August", "September", "October", "November", "December"]

  predicate IsDigit(c: char) {
    '0' <= c <= '9'
  }

  function DigitChar(d: nat): (c: char)
    requires d < 10
    ensures IsDigit(c)
  {
    ('0' as int + d) as char
  }

  function DigitValue(c: char): nat
    requires IsDigit(c)
  {
    c as int - '0' as int
  }

  /** "dd": the day in two digits, zero-padded. */
  function TwoDigits(n: nat): (s: string)
    requires n < 100
    ensures |s| == 2 && IsDigit(s[0]) && IsDigit(s[1])
  {
    [DigitChar(n / 10), DigitChar(n % 10)]
  }

  /** "yyyy": the year in four digits, zero-padded. */
  function FourDigits(n: nat): (s: string)
    requires n < 10000
    ensures |s| == 4 && forall i :: 0 <= i < 4 ==> IsDigit(s[i])
  {
    [DigitChar(n / 1000), DigitChar(n / 100 % 10), DigitChar(n / 10 % 10), DigitChar(n % 10)]
  }

  /** The number a string of decimal digits denotes. */
  function DigitsValue(s: string): nat
    requires forall i :: 0 <= i < |s| ==> IsDigit(s[i])
  {
    if s == [] then 0 else 10 * DigitsValue(s[..|s| - 1]) + DigitValue(s[|s| - 1])
  }

  /** Padding loses nothing: the two day digits read back as the number. */
  lemma TwoDigitsRoundTrip(n: nat)
    requires n < 100
    ensures DigitsValue(TwoDigits(n)) == n
  {
    var s := TwoDigits(n);
    assert s[..1][..0] == [];
    assert DigitsValue(s[..1]) == n / 10;
  }

  /** Padding loses nothing: the four year digits read back as the number. */
  lemma FourDigitsRoundTrip(n: nat)
    requires n < 10000
    ensures DigitsValue(FourDigits(n)) == n
  {
    var s := FourDigits(n);
    assert s[..3][..2] == s[..2] && s[..2][..1] == s[..1] && s[..1][..0] == [];
    assert s[..4] == s;
    assert DigitsValue(s[..1]) == n / 1000;
    assert DigitsValue(s[..2]) == 10 * (n / 1000) + n / 100 % 10 == n / 100;
    assert DigitsValue(s[..3]) == 10 * (n / 100) + n / 10 % 10 == n / 10;
  }

  /** `{date:dd MMMM yyyy}`. */
  function FormatDate(d: CalendarDate): (s: string)
    ensures |s| == 3 + |MonthNames[d.month - 1]| + 5
    ensures s[2] == ' ' && s[|s| - 5] == ' ' && s[3..|s| - 5] == MonthNames[d.month - 1]
  {
    var dayText, month := TwoDigits(d.day), MonthNames[d.month - 1];
    var s := dayText + " " + month + " " + FourDigits(d.year);
    assert s[3..|s| - 5] == month;
    s
  }

  /** The index of the month whose name ends at the first blank after position 3 of s, if any. */
  function MonthAt(s: string, from: nat): (r: Option<nat>)
    requires from <= 12
    ensures r.Some? ==> from <= r.value < 12
    decreases 12 - from
  {
    if from == 12 then None
    else
      var name := MonthNames[from];
      if 3 + |name| < |s| && s[3..3 + |name|] == name && s[3 + |name|] == ' ' then Some(from)
      else MonthAt(s, from + 1)
  }

  /** Reads back a date in the FormatDate layout, the rest of the text following it. */
  function ParseDate(s: string): (r: Option<(CalendarDate, string)>)
    ensures r.Some? ==> |r.value.1| < |s|
  {
    if |s| < 3 || !IsDigit(s[0]) || !IsDigit(s[1]) || s[2] != ' ' then None
    else
      match MonthAt(s, 0)
      case None => None
      case Some(m) =>
        var yearStart := 3 + |MonthNames[m]| + 1;
        if yearStart + 4 > |s| then None
        else
          var yearText := s[yearStart..yearStart + 4];
          if !(forall i :: 0 <= i < 4 ==> IsDigit(yearText[i])) then None
          else
            var d := Date(DigitsValue(yearText), m + 1, DigitsValue(s[..2]));
            if ValidDate(d) then Some((d, s[yearStart + 4..])) else None
  }

  /** The month names are pairwise different and hold no blank. */
  lemma MonthNamesFacts()
    ensures forall i, j :: 0 <= i < j < 12 ==> MonthNames[i] != MonthNames[j]
    ensures forall i :: 0 <= i < 12 ==> ' ' !in MonthNames[i]
  {
  }

  /** Where a month name sits in s, followed by a blank, no other month name does. */
  lemma MonthNameUnique(s: string, i: nat, m: nat)
    requires i < 12 && m < 12 && i != m
    requires 3 + |MonthNames[m]| < |s| && s[3..3 + |MonthNames[m]|] == MonthNames[m] && s[3 + |MonthNames[m]|] == ' '
    ensures !(3 + |MonthNames[i]| < |s| && s[3..3 + |MonthNames[i]|] == MonthNames[i] && s[3 + |MonthNames[i]|] == ' ')
  {
    MonthNamesFacts();
    var a, b := MonthNames[i], MonthNames[m];
    if |a| < |b| {
      assert s[3 + |a|] == b[|a|] != ' ';
    } else if |b| < |a| {
      assert 3 + |a| < |s| ==> s[3..3 + |a|][|b|] == ' ' != a[|b|];
    } else {
      assert s[3..3 + |a|] == b != a;
    }
  }

  lemma {:induction false} MonthAtFindsMonth(d: CalendarDate, rest: string, from: nat)
    requires from <= d.month - 1
    ensures MonthAt(FormatDate(d) + rest, from) == Some(d.month - 1)
    decreases 12 - from
  {
    var s := FormatDate(d) + rest;
    var m := d.month - 1;
    assert s[3..3 + |MonthNames[m]|] == MonthNames[m];
    assert s[3 + |MonthNames[m]|] == ' ';
    if from < m {
      MonthNameUnique(s, from, m);
      MonthAtFindsMonth(d, rest, from + 1);
    }
  }

  /** Where the pieces of a formatted date sit. */
  lemma FormatDateLayout(d: CalendarDate, rest: string)
    ensures var s := FormatDate(d) + rest;
            var yearStart := 3 + |MonthNames[d.month - 1]| + 1;
            && s[..2] == TwoDigits(d.day) && s[2] == ' '
            && s[yearStart..yearStart + 4] == FourDigits(d.year)
            && s[yearStart + 4..] == rest
  {
  }

  /** FormatDate loses nothing: the date is read back and the following text is left over. */
  lemma FormatDateRoundTrip(d: CalendarDate, rest: string)
    ensures ParseDate(FormatDate(d) + rest) == Some((d, rest))
  {
    MonthAtFindsMonth(d, rest, 0);
    FormatDateLayout(d, rest);
    TwoDigitsRoundTrip(d.day);
    FourDigitsRoundTrip(d.year);
  }

  const ForcedNote: string := " [Forced]"

  const VersionLabel: string := " - Version "

  /** What follows the date in a commit line. */
  function CommitTail(version: string, buildId: string, force: bool): (tail: string)
    ensures |VersionLabel| + 3 <= |tail| && tail[..|VersionLabel|] == VersionLabel
    ensures force ==> tail[|tail| - |ForcedNote|..] == ForcedNote
    ensures !force ==> tail[|tail| - 1] == ')'
  {
    VersionLabel + version + " (" + buildId + ")" + (if force then ForcedNote else "")
  }

  /** The line CommitFileWriter.WriteAsync writes: the date, then the tail. */
  function CommitLine(date: CalendarDate, version: string, buildId: string, force: bool): (line: string)
  {
    FormatDate(date) + CommitTail(version, buildId, force)
  }

  predicate EndsWith(s: string, suffix: string) {
    |suffix| <= |s| && s[|s| - |suffix|..] == suffix
  }

  /** The " [Forced]" note is there exactly for a forced run; an unforced line ends with ')'. */
  lemma ForcedNoteIffForce(date: CalendarDate, version: string, buildId: string, force: bool)
    ensures EndsWith(CommitLine(date, version, buildId, force), ForcedNote) <==> force
    ensures !force ==> CommitLine(date, version, buildId, force)[|CommitLine(date, version, buildId, force)| - 1] == ')'
  {
    var line := CommitLine(date, version, buildId, force);
    if !force {
      assert line[|line| - 1] == ')';
      assert !EndsWith(line, ForcedNote) by {
        if |ForcedNote| <= |line| {
          assert line[|line| - |ForcedNote|..][|ForcedNote| - 1] == line[|line| - 1];
        }
      }
    }
  }

  /** The last position in s holding c, if any. */
  function LastIndexOf(s: string, c: char): (r: Option<nat>)
    ensures r.Some? ==> r.value < |s| && s[r.value] == c && c !in s[r.value + 1..]
    ensures r.None? ==> c !in s
  {
    if s == [] then None
    else if s[|s| - 1] == c then Some(|s| - 1)
    else match LastIndexOf(s[..|s| - 1], c)
      case None => None
      case Some(i) => assert s[i + 1..] == s[i + 1..|s| - 1] + [s[|s| - 1]]; Some(i)
  }

  /**
   * Reads the part after the date back into version, build id and force flag.
   * The build id is what lies between the last '(' and the closing ')'.
   */
  function ParseCommitTail(rest: string): Option<(string, string, bool)> {
    var force := EndsWith(rest, ForcedNote);
    var body := if force then rest[..|rest| - |ForcedNote|] else rest;
    if |body| < |VersionLabel| + 3 || body[..|VersionLabel|] != VersionLabel || body[|body| - 1] != ')' then None
    else
      var inner := body[|VersionLabel|..|body| - 1];
      match LastIndexOf(inner, '(')
      case None => None
      case Some(i) =>
        if i == 0 || inner[i - 1] != ' ' then None
        else Some((inner[..i - 1], inner[i + 1..], force))
  }

  /** Reads a commit line back into its date, version, build id and force flag. */
  function ParseCommitLine(line: string): Option<(CalendarDate, string, string, bool)> {
    match ParseDate(line)
    case None => None
    case Some((date, rest)) =>
      match ParseCommitTail(rest)
      case None => None
      case Some((version, buildId, force)) => Some((date, version, buildId, force))
  }

  lemma LastParenthesis(version: string, buildId: string)
    requires '(' !in buildId
    ensures LastIndexOf(version + " (" + buildId, '(') == Some(|version| + 1)
  {
    var inner := version + " (" + buildId;
    assert inner[|version| + 1] == '(';
    assert inner[|version| + 2..] == buildId;
  }

  lemma CommitTailRoundTrip(version: string, buildId: string, force: bool)
    requires '(' !in buildId
    ensures ParseCommitTail(CommitTail(version, buildId, force)) == Some((version, buildId, force))
  {
    var rest := CommitTail(version, buildId, force);
    var body := VersionLabel + version + " (" + buildId + ")";
    assert EndsWith(rest, ForcedNote) <==> force by {
      if !force {
        assert rest[|rest| - 1] == ')';
        if |ForcedNote| <= |rest| {
          assert rest[|rest| - |ForcedNote|..][|ForcedNote| - 1] == rest[|rest| - 1];
        }
      }
    }
    assert (if force then rest[..|rest| - |ForcedNote|] else rest) == body;
    assert body[..|VersionLabel|] == VersionLabel;
    var inner := body[|VersionLabel|..|body| - 1];
    assert inner == version + " (" + buildId;
    LastParenthesis(version, buildId);
    assert inner[..|version|] == version;
  }

  /**
   * The version and the build id are written verbatim (leading zeros kept): the
   * line gives back every input, provided the build id holds no '('.
   */
  lemma CommitLineRoundTrip(date: CalendarDate, version: string, buildId: string, force: bool)
    requires '(' !in buildId
    ensures ParseCommitLine(CommitLine(date, version, buildId, force)) == Some((date, version, buildId, force))
  {
    FormatDateRoundTrip(date, CommitTail(version, buildId, force));
    CommitTailRoundTrip(version, buildId, force);
  }

  /** The dates of the commit-file test, formatted. */
  lemma FormatDate05July2025()
    ensures FormatDate(Date(2025, 7, 5)) == "05 July 2025"
  {
  }

  lemma FormatDate30January2024()
    ensures FormatDate(Date(2024, 1, 30)) == "30 January 2024"
  {
  }

  lemma FormatDate05February2030()
    ensures FormatDate(Date(2030, 2, 5)) == "05 February 2030"
  {
  }

  lemma FormatDate05July2027()
    ensures FormatDate(Date(2027, 7, 5)) == "05 July 2027"
  {
  }

  lemma FormatDate20June2028()
    ensures FormatDate(Date(2028, 6, 20)) == "20 June 2028"
  {
  }

  lemma FormatDate06June2028()
    ensures FormatDate(Date(2028, 6, 6)) == "06 June 2028"
  {
  }

  lemma FormatDate01January2030()
    ensures FormatDate(Date(2030, 1, 1)) == "01 January 2030"
  {
  }

  /** Row 1 of the commit-file test: the date, then the rest of the expected line. */
  lemma CommitLineExample1()
    ensures CommitLine(Date(2025, 7, 5), "3.25.7.4", "4202", true) == "05 July 2025" + " - Version 3.25.7.4 (4202) [Forced]"
  {
    FormatDate05July2025();
    assert CommitTail("3.25.7.4", "4202", true) == " - Version 3.25.7.4 (4202) [Forced]";
  }

  /** Row 2 of the commit-file test: the date, then the rest of the expected line. */
  lemma CommitLineExample2()
    ensures CommitLine(Date(2024, 1, 30), "3.25.6.0", "1", true) == "30 January 2024" + " - Version 3.25.6.0 (1) [Forced]"
  {
    FormatDate30January2024();
    assert CommitTail("3.25.6.0", "1", true) == " - Version 3.25.6.0 (1) [Forced]";
  }

  /** Row 3 of the commit-file test: the date, then the rest of the expected line. */
  lemma CommitLineExample3()
    ensures CommitLine(Date(2030, 2, 5), "3.25.6.12", "0", true) == "05 February 2030" + " - Version 3.25.6.12 (0) [Forced]"
  {
    FormatDate05February2030();
    assert CommitTail("3.25.6.12", "0", true) == " - Version 3.25.6.12 (0) [Forced]";
  }

  /** Row 4 of the commit-file test: the date, then the rest of the expected line. */
  lemma CommitLineExample4()
    ensures CommitLine(Date(2027, 7, 5), "3.25.7.4", "2351", false) == "05 July 2027" + " - Version 3.25.7.4 (2351)"
  {
    FormatDate05July2027();
    assert CommitTail("3.25.7.4", "2351", false) == " - Version 3.25.7.4 (2351)";
  }

  /** Row 5 of the commit-file test: the date, then the rest of the expected line. */
  lemma CommitLineExample5()
    ensures CommitLine(Date(2028, 6, 20), "3.28.2.0", "3805", false) == "20 June 2028" + " - Version 3.28.2.0 (3805)"
  {
    FormatDate20June2028();
    assert CommitTail("3.28.2.0", "3805", false) == " - Version 3.28.2.0 (3805)";
  }

  /** Row 6 of the commit-file test: the date, then the rest of the expected line. */
  lemma CommitLineExample6()
    ensures CommitLine(Date(2028, 6, 6), "3.28.2.0", "6960", false) == "06 June 2028" + " - Version 3.28.2.0 (6960)"
  {
    FormatDate06June2028();
    assert CommitTail("3.28.2.0", "6960", false) == " - Version 3.28.2.0 (6960)";
  }

  /** Row 7 of the commit-file test: the date, then the rest of the expected line. */
  lemma CommitLineExample7()
    ensures CommitLine(Date(2028, 6, 6), "3.0.2.8", "6960", false) == "06 June 2028" + " - Version 3.0.2.8 (6960)"
  {
    FormatDate06June2028();
    assert CommitTail("3.0.2.8", "6960", false) == " - Version 3.0.2.8 (6960)";
  }

  /** Row 8 of the commit-file test: the date, then the rest of the expected line. */
  lemma CommitLineExample8()
    ensures CommitLine(Date(2030, 1, 1), "3.30.0.0", "0011", false) == "01 January 2030" + " - Version 3.30.0.0 (0011)"
  {
    FormatDate01January2030();
    assert CommitTail("3.30.0.0", "0011", false) == " - Version 3.30.0.0 (0011)";
  }

  const CommitFileName: string := ".commit"

  /**
   * CommitFileWriter. The clock is injected; without one the writer uses the
   * current UTC time, which the caller passes to WriteAsync as `utcNow`.
   */
  class CommitFileWriter {
    const getTime: Option<() -> CalendarDate>

    constructor (getTime: Option<() -> CalendarDate>)
      ensures this.getTime == getTime
    {
      this.getTime := getTime;
    }

    /** The time the writer stamps: the injected clock's, else UTC now. */
    function Now(utcNow: CalendarDate): (d: CalendarDate)
      ensures getTime.Some? ==> d == getTime.value()
      ensures getTime.None? ==> d == utcNow
    {
      match getTime
      case Some(clock) => clock()
      case None => utcNow
    }

    /** Replaces the whole content of <path>/.commit with the commit line. */
    method WriteAsync(fs: FileSystem, path: string, version: string, buildId: string, force: bool, utcNow: CalendarDate)
      returns (r: Result<(), IoError>)
      modifies fs
      ensures fs.locked == old(fs.locked) && fs.readOnly == old(fs.readOnly)
      ensures r.Ok? <==> old(fs.Writable(FilePath(path, CommitFileName)))
      ensures r.Ok? ==> fs.dirs == old(fs.dirs)[path := old(fs.dirs)[path][CommitFileName := Utf8(CommitLine(Now(utcNow), version, buildId, force))]]
      ensures r.Err? ==> fs.dirs == old(fs.dirs) && r.error == old(fs.WriteError(FilePath(path, CommitFileName)))
    {
      r := fs.WriteAllText(FilePath(path, CommitFileName), CommitLine(Now(utcNow), version, buildId, force));
    }
  }
}
