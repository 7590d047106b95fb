/**
  Backup names.  A backup is written as `<dest>/<stamp>.zip`, where `<stamp>`
  is the start time rendered by `strftime("%Y%m%d_%H%M%S")` (WowAddonSync.py
  and old/service.py), and rotation reads the time back from the name with
  `strptime` and the same pattern.  Timestamps are compared as
  (year, month, day, hour, minute, second) tuples in lexicographic order, which
  is the order of the instants they denote.
*/
module BackupNames {
  import opened Wrappers

  datatype Timestamp = Timestamp(year: int, month: int, day: int, hour: int, minute: int, second: int)

  predicate IsLeapYear(y: int)
  {
    y % 4 == 0 && (y % 100 != 0 || y % 400 == 0)
  }

  function DaysInMonth(y: int, m: int): int
  {
    if m == 2 then (if IsLeapYear(y) then 29 else 28)
    else if m == 4 || m == 6 || m == 9 || m == 11 then 30
    else 31
  }

  /** The instants `datetime` can represent (years 1 to 9999, real calendar days). */
  predicate ValidTimestamp(t: Timestamp)
  {
    && 1 <= t.year <= 9999
    && 1 <= t.month <= 12
    && 1 <= t.day <= DaysInMonth(t.year, t.month)
    && 0 <= t.hour <= 23
    && 0 <= t.minute <= 59
    && 0 <= t.second <= 59
  }

  /** Strictly earlier, comparing the six fields lexicographically. */
  predicate Before(a: Timestamp, b: Timestamp)
  {
    || a.year < b.year
    || (a.year == b.year && a.month < b.month)
    || (a.year == b.year && a.month == b.month && a.day < b.day)
    || (a.year == b.year && a.month == b.month && a.day == b.day && a.hour < b.hour)
    || (a.year == b.year && a.month == b.month && a.day == b.day && a.hour == b.hour && a.minute < b.minute)
    || (a.year == b.year && a.month == b.month && a.day == b.day && a.hour == b.hour && a.minute == b.minute
        && a.second < b.second)
  }

  lemma BeforeIsStrictTotalOrder(a: Timestamp, b: Timestamp, c: Timestamp)
    ensures !Before(a, a)
    ensures Before(a, b) ==> !Before(b, a)
    ensures Before(a, b) && Before(b, c) ==> Before(a, c)
    ensures a != b ==> Before(a, b) || Before(b, a)
  {
  }

  // ---------------------------------------------------------------------------
  // Fixed-width decimal fields

  function Pow10(n: nat): nat
  {
    if n == 0 then 1 else 10 * Pow10(n - 1)
  }

  predicate IsDigit(c: char)
  {
    '0' <= c <= '9'
  }

  predicate AllDigits(s: string)
  {
    forall i :: 0 <= i < |s| ==> IsDigit(s[i])
  }

  function DigitChar(d: int): char
    requires 0 <= d <= 9
  {
    ('0' as int + d) as char
  }

  function DigitValue(c: char): int
  {
    c as int - '0' as int
  }

  /** `n` in decimal, zero-padded to `width` digits (the `%Y`, `%m`, ... fields). */
  function Pad(n: nat, width: nat): (s: string)
    requires n < Pow10(width)
    ensures |s| == width && AllDigits(s)
  {
    if width == 0 then "" else Pad(n / 10, width - 1) + [DigitChar(n % 10)]
  }

  /** The value of a string of decimal digits. */
  function Number(s: string): (n: nat)
    requires AllDigits(s)
    ensures n < Pow10(|s|)
  {
    if |s| == 0 then 0 else Number(s[..|s| - 1]) * 10 + DigitValue(s[|s| - 1])
  }

  lemma {:induction false} NumberOfPad(n: nat, width: nat)
    requires n < Pow10(width)
    ensures Number(Pad(n, width)) == n
  {
    if width > 0 {
      var s := Pad(n, width);
      assert s[..width - 1] == Pad(n / 10, width - 1);
      NumberOfPad(n / 10, width - 1);
    }
  }

  lemma {:induction false} PadOfNumber(s: string)
    requires AllDigits(s)
    ensures Pad(Number(s), |s|) == s
  {
    if |s| > 0 {
      var init := s[..|s| - 1];
      PadOfNumber(init);
      assert Number(s) / 10 == Number(init);
      assert s == init + [s[|s| - 1]];
    }
  }

  // ---------------------------------------------------------------------------
  // The "%Y%m%d_%H%M%S" stamp

  /** `strftime("%Y%m%d_%H%M%S")`. */
  function Format(t: Timestamp): (s: string)
    requires ValidTimestamp(t)
    ensures |s| == 15 && s[8] == '_' && AllDigits(s[..8]) && AllDigits(s[9..])
  {
    var s := Pad(t.year, 4) + Pad(t.month, 2) + Pad(t.day, 2) + "_" + Pad(t.hour, 2) + Pad(t.minute, 2)
      + Pad(t.second, 2);
    assert s[..8] == Pad(t.year, 4) + Pad(t.month, 2) + Pad(t.day, 2);
    assert s[9..] == Pad(t.hour, 2) + Pad(t.minute, 2) + Pad(t.second, 2);
    s
  }

  /** `strptime(s, "%Y%m%d_%H%M%S")` for the exact shape `strftime` writes:
      fifteen characters, digits around an underscore, and a real date and time. */
  function Parse(s: string): Option<Timestamp>
  {
    if |s| == 15 && s[8] == '_' && AllDigits(s[..8]) && AllDigits(s[9..]) then
      var t := Timestamp(Number(s[0..4]), Number(s[4..6]), Number(s[6..8]),
                         Number(s[9..11]), Number(s[11..13]), Number(s[13..15]));
      if ValidTimestamp(t) then Some(t) else None
    else
      None
  }

  /** Reading a stamp back gives the time it was written from. */
  lemma {:induction false} ParseFormat(t: Timestamp)
    requires ValidTimestamp(t)
    ensures Parse(Format(t)) == Some(t)
  {
    var s := Format(t);
    assert s[0..4] == Pad(t.year, 4);
    assert s[4..6] == Pad(t.month, 2);
    assert s[6..8] == Pad(t.day, 2);
    assert s[9..11] == Pad(t.hour, 2);
    assert s[11..13] == Pad(t.minute, 2);
    assert s[13..15] == Pad(t.second, 2);
    NumberOfPad(t.year, 4);
    NumberOfPad(t.month, 2);
    NumberOfPad(t.day, 2);
    NumberOfPad(t.hour, 2);
    NumberOfPad(t.minute, 2);
    NumberOfPad(t.second, 2);
  }

  /** Conversely, a string that parses is exactly the stamp of its time. */
  lemma {:induction false} FormatParse(s: string)
    requires Parse(s).Some?
    ensures ValidTimestamp(Parse(s).value) && Format(Parse(s).value) == s
  {
    var t := Parse(s).value;
    DigitFields(s);
    PadOfNumber(s[0..4]);
    PadOfNumber(s[4..6]);
    PadOfNumber(s[6..8]);
    PadOfNumber(s[9..11]);
    PadOfNumber(s[11..13]);
    PadOfNumber(s[13..15]);
    SplitStamp(s);
  }

  lemma DigitFields(s: string)
    requires |s| == 15 && AllDigits(s[..8]) && AllDigits(s[9..])
    ensures AllDigits(s[0..4]) && AllDigits(s[4..6]) && AllDigits(s[6..8])
    ensures AllDigits(s[9..11]) && AllDigits(s[11..13]) && AllDigits(s[13..15])
  {
    assert s[0..4] == s[..8][0..4] && s[4..6] == s[..8][4..6] && s[6..8] == s[..8][6..8];
    assert s[9..11] == s[9..][0..2] && s[11..13] == s[9..][2..4] && s[13..15] == s[9..][4..6];
  }

  lemma SplitStamp(s: string)
    requires |s| == 15 && s[8] == '_'
    ensures s == s[0..4] + s[4..6] + s[6..8] + "_" + s[9..11] + s[11..13] + s[13..15]
  {
  }

  // ---------------------------------------------------------------------------
  // Archive file names

  const Suffix := ".zip"

  predicate EndsWith(s: string, suffix: string)
  {
    |suffix| <= |s| && s[|s| - |suffix|..] == suffix
  }

  /** `<stamp>.zip`, the name a backup is stored under. */
  function ArchiveName(t: Timestamp): string
    requires ValidTimestamp(t)
  {
    Format(t) + Suffix
  }

  /** The name with its trailing `.zip` cut off. */
  function Stem(name: string): string
    requires EndsWith(name, Suffix)
  {
    name[..|name| - |Suffix|]
  }

  /** The time a file name in the backup folder stands for, if it is a backup at all. */
  function ParseArchiveName(name: string): Option<Timestamp>
  {
    if EndsWith(name, Suffix) then Parse(Stem(name)) else None
  }

  /** Rotation recognises every name the backup step writes, with its time. */
  lemma ParseArchiveNameOfArchiveName(t: Timestamp)
    requires ValidTimestamp(t)
    ensures ParseArchiveName(ArchiveName(t)) == Some(t)
  {
    var name := ArchiveName(t);
    assert name[|name| - 4..] == Suffix;
    assert Stem(name) == Format(t);
    ParseFormat(t);
  }

  /** Only names the backup step writes are recognised, so a backup's name is fixed
      by its time: two files in one folder never carry the same time. */
  lemma ArchiveNameDeterminedByTime(name: string)
    requires ParseArchiveName(name).Some?
    ensures ValidTimestamp(ParseArchiveName(name).value) && name == ArchiveName(ParseArchiveName(name).value)
  {
    FormatParse(Stem(name));
    assert name == Stem(name) + name[|name| - 4..];
  }

  /** The restore staging folder, `restore_<stamp>`. */
  function RestoreDirName(t: Timestamp): string
    requires ValidTimestamp(t)
  {
    "restore_" + Format(t)
  }

  // ---------------------------------------------------------------------------
  // The stem as the source computes it

  /** `s.replace(pat, "")`: every non-overlapping occurrence, scanning left to right. */
  function RemoveAll(s: string, pat: string): (r: string)
    requires |pat| > 0
    ensures |r| <= |s|
    decreases |s|
  {
    if |s| < |pat| then s
    else if s[..|pat|] == pat then RemoveAll(s[|pat|..], pat)
    else [s[0]] + RemoveAll(s[1..], pat)
  }

  /** What rotation takes for a backup's time: `strptime(f.replace('.zip', ''))`
      for names ending in `.zip`. */
  function ParseArchiveNameAsWritten(name: string): Option<Timestamp>
  {
    if EndsWith(name, Suffix) then Parse(RemoveAll(name, Suffix)) else None
  }

  /** `2024.zip0101_120000.zip`: not a name the backup step writes. */
  const ForeignName := "2024" + Suffix + "0101_120000" + Suffix

  /** Removing every `.zip`, not just the final one, lets a name that does not
      follow the naming convention pass for a backup of 1 January 2024, 12:00. */
  lemma ForeignNameParsedAsWritten()
    ensures ParseArchiveNameAsWritten(ForeignName) == Some(Timestamp(2024, 1, 1, 12, 0, 0))
    ensures ParseArchiveName(ForeignName) == None
  {
    var name := ForeignName;
    assert EndsWith(name, Suffix) by { assert name[|name| - 4..] == Suffix; }
    ForeignNameStem();
    var t := Timestamp(2024, 1, 1, 12, 0, 0);
    StampOfForeignName();
    ParseFormat(t);
    assert |Stem(name)| == 19;
  }

  lemma StampOfForeignName()
    ensures ValidTimestamp(Timestamp(2024, 1, 1, 12, 0, 0))
    ensures Format(Timestamp(2024, 1, 1, 12, 0, 0)) == "2024" + "0101_120000"
  {
    PadYear();
    PadSmall();
    var y, one, tw, z := Pad(2024, 4), Pad(1, 2), Pad(12, 2), Pad(0, 2);
    assert y + one + one + "_" + tw + z + z == "2024" + "0101_120000";
  }

  lemma PadYear()
    ensures Pad(2024, 4) == "2024"
  {
    assert Pad(2, 1) == "2";
    assert Pad(20, 2) == "20";
    assert Pad(202, 3) == "202";
  }

  lemma PadSmall()
    ensures Pad(1, 2) == "01" && Pad(12, 2) == "12" && Pad(0, 2) == "00"
  {
    assert Pad(0, 1) == "0" && Pad(1, 1) == "1";
  }

  lemma ForeignNameStem()
    ensures RemoveAll(ForeignName, Suffix) == "2024" + "0101_120000"
  {
    var a, b := "2024", "0101_120000";
    assert ForeignName == a + (Suffix + (b + Suffix));
    assert NoDot(a) && NoDot(b);
    RemoveAllPlainPrefix(a, Suffix + (b + Suffix), Suffix);
    RemoveAllMatch(b + Suffix, Suffix);
    RemoveAllPlainPrefix(b, Suffix, Suffix);
    RemoveAllMatch([], Suffix);
    assert Suffix + [] == Suffix;
    assert RemoveAll([], Suffix) == [];
  }

  /** Where the name does follow the convention, both readings agree. */
  lemma AsWrittenAgreesOnArchiveNames(t: Timestamp)
    requires ValidTimestamp(t)
    ensures ParseArchiveNameAsWritten(ArchiveName(t)) == ParseArchiveName(ArchiveName(t)) == Some(t)
  {
    var s := Format(t);
    ParseArchiveNameOfArchiveName(t);
    StampHasNoDot(s);
    RemoveAllPlainPrefix(s, Suffix, Suffix);
    RemoveAllMatch([], Suffix);
    assert RemoveAll(ArchiveName(t), Suffix) == s;
  }

  predicate NoDot(s: string)
  {
    forall i :: 0 <= i < |s| ==> s[i] != '.'
  }

  /** Stamps are digits and `_`, so they hold no `.zip`. */
  lemma StampHasNoDot(s: string)
    requires |s| == 15 && s[8] == '_' && AllDigits(s[..8]) && AllDigits(s[9..])
    ensures NoDot(s)
  {
    forall i | 0 <= i < |s| ensures s[i] != '.' {
      if i < 8 { assert s[..8][i] == s[i]; }
      else if i > 8 { assert s[9..][i - 9] == s[i]; }
    }
  }

  lemma RemoveAllMatch(rest: string, pat: string)
    requires |pat| > 0
    ensures RemoveAll(pat + rest, pat) == RemoveAll(rest, pat)
  {
    assert (pat + rest)[..|pat|] == pat;
    assert (pat + rest)[|pat|..] == rest;
  }

  /** A prefix without `.` passes through untouched when the pattern starts with `.`. */
  lemma {:induction false} RemoveAllPlainPrefix(s: string, rest: string, pat: string)
    requires |pat| > 0 && pat[0] == '.' && NoDot(s)
    ensures RemoveAll(s + rest, pat) == s + RemoveAll(rest, pat)
    decreases |s|
  {
    var w := s + rest;
    if |s| == 0 {
      assert w == rest;
    } else if |w| < |pat| {
      assert RemoveAll(w, pat) == w;
      assert RemoveAll(rest, pat) == rest;
    } else {
      assert w[..|pat|][0] == s[0] != pat[0];
      assert RemoveAll(w, pat) == [w[0]] + RemoveAll(w[1..], pat);
      assert w[1..] == s[1..] + rest;
      assert NoDot(s[1..]) by {
        forall k | 0 <= k < |s[1..]| ensures s[1..][k] != '.' { assert s[1..][k] == s[k + 1]; }
      }
      RemoveAllPlainPrefix(s[1..], rest, pat);
      assert s == [s[0]] + s[1..];
    }
  }
}
