/**
  Times of day as seconds since midnight: parsing typed text, splitting seconds into hours,
  minutes and seconds, and formatting with zero-padded parts.
 */
module Time {
  import opened Wrappers
  import opened Strings

  // ---------------------------------------------------------------------------
  // padding

  /** The text `padZeros` produces: `s` with zeros in front until it is `minLen` long. */
  function Padded(s: string, minLen: int): (r: string)
    ensures |r| == if minLen > |s| then minLen else |s|
    ensures r[|r| - |s|..] == s
    ensures forall i :: 0 <= i < |r| - |s| ==> r[i] == '0'
  {
    Zeros(if minLen > |s| then minLen - |s| else 0) + s
  }

  lemma ZeroInFront(k: nat, s: string)
    ensures "0" + (Zeros(k) + s) == Zeros(k + 1) + s
  {
    assert "0" + Zeros(k) == Zeros(k + 1);
  }

  /** `padZeros`: prepends `'0'` while the text is shorter than `minLen`. */
  method PadZeros(s: string, minLen: int) returns (r: string)
    ensures r == Padded(s, minLen)
  {
    r := s;
    ghost var k: nat := 0;
    ghost var need: nat := if minLen > |s| then minLen - |s| else 0;
    while |r| < minLen
      invariant r == Zeros(k) + s && |r| == |s| + k && k <= need
      decreases minLen - |r|
    {
      ZeroInFront(k, s);
      r := "0" + r;
      k := k + 1;
    }
    PaddedZeros(s, minLen, k);
  }

  lemma PaddedZeros(s: string, minLen: int, k: nat)
    requires k == if minLen > |s| then minLen - |s| else 0
    ensures Padded(s, minLen) == Zeros(k) + s
  {
  }

  // ---------------------------------------------------------------------------
  // parsing

  /** `.replace(/[\.,]/g, ':')`. */
  function ColonSeparators(s: string): (r: string)
    ensures |r| == |s|
    ensures forall i :: 0 <= i < |s| ==> r[i] == if s[i] == '.' || s[i] == ',' then ':' else s[i]
  {
    if s == [] then [] else [if s[0] == '.' || s[0] == ',' then ':' else s[0]] + ColonSeparators(s[1..])
  }

  /** The text the two patterns are matched against: lower-cased, without whitespace, `.` and `,` read as `:`. */
  function NormalizeTimeText(s: string): string {
    ColonSeparators(RemoveSpaces(ToLower(s)))
  }

  /** `/^(\d\d)(\d\d)$/`. */
  predicate IsFourDigits(t: string) {
    |t| == 4 && IsDigits(t)
  }

  /** `/^(\d+):(\d+)(:(\d+))?$/`: two or three non-empty digit groups separated by colons. */
  predicate IsColonParts(t: string) {
    var parts := Split(t, ':');
    (|parts| == 2 || |parts| == 3) && forall i :: 0 <= i < |parts| ==> |parts[i]| >= 1 && IsDigits(parts[i])
  }

  /**
    The number of seconds normalised text denotes: `HHMM`, or `H:M` / `H:M:S` with any number of
    digits per part and no range check; any other text denotes nothing.
   */
  function TimeOfText(t: string): Option<int> {
    if IsFourDigits(t) then Some(ParseDecimal(t[..2]) * 3600 + ParseDecimal(t[2..]) * 60)
    else if IsColonParts(t) then
      Some(GroupSeconds(Split(t, ':')))
    else None
  }

  /** The seconds two or three colon-separated groups denote: hours, minutes and optional seconds. */
  function GroupSeconds(groups: seq<string>): int
    requires |groups| >= 2
  {
    (if |groups| == 3 then ParseDecimal(groups[2]) else 0) + ParseDecimal(groups[1]) * 60 + ParseDecimal(groups[0]) * 3600
  }

  /** `timeParse`: nothing for a missing or empty input, otherwise the time its normalised text denotes. */
  method TimeParse(input: Option<string>) returns (r: Option<int>)
    ensures input.None? || input.value == "" ==> r.None?
    ensures input.Some? && input.value != "" ==> r == TimeOfText(NormalizeTimeText(input.value))
  {
    if input.None? || input.value == "" {
      return None;
    }
    var t := NormalizeTimeText(input.value);
    r := ParseNormalized(t);
  }

  /** The pattern matching of `timeParse` on normalised text. */
  method ParseNormalized(t: string) returns (r: Option<int>)
    ensures r == TimeOfText(t)
  {
    var hours, mins, secs;
    if IsFourDigits(t) {
      hours, mins, secs := ReadFourDigits(t);
    } else if IsColonParts(t) {
      hours, mins, secs := ReadColonParts(t);
    } else {
      return None;
    }
    r := Some(secs + mins * 60 + hours * 60 * 60);
    assert r == TimeOfText(t);
  }

  /** The groups of `/^(\d\d)(\d\d)$/`, read with `parseInt`. */
  method ReadFourDigits(t: string) returns (hours: int, mins: int, secs: int)
    requires IsFourDigits(t)
    ensures hours == ParseDecimal(t[..2]) && mins == ParseDecimal(t[2..]) && secs == 0
  {
    DigitsSlice(t, 0, 2);
    DigitsSlice(t, 2, 4);
    hours := ReadGroup(t[..2]);
    mins := ReadGroup(t[2..]);
    secs := 0;
  }

  /** `parseInt` of a group of digits: its decimal value. */
  method ReadGroup(group: string) returns (n: int)
    requires |group| >= 1 && IsDigits(group)
    ensures n == ParseDecimal(group)
  {
    ParseIntOfDigits(group);
    n := ParseInt(group).value;
  }

  lemma DigitsSlice(t: string, i: nat, j: nat)
    requires IsDigits(t) && i <= j <= |t|
    ensures IsDigits(t[i..j])
  {
  }

  /** The groups of `/^(\d+):(\d+)(:(\d+))?$/`, read with `parseInt`; no third group is zero seconds. */
  method ReadColonParts(t: string) returns (hours: int, mins: int, secs: int)
    requires IsColonParts(t)
    ensures var parts := Split(t, ':');
      hours == ParseDecimal(parts[0]) && mins == ParseDecimal(parts[1])
      && secs == if |parts| == 3 then ParseDecimal(parts[2]) else 0
  {
    var parts := Split(t, ':');
    hours := ReadGroup(parts[0]);
    mins := ReadGroup(parts[1]);
    secs := 0;
    if |parts| == 3 {
      secs := ReadGroup(parts[2]);
    }
  }

  /** Text with a character other than a digit or a colon (after normalisation) is not a time. */
  lemma {:induction false} StrayCharacterRejected(t: string, i: nat)
    requires i < |t| && !IsDigit(t[i]) && t[i] != ':'
    ensures TimeOfText(t) == None
  {
    if IsColonParts(t) {
      var parts := Split(t, ':');
      JoinSplit(t, ':');
      JoinHasOnlyPartChars(parts, ':', i);
    }
  }

  /** Every character of a join is the separator or a character of one of the parts. */
  lemma {:induction false} JoinHasOnlyPartChars(parts: seq<string>, sep: char, i: nat)
    requires i < |Join(parts, sep)|
    ensures Join(parts, sep)[i] == sep || exists j, k :: 0 <= j < |parts| && 0 <= k < |parts[j]| && parts[j][k] == Join(parts, sep)[i]
  {
    if |parts| > 1 {
      var rest := Join(parts[1..], sep);
      assert Join(parts, sep) == parts[0] + [sep] + rest;
      if i > |parts[0]| {
        JoinHasOnlyPartChars(parts[1..], sep, i - |parts[0]| - 1);
        var c := rest[i - |parts[0]| - 1];
        if c != sep {
          var j, k :| 0 <= j < |parts[1..]| && 0 <= k < |parts[1..][j]| && parts[1..][j][k] == c;
          assert parts[j + 1][k] == c;
        }
      }
    }
  }

  /** Text without a colon is a time only when it is exactly four digits: three digits are rejected. */
  lemma NoColonOnlyFourDigits(t: string)
    requires ':' !in t && !IsFourDigits(t)
    ensures TimeOfText(t) == None
  {
  }

  /** More than three colon-separated groups are rejected. */
  lemma FourGroupsRejected(t: string)
    requires |Split(t, ':')| > 3
    ensures TimeOfText(t) == None
  {
  }

  /** The colon shapes have no range check: `"25:70"` is twenty-five hours and seventy minutes. */
  lemma NoRangeCheck()
    ensures TimeOfText("25:70") == Some(25 * 3600 + 70 * 60)
  {
    var groups := ["25", "70"];
    JoinTwo("25", "70", ':');
    assert Join(groups, ':') == "25:70";
    TwoDigitValue("25");
    TwoDigitValue("70");
    JoinedGroupsTime(groups);
  }

  lemma TwoDigitValue(s: string)
    requires |s| == 2
    ensures ParseDecimal(s) == 10 * DigitValue(s[0]) + DigitValue(s[1])
  {
    var first := s[..1];
    assert ParseDecimal(s) == ParseRadix(first, 10) * 10 + DigitValue(s[1]);
    assert first[..0] == [];
    assert ParseRadix(first, 10) == DigitValue(s[0]);
  }

  // ---------------------------------------------------------------------------
  // splitting

  /** `Math.ceil(x / b)` for non-negative `x`. */
  function CeilDiv(x: nat, b: nat): int
    requires b > 0
  {
    (x + b - 1) / b
  }

  /**
    `quotientAndRemainder`: `-Math.ceil(-a / b)` for negative `a`, `Math.floor(a / b)` otherwise.
    Both branches are floor division, so the remainder is never negative.
   */
  function QuotientAndRemainder(a: int, b: nat): (qr: (int, int))
    requires b > 0
    ensures qr.0 == a / b && qr.1 == a % b
    ensures 0 <= qr.1 < b && a == b * qr.0 + qr.1
  {
    var q: int := if a < 0 then -CeilDiv(-a, b) else a / b;
    CeilIsNegatedFloor(a, b);
    (q, a - b * q)
  }

  lemma CeilIsNegatedFloor(a: int, b: nat)
    requires b > 0
    ensures a < 0 ==> -CeilDiv(-a, b) == a / b
  {
    if a >= 0 {
      return;
    }
    var x: nat := -a;
    var c := CeilDiv(x, b);
    assert c * b >= x && (c - 1) * b < x by {
      assert (x + b - 1) == c * b + (x + b - 1) % b;
    }
    var q := -c;
    var r := a - b * q;
    assert 0 <= r < b;
    assert a == b * q + r;
    DivUnique(a, b, q, r);
  }

  lemma DivUnique(a: int, b: nat, q: int, r: int)
    requires b > 0 && a == b * q + r && 0 <= r < b
    ensures a / b == q && a % b == r
  {
    var q', r' := a / b, a % b;
    assert a == b * q' + r' && 0 <= r' < b;
    assert b * (q - q') == r' - r;
    if q - q' >= 1 {
      MulAtLeast(b, q - q');
    } else if q' - q >= 1 {
      MulAtLeast(b, q' - q);
    }
  }

  lemma MulAtLeast(b: nat, k: int)
    requires k >= 1
    ensures b * k >= b
  {
  }

  /**
    `timeSplit`: seconds wrap into minutes, minutes into hours and hours modulo a day, for every
    integer input, negative ones included.
   */
  method TimeSplit(secondsSinceMidnight: int) returns (hours: int, mins: int, secs: int)
    ensures 0 <= secs < 60 && 0 <= mins < 60 && 0 <= hours < 24
    ensures 3600 * hours + 60 * mins + secs == secondsSinceMidnight % 86400
  {
    var qr := QuotientAndRemainder(secondsSinceMidnight, 60);
    mins, secs := qr.0, qr.1;
    ghost var m0 := mins;
    qr := QuotientAndRemainder(mins, 60);
    hours, mins := qr.0, qr.1;
    ghost var h0 := hours;
    qr := QuotientAndRemainder(hours, 24);
    hours := qr.1;
    DayWrap(secondsSinceMidnight, m0, h0, qr.0, hours, mins, secs);
  }

  lemma DayWrap(n: int, m0: int, h0: int, d: int, hours: int, mins: int, secs: int)
    requires n == 60 * m0 + secs && m0 == 60 * h0 + mins && h0 == 24 * d + hours
    requires 0 <= secs < 60 && 0 <= mins < 60 && 0 <= hours < 24
    ensures 3600 * hours + 60 * mins + secs == n % 86400
  {
    assert n == 86400 * d + (3600 * hours + 60 * mins + secs);
    DivUnique(n, 86400, d, 3600 * hours + 60 * mins + secs);
  }

  // ---------------------------------------------------------------------------
  // formatting

  /** The padded parts `timeFormat` joins: hours, minutes and, only when given, seconds. */
  function FormatParts(hours: int, mins: int, secs: Option<int>): seq<string> {
    var h, m := Padded(IntToString(hours), 2), Padded(IntToString(mins), 2);
    if secs.Some? then [h, m, Padded(IntToString(secs.value), 2)] else [h, m]
  }

  /** `timeFormat`: the padded parts joined by `:`. */
  function TimeFormat(hours: int, mins: int, secs: Option<int>): string {
    Join(FormatParts(hours, mins, secs), ':')
  }

  /** The formatted text: hours and minutes zero-padded to at least two characters, then `:` and the seconds only when given. */
  lemma TimeFormatText(hours: int, mins: int, secs: Option<int>)
    ensures secs.None? ==> TimeFormat(hours, mins, secs) == Padded(IntToString(hours), 2) + ":" + Padded(IntToString(mins), 2)
    ensures secs.Some? ==> (TimeFormat(hours, mins, secs)
      == Padded(IntToString(hours), 2) + ":" + Padded(IntToString(mins), 2) + ":" + Padded(IntToString(secs.value), 2))
  {
    var h, m := Padded(IntToString(hours), 2), Padded(IntToString(mins), 2);
    if secs.Some? {
      JoinThree(h, m, Padded(IntToString(secs.value), 2), ':');
    } else {
      JoinTwo(h, m, ':');
    }
  }

  lemma JoinTwo(a: string, b: string, sep: char)
    ensures Join([a, b], sep) == a + [sep] + b
  {
    assert [a, b][1..] == [b];
  }

  lemma JoinThree(a: string, b: string, c: string, sep: char)
    ensures Join([a, b, c], sep) == a + [sep] + b + [sep] + c
  {
    assert [a, b, c][1..] == [b, c];
    JoinTwo(b, c, sep);
  }

  /** A non-empty run of digits, as `\d+` matches it. */
  predicate IsGroup(g: string) {
    |g| >= 1 && IsDigits(g)
  }

  /** A padded decimal spelling of a non-negative integer: a group of digits that reads back as the number. */
  lemma PaddedNumber(n: nat)
    ensures var p := Padded(IntToString(n), 2);
      |p| >= 2 && IsDigits(p) && ParseDecimal(p) == n
  {
    NatToStringCanonical(n);
    var s := NatToString(n);
    assert IntToString(n) == s;
    PaddedDigits(s, 2);
    ParseLeadingZeros(if 2 > |s| then 2 - |s| else 0, s);
  }

  lemma PaddedDigits(s: string, minLen: int)
    requires IsDigits(s)
    ensures IsDigits(Padded(s, minLen))
  {
    var p := Padded(s, minLen);
    var k := |p| - |s|;
    forall i | 0 <= i < |p| ensures IsDigit(p[i]) {
      if i >= k {
        assert p[i] == p[k..][i - k];
      }
    }
  }

  /** The parts of formatted non-negative numbers are groups that read back as the numbers. */
  lemma FormatPartsGroups(hours: int, mins: int, secs: Option<int>)
    requires hours >= 0 && mins >= 0 && (secs.Some? ==> secs.value >= 0)
    ensures var parts := FormatParts(hours, mins, secs);
      && (|parts| == 2 || |parts| == 3) && (|parts| == 3 <==> secs.Some?)
      && (forall i :: 0 <= i < |parts| ==> IsGroup(parts[i]))
      && GroupSeconds(parts) == SecondsOf(hours, mins, secs)
  {
    var h, m := Padded(IntToString(hours), 2), Padded(IntToString(mins), 2);
    PaddedNumber(hours);
    PaddedNumber(mins);
    if secs.Some? {
      var sc := Padded(IntToString(secs.value), 2);
      PaddedNumber(secs.value);
      GroupsOfThree(h, m, sc);
    } else {
      GroupsOfTwo(h, m);
    }
  }

  lemma GroupsOfTwo(h: string, m: string)
    requires IsGroup(h) && IsGroup(m)
    ensures forall i :: 0 <= i < |[h, m]| ==> IsGroup([h, m][i])
    ensures GroupSeconds([h, m]) == ParseDecimal(m) * 60 + ParseDecimal(h) * 3600
  {
  }

  lemma GroupsOfThree(h: string, m: string, sc: string)
    requires IsGroup(h) && IsGroup(m) && IsGroup(sc)
    ensures forall i :: 0 <= i < |[h, m, sc]| ==> IsGroup([h, m, sc][i])
    ensures GroupSeconds([h, m, sc]) == ParseDecimal(sc) + ParseDecimal(m) * 60 + ParseDecimal(h) * 3600
  {
  }

  lemma DigitsNoColon(g: string)
    requires IsDigits(g)
    ensures ':' !in g
  {
    forall i | 0 <= i < |g| ensures g[i] != ':' {
      assert IsDigit(g[i]);
    }
  }

  /** Text made of digits and colons is left alone by normalisation. */
  lemma NormalizeKeeps(t: string)
    requires forall i :: 0 <= i < |t| ==> IsDigit(t[i]) || t[i] == ':'
    ensures NormalizeTimeText(t) == t
  {
    assert ToLower(t) == t;
    assert RemoveSpaces(t) == t;
  }

  /** Groups joined by colons are made of digits and colons only, so normalisation leaves them alone. */
  lemma JoinedGroupsNormal(groups: seq<string>)
    requires forall i :: 0 <= i < |groups| ==> IsGroup(groups[i])
    ensures NormalizeTimeText(Join(groups, ':')) == Join(groups, ':')
  {
    var t := Join(groups, ':');
    forall i | 0 <= i < |t| ensures IsDigit(t[i]) || t[i] == ':' {
      JoinedGroupChar(groups, i);
    }
    NormalizeKeeps(t);
  }

  lemma {:induction false} JoinedGroupChar(groups: seq<string>, i: nat)
    requires forall i :: 0 <= i < |groups| ==> IsGroup(groups[i])
    requires i < |Join(groups, ':')|
    ensures IsDigit(Join(groups, ':')[i]) || Join(groups, ':')[i] == ':'
  {
    assert IsGroup(groups[0]);
    if |groups| > 1 {
      assert Join(groups, ':') == groups[0] + [':'] + Join(groups[1..], ':');
      if i > |groups[0]| {
        JoinedGroupChar(groups[1..], i - |groups[0]| - 1);
      }
    }
  }

  /** Two or three groups joined by colons split back into the groups and denote the seconds they spell. */
  lemma JoinedGroupsTime(groups: seq<string>)
    requires |groups| == 2 || |groups| == 3
    requires forall i :: 0 <= i < |groups| ==> IsGroup(groups[i])
    ensures Split(Join(groups, ':'), ':') == groups
    ensures TimeOfText(Join(groups, ':')) == Some(GroupSeconds(groups))
  {
    var t := Join(groups, ':');
    forall i | 0 <= i < |groups| ensures ':' !in groups[i] {
      DigitsNoColon(groups[i]);
    }
    SplitJoin(groups, ':');
    assert IsColonParts(t);
    ColonAfterFirstGroup(groups);
    assert !IsDigit(t[|groups[0]|]);
  }

  lemma ColonAfterFirstGroup(groups: seq<string>)
    requires |groups| >= 2
    ensures |groups[0]| < |Join(groups, ':')| && Join(groups, ':')[|groups[0]|] == ':'
  {
    assert groups == [groups[0]] + groups[1..];
    JoinCons(groups[0], groups[1..], ':');
  }

  /** The number of seconds since midnight that hours, minutes and optional seconds denote. */
  function SecondsOf(hours: int, mins: int, secs: Option<int>): int {
    3600 * hours + 60 * mins + (if secs.Some? then secs.value else 0)
  }

  /** Formatting then parsing gives back the seconds the parts denote, with or without seconds. */
  lemma FormatParseRoundTrip(hours: int, mins: int, secs: Option<int>)
    requires hours >= 0 && mins >= 0 && (secs.Some? ==> secs.value >= 0)
    ensures NormalizeTimeText(TimeFormat(hours, mins, secs)) == TimeFormat(hours, mins, secs)
    ensures Split(TimeFormat(hours, mins, secs), ':') == FormatParts(hours, mins, secs)
    ensures TimeOfText(TimeFormat(hours, mins, secs)) == Some(SecondsOf(hours, mins, secs))
  {
    var parts := FormatParts(hours, mins, secs);
    FormatPartsGroups(hours, mins, secs);
    JoinedGroupsNormal(parts);
    FormattedTime(hours, mins, secs);
  }

  lemma FormattedTime(hours: int, mins: int, secs: Option<int>)
    requires hours >= 0 && mins >= 0 && (secs.Some? ==> secs.value >= 0)
    ensures Split(TimeFormat(hours, mins, secs), ':') == FormatParts(hours, mins, secs)
    ensures TimeOfText(TimeFormat(hours, mins, secs)) == Some(SecondsOf(hours, mins, secs))
  {
    FormatPartsGroups(hours, mins, secs);
    JoinedGroupsTime(FormatParts(hours, mins, secs));
  }

  /** Splitting any number of seconds, formatting and parsing again gives it back modulo a day. */
  lemma SplitFormatParse(n: int, hours: int, mins: int, secs: int)
    requires 0 <= secs < 60 && 0 <= mins < 60 && 0 <= hours < 24
    requires 3600 * hours + 60 * mins + secs == n % 86400
    ensures TimeOfText(TimeFormat(hours, mins, Some(secs))) == Some(n % 86400)
  {
    FormattedTime(hours, mins, Some(secs));
    DayRemainderSeconds(n, hours, mins, secs);
  }

  lemma DayRemainderSeconds(n: int, hours: int, mins: int, secs: int)
    requires 3600 * hours + 60 * mins + secs == n % 86400
    ensures SecondsOf(hours, mins, Some(secs)) == n % 86400
  {
  }
}
