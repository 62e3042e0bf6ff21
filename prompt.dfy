/**
  The system prompt: the stripped profile text, the stripped base text, and an environment
  header saying when it is ("Sunday, November 3rd, 1:45PM") and where the conversation happens,
  joined with blank lines.
*/
module Prompt {
  import opened Wrappers
  import opened Text
  import opened Chat

  /** The local time the header describes, as the clock reports it: weekday 0 is Monday and 6
      is Sunday, months count from 1, hours run 0..23. */
  datatype Moment = Moment(weekday: nat, month: nat, day: nat, hour: nat, minute: nat)

  predicate ValidMoment(m: Moment)
  {
    m.weekday < 7 && 1 <= m.month <= 12 && 1 <= m.day <= 31 && m.hour < 24 && m.minute < 60
  }

  // ---------------------------------------------------------------- the ordinal suffix

  /** "th" for 10 to 20, otherwise by the last digit: 1st, 2nd, 3rd, and "th" for the rest. On
      every day of a month this is the English ordinal suffix. */
  function OrdinalSuffix(day: nat): (suffix: string)
    ensures 1 <= day <= 31 ==> suffix == EnglishSuffix(day)
  {
    if 10 <= day <= 20 then "th"
    else if day % 10 == 1 then "st"
    else if day % 10 == 2 then "nd"
    else if day % 10 == 3 then "rd"
    else "th"
  }

  /** The English rule, stated independently: numbers whose last two digits are 11, 12 or 13
      take "th"; otherwise a last digit of 1, 2 or 3 takes "st", "nd" or "rd". */
  function EnglishSuffix(n: nat): string
  {
    if 11 <= n % 100 <= 13 then "th"
    else if n % 10 == 1 then "st"
    else if n % 10 == 2 then "nd"
    else if n % 10 == 3 then "rd"
    else "th"
  }

  // ---------------------------------------------------------------- the time of day

  /** The hour on a 12-hour clock face. */
  function Hour12(h: nat): (r: nat)
    requires h < 24
    ensures 1 <= r <= 12
    ensures r % 12 == h % 12
  {
    if h % 12 == 0 then 12 else h % 12
  }

  /** Two decimal digits, zero padded. */
  function Pad2(n: nat): (r: string)
    requires n < 100
    ensures |r| == 2 && IsDigit(r[0]) && IsDigit(r[1])
    ensures DecimalValue(r) == n
  {
    var r := [DigitChar(n / 10), DigitChar(n % 10)];
    assert DecimalValue(r[..1]) == n / 10 by {
      assert r[..1] == NatToString(n / 10);
      DecimalRoundTrip(n / 10);
    }
    assert DigitChar(n % 10) as int - '0' as int == n % 10 by {
      DecimalRoundTrip(n % 10);
      assert [DigitChar(n % 10)][..0] == [];
    }
    r
  }

  function Meridiem(h: nat): string
  {
    if h < 12 then "AM" else "PM"
  }

  /** `s` with every leading `c` removed. */
  function LStrip(s: string, c: char): (r: string)
    ensures |r| <= |s| && r == s[|s| - |r|..]
    ensures r == [] || r[0] != c
    ensures forall k :: 0 <= k < |s| - |r| ==> s[k] == c
    decreases |s|
  {
    if s != [] && s[0] == c then LStrip(s[1..], c) else s
  }

  /** The 12-hour time, hour zero padded and then unpadded: "01:45PM" becomes "1:45PM". */
  function TimeText(h: nat, m: nat): string
    requires h < 24 && m < 60
  {
    LStrip(Pad2(Hour12(h)) + ":" + Pad2(m) + Meridiem(h), '0')
  }

  lemma LStripOneZero(x: char, rest: string)
    requires x != '0'
    ensures LStrip(['0', x] + rest, '0') == [x] + rest
  {
    var s := ['0', x] + rest;
    assert s[1..] == [x] + rest;
  }

  /** A one-digit hour is padded with a single zero. */
  lemma PaddedOneDigit(n: nat)
    requires 1 <= n < 10
    ensures Pad2(n) == ['0'] + NatToString(n) && NatToString(n)[0] != '0'
  {
    DecimalRoundTrip(n);
    assert NatToString(n)[..0] == [];
  }

  /** A two-digit hour is not padded. */
  lemma PaddedTwoDigits(n: nat)
    requires 10 <= n < 20
    ensures Pad2(n) == NatToString(n)
  {
    assert NatToString(n) == NatToString(n / 10) + [DigitChar(n % 10)];
    assert NatToString(n / 10) == "1";
  }

  /** The hour's padding: one zero in front of a single digit, none in front of two. */
  lemma HourPadding(n: nat)
    requires 1 <= n <= 12
    ensures NatToString(n)[0] != '0'
    ensures Pad2(n) == NatToString(n) || Pad2(n) == ['0'] + NatToString(n)
  {
    if n < 10 { PaddedOneDigit(n); } else { PaddedTwoDigits(n); }
  }

  /** Unpadding a time whose hour was padded with at most one zero. */
  lemma UnpadTime(pad: string, digits: string, mm: string, mer: string)
    requires digits != [] && digits[0] != '0'
    requires pad == digits || pad == ['0'] + digits
    ensures LStrip(pad + ":" + mm + mer, '0') == digits + ":" + mm + mer
  {
    var rest := ":" + mm + mer;
    assert pad + ":" + mm + mer == pad + rest;
    assert digits + ":" + mm + mer == digits + rest;
    if pad != digits {
      assert (pad + rest)[1..] == digits + rest;
    }
  }

  /** Removing the leading zeros leaves the hour in plain decimal: one digit before 10, two
      from 10 on, and never a zero in front; the minutes keep their padding. */
  lemma TimeTextShape(h: nat, m: nat)
    requires h < 24 && m < 60
    ensures TimeText(h, m) == NatToString(Hour12(h)) + ":" + Pad2(m) + Meridiem(h)
  {
    HourPadding(Hour12(h));
    UnpadTime(Pad2(Hour12(h)), NatToString(Hour12(h)), Pad2(m), Meridiem(h));
  }

  /** Reads a time written as "H:MMAM" or "H:MMPM" back into a 24-hour (hour, minute). */
  function ClockOf(t: string): Option<(nat, nat)>
  {
    var k := Find(t, ":");
    if k < 1 || |t| != k + 5 then None
    else if !(forall i :: 0 <= i < k ==> IsDigit(t[i])) then None
    else if !IsDigit(t[k + 1]) || !IsDigit(t[k + 2]) then None
    else if t[k + 3..] != "AM" && t[k + 3..] != "PM" then None
    else
      var h12 := DecimalValue(t[..k]);
      var minute := DecimalValue(t[k + 1..k + 3]);
      if h12 < 1 || 12 < h12 || 60 <= minute then None
      else Some((h12 % 12 + (if t[k + 3..] == "PM" then 12 else 0), minute))
  }

  /** Reading back text laid out as the time text is: the hour digits, a colon, two minute
      digits and the meridiem. */
  lemma ClockOfLayout(digits: string, mm: string, mer: string)
    requires digits != [] && forall i :: 0 <= i < |digits| ==> IsDigit(digits[i])
    requires 1 <= DecimalValue(digits) <= 12
    requires |mm| == 2 && IsDigit(mm[0]) && IsDigit(mm[1]) && DecimalValue(mm) < 60
    requires mer == "AM" || mer == "PM"
    ensures ClockOf(digits + ":" + mm + mer) ==
      Some((DecimalValue(digits) % 12 + (if mer == "PM" then 12 else 0), DecimalValue(mm)))
  {
    var t := digits + ":" + mm + mer;
    var k := |digits|;
    assert OccursAt(t, ":", k) by { assert t[k..k + 1] == ":"; }
    forall i | 0 <= i < k ensures !OccursAt(t, ":", i) {
      assert t[i..i + 1][0] == digits[i];
    }
    FindIs(t, ":", k);
    assert t[..k] == digits;
    assert t[k + 1..k + 3] == mm;
    assert t[k + 3..] == mer;
  }

  /** The time text determines the time: reading it back gives the hour and minute it was
      written from. */
  lemma TimeTextRoundTrip(h: nat, m: nat)
    requires h < 24 && m < 60
    ensures ClockOf(TimeText(h, m)) == Some((h, m))
  {
    var digits, mm, mer := NatToString(Hour12(h)), Pad2(m), Meridiem(h);
    TimeTextShape(h, m);
    DecimalRoundTrip(Hour12(h));
    ClockOfLayout(digits, mm, mer);
    DialHour(h);
  }

  /** The 12-hour dial reading and the meridiem give back the 24-hour hour. */
  lemma DialHour(h: nat)
    requires h < 24
    ensures Hour12(h) % 12 + (if Meridiem(h) == "PM" then 12 else 0) == h
  {
    if h < 12 {
      assert Meridiem(h) != "PM" by { assert "AM"[0] != "PM"[0]; }
    }
  }

  // ---------------------------------------------------------------- the date

  /** Weekday names as the C locale's `%A` gives them. */
  function WeekdayName(d: nat): string
    requires d < 7
  {
    ["Monday", "Tuesday", "Wednesday", "Thursday", "Friday", "Saturday", "Sunday"][d]
  }

  /** Month names as the C locale's `%B` gives them. */
  function MonthName(m: nat): string
    requires 1 <= m <= 12
  {
    ["January", "February", "March", "April", "May", "June", "July", "August", "September",
     "October", "November", "December"][m - 1]
  }

  /** "<weekday>, <month> <day><suffix>, <time>": the day in plain decimal with its English
      ordinal suffix, the time as the unpadded clock-face hour, two-digit minutes and AM or PM. */
  function DateText(m: Moment): (date: string)
    requires ValidMoment(m)
    ensures date == WeekdayName(m.weekday) + ", " + MonthName(m.month) + " " + NatToString(m.day)
      + EnglishSuffix(m.day) + ", " + (NatToString(Hour12(m.hour)) + ":" + Pad2(m.minute) + Meridiem(m.hour))
  {
    TimeTextShape(m.hour, m.minute);
    WeekdayName(m.weekday) + ", " + MonthName(m.month) + " " + NatToString(m.day)
      + OrdinalSuffix(m.day) + ", " + TimeText(m.hour, m.minute)
  }

  /** A quarter to two in the afternoon. */
  lemma TimeExample()
    ensures TimeText(13, 45) == "1:45PM"
  {
    assert NatToString(1) == "1" && Pad2(45) == "45";
    assert Hour12(13) == 1;
    TimeTextShape(13, 45);
  }

  /** The date's pieces glued together. */
  lemma ExampleGlue()
    ensures "Sunday" + ", " + "November" + " " + "3" + "rd" + ", " + "1:45PM" == "Sunday, November 3rd, 1:45PM"
  {
  }

  /** The date of a Sunday, the third of November, at 13:45. */
  lemma DateExample()
    ensures DateText(Moment(6, 11, 3, 13, 45)) == "Sunday, November 3rd, 1:45PM"
  {
    var time := TimeText(13, 45);
    assert time == "1:45PM" by { TimeExample(); }
    var day := NatToString(3);
    assert day == "3";
    var weekday, month, suffix := WeekdayName(6), MonthName(11), OrdinalSuffix(3);
    assert weekday == "Sunday" && month == "November" && suffix == "rd";
    assert DateText(Moment(6, 11, 3, 13, 45)) == weekday + ", " + month + " " + day + suffix + ", " + time;
    ExampleGlue();
  }

  // ---------------------------------------------------------------- where, and the header

  /** Where the conversation happens: a direct message; a named channel, with its server when
      the server has a name; and otherwise just Discord. No context at all reads as Discord. */
  function Location(env: Option<EnvContext>): (location: string)
    ensures location == "in a DM" <==> env.Some? && env.value.kind == DM
    ensures StartsWith(location, "in #") <==>
      env.Some? && env.value.kind != DM && env.value.channelName.Some? && env.value.channelName.value != []
    ensures location == "in Discord" <==>
      env.None? || (env.value.kind != DM && (env.value.channelName.None? || env.value.channelName.value == []))
  {
    if env.Some? && env.value.kind == DM then
      assert "in a DM"[3] == 'a' && "in a DM"[..4] == "in a";
      "in a DM"
    else if env.Some? && env.value.channelName.Some? && env.value.channelName.value != [] then
      var place := "in #" + env.value.channelName.value
        + (if env.value.serverName.Some? && env.value.serverName.value != []
           then " on " + env.value.serverName.value else "");
      assert place[..4] == "in #" && place[3] == '#';
      place
    else
      assert "in Discord"[3] == 'D' && "in Discord"[..4] == "in D";
      "in Discord"
  }

  function Header(m: Moment, env: Option<EnvContext>): string
    requires ValidMoment(m)
  {
    "# Current Context\nIt's " + DateText(m) + ". This conversation is happening " + Location(env) + "."
  }

  /** The header of a direct message on a Sunday, the third of November, at 13:45. */
  lemma HeaderExample(env: EnvContext)
    requires env.kind == DM
    ensures Header(Moment(6, 11, 3, 13, 45), Some(env)) ==
      "# Current Context\nIt's " + "Sunday, November 3rd, 1:45PM" + ". This conversation is happening "
      + "in a DM" + "."
  {
    var date := DateText(Moment(6, 11, 3, 13, 45));
    assert date == "Sunday, November 3rd, 1:45PM" by { DateExample(); }
    var location := Location(Some(env));
    assert location == "in a DM";
    assert Header(Moment(6, 11, 3, 13, 45), Some(env)) ==
      "# Current Context\nIt's " + date + ". This conversation is happening " + location + ".";
  }

  // ---------------------------------------------------------------- the system prompt

  /** The profile text and the base text as loaded (stripped), then the header, joined with a
      blank line between each. */
  function SystemPrompt(profile: string, base: string, m: Moment, env: Option<EnvContext>): (prompt: string)
    requires ValidMoment(m)
    ensures prompt == Strip(profile) + "\n\n" + Strip(base) + "\n\n" + Header(m, env)
  {
    JoinThree(Strip(profile), Strip(base), Header(m, env), "\n\n");
    Join([Strip(profile), Strip(base), Header(m, env)], "\n\n")
  }
}
