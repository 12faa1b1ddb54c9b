/** `countdownText`: the remaining time to an exam as the card shows it.
    The clock is the explicit `now` (milliseconds) and the target is the
    already-parsed instant, `None` when the stored date does not parse. */
module Countdown {

  import opened Wrappers
  import opened Decimal
  import opened Duration

  /** What the countdown shows; the most significant non-zero unit picks the
      granularity and at most three units are shown. */
  datatype Countdown =
    | Invalid
    | Passed
    | DaysLeft(days: nat, hours: nat, minutes: nat)
    | HoursLeft(hours: nat, minutes: nat, seconds: nat)
    | MinutesLeft(minutes: nat, seconds: nat)

  const InvalidText := "Invalid date/time"
  const PassedText := "\U{2705} Started / Passed"

  /** Whole seconds left until `t`, for a target still in the future. */
  function SecondsLeft(t: int, now: int): nat
    requires t > now
  {
    (t - now) / MsPerSecond
  }

  /** The countdown for `target` at instant `now`: the invalid-date check
      comes first, then the passed check, then the format choice. */
  function CountdownOf(target: Option<int>, now: int): (c: Countdown)
    ensures c == Invalid <==> target.None?
    ensures c == Passed <==> target.Some? && target.value - now <= 0
    ensures c.DaysLeft? ==>
      && target.Some? && target.value > now
      && SecondsLeft(target.value, now) >= SecondsPerDay
      && 1 <= c.days && c.hours < 24 && c.minutes < 60
      && ((c.days * 24 + c.hours) * 60 + c.minutes) * 60 <= SecondsLeft(target.value, now)
      && SecondsLeft(target.value, now) < ((c.days * 24 + c.hours) * 60 + c.minutes + 1) * 60
    ensures c.HoursLeft? ==>
      && target.Some? && target.value > now
      && 1 <= c.hours < 24 && c.minutes < 60 && c.seconds < 60
      && (c.hours * 60 + c.minutes) * 60 + c.seconds == SecondsLeft(target.value, now)
    ensures c.MinutesLeft? ==>
      && target.Some? && target.value > now
      && c.minutes < 60 && c.seconds < 60
      && c.minutes * 60 + c.seconds == SecondsLeft(target.value, now)
  {
    match target
    case None => Invalid
    case Some(t) =>
      var ms := t - now;
      if ms <= 0 then Passed
      else
        var p := DiffToParts(ms);
        if p.d > 0 then DaysLeft(p.d, p.h, p.m)
        else if p.h > 0 then HoursLeft(p.h, p.m, p.s)
        else MinutesLeft(p.m, p.s)
  }

  /** The format follows the magnitude of the remaining time: a day or more
      shows days, an hour or more shows hours, anything less shows minutes. */
  lemma CountdownFormatByMagnitude(t: int, now: int)
    requires t > now
    ensures CountdownOf(Some(t), now).DaysLeft? <==> SecondsLeft(t, now) >= SecondsPerDay
    ensures CountdownOf(Some(t), now).HoursLeft? <==>
              SecondsPerHour <= SecondsLeft(t, now) < SecondsPerDay
    ensures CountdownOf(Some(t), now).MinutesLeft? <==> SecondsLeft(t, now) < SecondsPerHour
  {
  }

  /** The text the card shows for a countdown. */
  function Text(c: Countdown): string {
    match c
    case Invalid => InvalidText
    case Passed => PassedText
    case DaysLeft(d, h, m) => NatToString(d) + "d " + NatToString(h) + "h " + NatToString(m) + "m"
    case HoursLeft(h, m, s) => NatToString(h) + "h " + NatToString(m) + "m " + NatToString(s) + "s"
    case MinutesLeft(m, s) => NatToString(m) + "m " + NatToString(s) + "s"
  }

  /** `countdownText(targetISO)` with the clock and the parser lifted out.
      The text reads back as the countdown, and the two fixed texts appear
      exactly for an unparseable date and for a passed one. */
  function CountdownText(target: Option<int>, now: int): (r: string)
    ensures Parse(r) == Some(CountdownOf(target, now))
    ensures r == InvalidText <==> target.None?
    ensures r == PassedText <==> target.Some? && target.value - now <= 0
    ensures forall s :: Parse(s) == Some(CountdownOf(target, now)) ==> s == r
  {
    var c := CountdownOf(target, now);
    TextIsTheOnlyReading(c);
    ParseText(c);
    ParseText(Invalid);
    ParseText(Passed);
    Text(c)
  }

  /** `Some(rest)` when `s` starts with `lit`. */
  function Expect(s: string, lit: string): Option<string> {
    if lit <= s then Some(s[|lit|..]) else None
  }

  /** Reads the last `<n><unit>` group of a countdown text; nothing may follow. */
  function ReadLast(s: string, unit: char): Option<nat> {
    match ReadNat(s)
    case None => None
    case Some((n, rest)) => if rest == [unit] then Some(n) else None
  }

  /** Reads a `<n><unit> ` group of a countdown text. */
  function ReadGroup(s: string, unit: char): Option<(nat, string)> {
    match ReadNat(s)
    case None => None
    case Some((n, rest)) =>
      match Expect(rest, [unit, ' '])
      case None => None
      case Some(after) => Some((n, after))
  }

  /** The rest of a days text after `<d>d `. */
  function ParseDays(d: nat, s: string): Option<Countdown> {
    match ReadGroup(s, 'h')
    case None => None
    case Some((h, rest)) =>
      match ReadLast(rest, 'm')
      case None => None
      case Some(m) => Some(DaysLeft(d, h, m))
  }

  /** The rest of an hours text after `<h>h `. */
  function ParseHours(h: nat, s: string): Option<Countdown> {
    match ReadGroup(s, 'm')
    case None => None
    case Some((m, rest)) =>
      match ReadLast(rest, 's')
      case None => None
      case Some(sec) => Some(HoursLeft(h, m, sec))
  }

  /** The rest of a minutes text after `<m>m `. */
  function ParseMinutes(m: nat, s: string): Option<Countdown> {
    match ReadLast(s, 's')
    case None => None
    case Some(sec) => Some(MinutesLeft(m, sec))
  }

  /** Recovers the countdown from the text the card shows. */
  function Parse(s: string): Option<Countdown> {
    if s == InvalidText then Some(Invalid)
    else if s == PassedText then Some(Passed)
    else match ReadNat(s)
      case None => None
      case Some((n, rest)) => ParseUnits(n, rest)
  }

  /** Dispatches on the unit that follows the leading number. */
  function ParseUnits(n: nat, rest: string): Option<Countdown> {
    if "d " <= rest then ParseDays(n, rest[2..])
    else if "h " <= rest then ParseHours(n, rest[2..])
    else if "m " <= rest then ParseMinutes(n, rest[2..])
    else None
  }

  lemma ReadGroupOf(n: nat, unit: char, rest: string)
    requires !IsDigit(unit)
    ensures ReadGroup(NatToString(n) + [unit, ' '] + rest, unit) == Some((n, rest))
  {
    assert NatToString(n) + [unit, ' '] + rest == NatToString(n) + ([unit, ' '] + rest);
    ReadNatToString(n, [unit, ' '] + rest);
  }

  lemma ReadLastOf(n: nat, unit: char)
    requires !IsDigit(unit)
    ensures ReadLast(NatToString(n) + [unit], unit) == Some(n)
  {
    ReadNatToString(n, [unit]);
  }

  /** A text that starts with a rendered number is read by its units. */
  lemma ParseLead(n: nat, rest: string)
    requires rest != [] && !IsDigit(rest[0])
    ensures Parse(NatToString(n) + rest) == ParseUnits(n, rest)
  {
    var s := NatToString(n) + rest;
    NotSentinel(s);
    ReadNatToString(n, rest);
  }

  /** The unit after the leading number picks the reader. */
  lemma UnitsDispatch(n: nat, unit: char, tail: string)
    requires unit == 'd' || unit == 'h' || unit == 'm'
    ensures ParseUnits(n, [unit, ' '] + tail)
         == if unit == 'd' then ParseDays(n, tail)
            else if unit == 'h' then ParseHours(n, tail)
            else ParseMinutes(n, tail)
  {
    var rest := [unit, ' '] + tail;
    assert rest[2..] == tail;
    assert rest[..2] == [unit, ' '];
    assert rest[0] == unit;
    if unit == 'd' {
      assert "d " <= rest;
    } else if unit == 'h' {
      assert !("d " <= rest) && "h " <= rest;
    } else {
      assert !("d " <= rest) && !("h " <= rest) && "m " <= rest;
    }
  }

  /** Reading `<n><unit> <tail>`. */
  lemma ParseUnit(n: nat, unit: char, tail: string)
    requires unit == 'd' || unit == 'h' || unit == 'm'
    ensures Parse(NatToString(n) + [unit, ' '] + tail)
         == if unit == 'd' then ParseDays(n, tail)
            else if unit == 'h' then ParseHours(n, tail)
            else ParseMinutes(n, tail)
  {
    assert NatToString(n) + [unit, ' '] + tail == NatToString(n) + ([unit, ' '] + tail);
    ParseLead(n, [unit, ' '] + tail);
    UnitsDispatch(n, unit, tail);
  }

  /** Neither fixed text starts with a digit. */
  lemma NotSentinel(s: string)
    requires s != [] && IsDigit(s[0])
    ensures s != InvalidText && s != PassedText
  {
    assert !IsDigit(InvalidText[0]) && !IsDigit(PassedText[0]);
  }

  lemma ParseDaysText(d: nat, h: nat, m: nat)
    ensures Parse(Text(DaysLeft(d, h, m))) == Some(DaysLeft(d, h, m))
  {
    var last := NatToString(m) + "m";
    var tail := NatToString(h) + ['h', ' '] + last;
    assert Text(DaysLeft(d, h, m)) == NatToString(d) + ['d', ' '] + tail;
    ParseUnit(d, 'd', tail);
    ReadGroupOf(h, 'h', last);
    ReadLastOf(m, 'm');
  }

  lemma ParseHoursText(h: nat, m: nat, sec: nat)
    ensures Parse(Text(HoursLeft(h, m, sec))) == Some(HoursLeft(h, m, sec))
  {
    var last := NatToString(sec) + "s";
    var tail := NatToString(m) + ['m', ' '] + last;
    assert Text(HoursLeft(h, m, sec)) == NatToString(h) + ['h', ' '] + tail;
    ParseUnit(h, 'h', tail);
    ReadGroupOf(m, 'm', last);
    ReadLastOf(sec, 's');
  }

  lemma ParseMinutesText(m: nat, sec: nat)
    ensures Parse(Text(MinutesLeft(m, sec))) == Some(MinutesLeft(m, sec))
  {
    var tail := NatToString(sec) + "s";
    assert Text(MinutesLeft(m, sec)) == NatToString(m) + ['m', ' '] + tail;
    ParseUnit(m, 'm', tail);
    ReadLastOf(sec, 's');
  }

  /** The shown text determines the countdown: parsing it gives it back. */
  lemma ParseText(c: Countdown)
    ensures Parse(Text(c)) == Some(c)
  {
    match c
    case Invalid =>
    case Passed =>
    case DaysLeft(d, h, m) => ParseDaysText(d, h, m);
    case HoursLeft(h, m, sec) => ParseHoursText(h, m, sec);
    case MinutesLeft(m, sec) => ParseMinutesText(m, sec);
  }

  /** A `<n><unit> ` group that reads is a rendered number, the unit and a space. */
  lemma ReadGroupInverse(s: string, unit: char)
    requires ReadGroup(s, unit).Some?
    ensures var (n, rest) := ReadGroup(s, unit).value;
      s == NatToString(n) + [unit, ' '] + rest
  {
    ReadNatInverse(s);
    var (n, after) := ReadNat(s).value;
    var rest := ReadGroup(s, unit).value.1;
    assert after == [unit, ' '] + rest;
  }

  /** A final `<n><unit>` group that reads is a rendered number and the unit. */
  lemma ReadLastInverse(s: string, unit: char)
    requires ReadLast(s, unit).Some?
    ensures s == NatToString(ReadLast(s, unit).value) + [unit]
  {
    ReadNatInverse(s);
  }

  /** Concatenation regrouped from the right. */
  lemma Regroup(a: string, x: string, b: string, y: string, c: string, z: string)
    ensures a + x + b + y + c + z == a + x + (b + y + (c + z))
  {
  }

  /** The text of a days countdown, grouped from the right. */
  lemma DaysTextShape(d: nat, h: nat, m: nat)
    ensures Text(DaysLeft(d, h, m)) == NatToString(d) + "d " + (NatToString(h) + "h " + (NatToString(m) + "m"))
  {
    Regroup(NatToString(d), "d ", NatToString(h), "h ", NatToString(m), "m");
  }

  /** The text of an hours countdown, grouped from the right. */
  lemma HoursTextShape(h: nat, m: nat, sec: nat)
    ensures Text(HoursLeft(h, m, sec)) == NatToString(h) + "h " + (NatToString(m) + "m " + (NatToString(sec) + "s"))
  {
    Regroup(NatToString(h), "h ", NatToString(m), "m ", NatToString(sec), "s");
  }

  /** Two groups that read are two rendered numbers with their units. */
  lemma TwoGroupsInverse(t: string, u1: char, n1: nat, rest: string, u2: char, n2: nat)
    requires ReadGroup(t, u1) == Some((n1, rest)) && ReadLast(rest, u2) == Some(n2)
    ensures t == NatToString(n1) + [u1, ' '] + (NatToString(n2) + [u2])
  {
    ReadGroupInverse(t, u1);
    ReadLastInverse(rest, u2);
  }

  /** A days tail that reads renders back to itself. */
  lemma ParseDaysInverse(d: nat, t: string)
    requires ParseDays(d, t).Some?
    ensures Text(ParseDays(d, t).value) == NatToString(d) + "d " + t
  {
    var g := ReadGroup(t, 'h').value;
    var h, rest := g.0, g.1;
    var m := ReadLast(rest, 'm').value;
    assert ParseDays(d, t) == Some(DaysLeft(d, h, m));
    TwoGroupsInverse(t, 'h', h, rest, 'm', m);
    DaysTextShape(d, h, m);
  }

  /** An hours tail that reads renders back to itself. */
  lemma ParseHoursInverse(h: nat, t: string)
    requires ParseHours(h, t).Some?
    ensures Text(ParseHours(h, t).value) == NatToString(h) + "h " + t
  {
    var g := ReadGroup(t, 'm').value;
    var m, rest := g.0, g.1;
    var sec := ReadLast(rest, 's').value;
    assert ParseHours(h, t) == Some(HoursLeft(h, m, sec));
    TwoGroupsInverse(t, 'm', m, rest, 's', sec);
    HoursTextShape(h, m, sec);
  }

  /** A minutes tail that reads renders back to itself. */
  lemma ParseMinutesInverse(m: nat, t: string)
    requires ParseMinutes(m, t).Some?
    ensures Text(ParseMinutes(m, t).value) == NatToString(m) + "m " + t
  {
    ReadLastInverse(t, 's');
  }

  /** Putting back a prefix that was read off gives the whole. */
  lemma PrefixThenRest(a: string, p: string, rest: string)
    requires p <= rest
    ensures a + p + rest[|p|..] == a + rest
  {
    assert rest == p + rest[|p|..];
  }

  /** A days text after its leading number renders back. */
  lemma DaysUnitInverse(n: nat, rest: string)
    requires "d " <= rest && ParseDays(n, rest[2..]).Some?
    ensures ParseUnits(n, rest) == ParseDays(n, rest[2..])
    ensures Text(ParseDays(n, rest[2..]).value) == NatToString(n) + rest
  {
    ParseDaysInverse(n, rest[2..]);
    PrefixThenRest(NatToString(n), "d ", rest);
  }

  /** An hours text after its leading number renders back. */
  lemma HoursUnitInverse(n: nat, rest: string)
    requires !("d " <= rest) && "h " <= rest && ParseHours(n, rest[2..]).Some?
    ensures ParseUnits(n, rest) == ParseHours(n, rest[2..])
    ensures Text(ParseHours(n, rest[2..]).value) == NatToString(n) + rest
  {
    ParseHoursInverse(n, rest[2..]);
    PrefixThenRest(NatToString(n), "h ", rest);
  }

  /** A minutes text after its leading number renders back. */
  lemma MinutesUnitInverse(n: nat, rest: string)
    requires !("d " <= rest) && !("h " <= rest) && "m " <= rest && ParseMinutes(n, rest[2..]).Some?
    ensures ParseUnits(n, rest) == ParseMinutes(n, rest[2..])
    ensures Text(ParseMinutes(n, rest[2..]).value) == NatToString(n) + rest
  {
    ParseMinutesInverse(n, rest[2..]);
    PrefixThenRest(NatToString(n), "m ", rest);
  }

  /** Whatever follows the leading number, if it reads, renders back. */
  lemma ParseUnitsInverse(n: nat, rest: string)
    requires ParseUnits(n, rest).Some?
    ensures Text(ParseUnits(n, rest).value) == NatToString(n) + rest
  {
    if "d " <= rest {
      DaysUnitInverse(n, rest);
    } else if "h " <= rest {
      HoursUnitInverse(n, rest);
    } else {
      MinutesUnitInverse(n, rest);
    }
  }

  /** Only the shown texts parse: a string that reads as a countdown is that
      countdown's text. */
  lemma ParseOnlyTexts(s: string)
    requires Parse(s).Some?
    ensures Text(Parse(s).value) == s
  {
    if s != InvalidText && s != PassedText {
      ReadNatInverse(s);
      var (n, rest) := ReadNat(s).value;
      ParseUnitsInverse(n, rest);
    }
  }

  /** The text of a countdown is the one string that reads as it. */
  lemma TextIsTheOnlyReading(c: Countdown)
    ensures forall s :: Parse(s) == Some(c) ==> s == Text(c)
  {
    forall s | Parse(s) == Some(c) ensures s == Text(c) {
      ParseOnlyTexts(s);
    }
  }

  /** A padded number does not read: "01d 1h 1m" is not a countdown text. */
  lemma LeadingZeroRejected()
    ensures Parse("01d 1h 1m") == None
  {
    assert DigitRun("01d 1h 1m") == 2;
  }

  /** Distinct countdowns render to distinct texts. */
  lemma TextInjective(a: Countdown, b: Countdown)
    requires Text(a) == Text(b)
    ensures a == b
  {
    ParseText(a);
    ParseText(b);
  }

  /** The worked examples: 1d 1h 1m 1s drops its seconds, 1h 1m 1s and
      1m 1s show all their units, and a zero delta has passed. */
  lemma CountdownExamples(now: int)
    ensures CountdownText(Some(now + 90061000), now) == "1d 1h 1m"
    ensures CountdownText(Some(now + 3661000), now) == "1h 1m 1s"
    ensures CountdownText(Some(now + 61000), now) == "1m 1s"
    ensures CountdownText(Some(now), now) == PassedText
    ensures CountdownText(None, now) == InvalidText
  {
    TextExamples(now);
  }

  /** The worked examples on the rendering of the countdown value. */
  lemma TextExamples(now: int)
    ensures Text(CountdownOf(Some(now + 90061000), now)) == "1d 1h 1m"
    ensures Text(CountdownOf(Some(now + 3661000), now)) == "1h 1m 1s"
    ensures Text(CountdownOf(Some(now + 61000), now)) == "1m 1s"
    ensures Text(CountdownOf(Some(now), now)) == PassedText
    ensures Text(CountdownOf(None, now)) == InvalidText
  {
    assert DiffToParts(90061000) == Parts(1, 1, 1, 1) by {
      DiffToPartsOfTotal(Parts(1, 1, 1, 1), 90061000);
    }
    assert DiffToParts(3661000) == Parts(0, 1, 1, 1) by {
      DiffToPartsOfTotal(Parts(0, 1, 1, 1), 3661000);
    }
    assert DiffToParts(61000) == Parts(0, 0, 1, 1) by {
      DiffToPartsOfTotal(Parts(0, 0, 1, 1), 61000);
    }
  }
}
