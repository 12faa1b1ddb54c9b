/** `urgencyClass`: the emphasis a card gets from the time left until its
    exam, with the clock passed in as `now` (milliseconds). */
module Urgency {

  import opened Wrappers
  import opened Duration
  import Countdown

  datatype Urgency = Calm | Warn | DangerSoon

  const DangerHours: nat := 2
  const WarnHours: nat := 24

  /** The remaining time in hours, as the source computes it by dividing the
      millisecond delta (here exactly, over the reals). */
  function HoursRemaining(t: int, now: int): real {
    (t - now) as real / MsPerHour as real
  }

  /** The urgency of a card. An unparseable target is `Calm`, since every
      comparison with NaN is false. Both thresholds are inclusive. */
  function UrgencyOf(target: Option<int>, now: int): (u: Urgency)
    ensures target.None? ==> u == Calm
    ensures u == DangerSoon <==>
              target.Some? && target.value - now > 0 && HoursRemaining(target.value, now) <= DangerHours as real
    ensures u == Warn <==>
              && target.Some? && target.value - now > 0
              && DangerHours as real < HoursRemaining(target.value, now) <= WarnHours as real
  {
    match target
    case None => Calm
    case Some(t) =>
      var ms := t - now;
      if ms <= 0 then Calm
      else if ms <= DangerHours * MsPerHour then DangerSoon
      else if ms <= WarnHours * MsPerHour then Warn
      else Calm
  }

  /** The CSS class the card gets. */
  function ClassName(u: Urgency): string {
    match u
    case Calm => ""
    case Warn => "warn"
    case DangerSoon => "dangerSoon"
  }

  /** `urgencyClass(targetISO)` with the clock and the parser lifted out:
      "dangerSoon" up to two hours ahead, "warn" up to a day ahead, and no
      class for a passed, distant or unparseable date. */
  function UrgencyClass(target: Option<int>, now: int): (r: string)
    ensures r == "dangerSoon" <==>
              target.Some? && target.value - now > 0 && HoursRemaining(target.value, now) <= DangerHours as real
    ensures r == "warn" <==>
              && target.Some? && target.value - now > 0
              && DangerHours as real < HoursRemaining(target.value, now) <= WarnHours as real
    ensures r == "" <==>
              || target.None? || target.value - now <= 0
              || HoursRemaining(target.value, now) > WarnHours as real
  {
    ClassName(UrgencyOf(target, now))
  }

  /** The boundaries fall into the more urgent bucket: exactly two hours left
      is critical, one second more is a warning; exactly a day left is a
      warning, one second more is calm. */
  lemma UrgencyBoundaries(now: int)
    ensures UrgencyClass(Some(now + 2 * 3600000), now) == "dangerSoon"
    ensures UrgencyClass(Some(now + 2 * 3600000 + 1000), now) == "warn"
    ensures UrgencyClass(Some(now + 24 * 3600000), now) == "warn"
    ensures UrgencyClass(Some(now + 24 * 3600000 + 1000), now) == ""
    ensures UrgencyClass(Some(now), now) == ""
    ensures UrgencyClass(None, now) == ""
  {
  }

  /** The display state of one card: its urgency, or over once the exam has
      started. */
  datatype Phase = Upcoming | Warning | Critical | Over

  function Rank(p: Phase): nat {
    match p
    case Upcoming => 0
    case Warning => 1
    case Critical => 2
    case Over => 3
  }

  function PhaseOf(t: int, now: int): Phase {
    if Countdown.CountdownOf(Some(t), now) == Countdown.Passed then Over
    else match UrgencyOf(Some(t), now)
      case Calm => Upcoming
      case Warn => Warning
      case DangerSoon => Critical
  }

  /** As the clock advances a card only moves forward through
      upcoming, warning, critical and over; it never regresses. */
  lemma PhaseMonotone(t: int, now1: int, now2: int)
    requires now1 <= now2
    ensures Rank(PhaseOf(t, now1)) <= Rank(PhaseOf(t, now2))
  {
  }
}
