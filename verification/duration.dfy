/** `diffToParts`: a millisecond delta split into whole days, hours, minutes
    and seconds of one duration (24-hour days, floor division at each step). */
module Duration {

  const MsPerSecond: nat := 1000
  const SecondsPerMinute: nat := 60
  const MinutesPerHour: nat := 60
  const HoursPerDay: nat := 24
  const SecondsPerHour: nat := 3600
  const SecondsPerDay: nat := 86400
  const MsPerHour: nat := 3600000

  datatype Parts = Parts(d: nat, h: nat, m: nat, s: nat)

  /** Every unit below days is smaller than the unit above it. */
  predicate Normal(p: Parts) {
    p.h < HoursPerDay && p.m < MinutesPerHour && p.s < SecondsPerMinute
  }

  /** The whole number of seconds a decomposition stands for. */
  function TotalSeconds(p: Parts): nat {
    ((p.d * HoursPerDay + p.h) * MinutesPerHour + p.m) * SecondsPerMinute + p.s
  }

  /** The delta clamped at zero (`Math.max(0, ms)`). */
  function Clamp(ms: int): nat {
    if ms > 0 then ms else 0
  }

  /** Splits a delta in milliseconds; sub-second remainders are dropped and a
      negative delta counts as zero. */
  function DiffToParts(ms: int): (p: Parts)
    ensures Normal(p)
    ensures TotalSeconds(p) == Clamp(ms) / MsPerSecond
    ensures ms <= 0 ==> p == Parts(0, 0, 0, 0)
  {
    var sec := Clamp(ms) / MsPerSecond;
    var min := sec / SecondsPerMinute;
    var hr := min / MinutesPerHour;
    var p := Parts(hr / HoursPerDay, hr % HoursPerDay, min % MinutesPerHour, sec % SecondsPerMinute);
    assert hr / HoursPerDay * HoursPerDay + hr % HoursPerDay == hr;
    assert hr * MinutesPerHour + min % MinutesPerHour == min;
    assert min * SecondsPerMinute + sec % SecondsPerMinute == sec;
    p
  }

  /** A normal decomposition is recovered from any delta it accounts for:
      the decomposition is unique. */
  lemma DiffToPartsOfTotal(p: Parts, ms: int)
    requires Normal(p)
    requires TotalSeconds(p) * MsPerSecond <= ms < (TotalSeconds(p) + 1) * MsPerSecond
    ensures DiffToParts(ms) == p
  {
    var sec := TotalSeconds(p);
    assert ms / MsPerSecond == sec;
    var min := (p.d * HoursPerDay + p.h) * MinutesPerHour + p.m;
    assert sec == min * SecondsPerMinute + p.s;
    assert sec / SecondsPerMinute == min && sec % SecondsPerMinute == p.s;
    var hr := p.d * HoursPerDay + p.h;
    assert min / MinutesPerHour == hr && min % MinutesPerHour == p.m;
    assert hr / HoursPerDay == p.d && hr % HoursPerDay == p.h;
  }
}
