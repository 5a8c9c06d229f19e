/**
 * The uptime report of HealthCheck: the start time is taken on first use, and
 * the elapsed seconds are split into days, hours, minutes and seconds and
 * written as "{d}天{h}小时{m}分钟{s}秒". Time is counted in whole seconds.
 */
module HealthCheck {
  import opened Wrappers
  import opened PyStr

  /** The check_interval default of HealthCheck: five minutes. */
  const DEFAULT_CHECK_INTERVAL := 300
  const DEFAULT_SERVICE_URL := "http://localhost:5000"
  const SERVICE_URL := "SERVICE_URL"

  const SECONDS_PER_DAY := 86400
  const SECONDS_PER_HOUR := 3600
  const SECONDS_PER_MINUTE := 60

  const DAY_UNIT := "天"
  const HOUR_UNIT := "小时"
  const MINUTE_UNIT := "分钟"
  const SECOND_UNIT := "秒"

  datatype Uptime = Uptime(days: int, hours: int, minutes: int, seconds: int)

  /** The number of seconds an uptime stands for. */
  function TotalSeconds(u: Uptime): int {
    u.days * SECONDS_PER_DAY + u.hours * SECONDS_PER_HOUR + u.minutes * SECONDS_PER_MINUTE + u.seconds
  }

  /** Hours, minutes and seconds within their ranges; days unbounded (negative when the clock went back). */
  predicate Normal(u: Uptime) {
    0 <= u.hours < 24 && 0 <= u.minutes < 60 && 0 <= u.seconds < 60
  }

  /**
   * The three divmod steps of _get_uptime. Python's divmod floors, which for these
   * positive divisors is what Dafny's / and % compute, negative elapsed time included.
   */
  function SplitUptime(elapsed: int): (u: Uptime)
    ensures TotalSeconds(u) == elapsed
    ensures Normal(u)
  {
    var days := elapsed / SECONDS_PER_DAY;
    var remainder := elapsed % SECONDS_PER_DAY;
    var hours := remainder / SECONDS_PER_HOUR;
    var remainder' := remainder % SECONDS_PER_HOUR;
    Uptime(days, hours, remainder' / SECONDS_PER_MINUTE, remainder' % SECONDS_PER_MINUTE)
  }

  /** The split is the only normal uptime of that many seconds. */
  lemma SplitUptimeUnique(u: Uptime)
    requires Normal(u)
    ensures SplitUptime(TotalSeconds(u)) == u
  {
    var e := TotalSeconds(u);
    var inDay := u.hours * SECONDS_PER_HOUR + u.minutes * SECONDS_PER_MINUTE + u.seconds;
    assert 0 <= inDay < SECONDS_PER_DAY;
    DivModUnique(e, SECONDS_PER_DAY, u.days, inDay);
    var inHour := u.minutes * SECONDS_PER_MINUTE + u.seconds;
    DivModUnique(inDay, SECONDS_PER_HOUR, u.hours, inHour);
    DivModUnique(inHour, SECONDS_PER_MINUTE, u.minutes, u.seconds);
  }

  /** Floor division is determined by quotient and remainder. */
  lemma DivModUnique(a: int, d: int, q: int, r: int)
    requires 0 < d && 0 <= r < d && a == q * d + r
    ensures a / d == q && a % d == r
  {
    var q' := a / d;
    var r' := a % d;
    var k := q - q';
    assert k * d == q * d - q' * d;
    MultipleInsideZero(k, d, r' - r);
  }

  /** The only multiple of d strictly between -d and d is 0. */
  lemma MultipleInsideZero(k: int, d: int, x: int)
    requires 0 < d && k * d == x && -d < x < d
    ensures k == 0
  {
    if k != 0 {
      MulAwayFromZero(k, d);
    }
  }

  lemma {:induction false} MulAwayFromZero(k: int, d: int)
    requires d > 0
    ensures k > 0 ==> k * d >= d
    ensures k < 0 ==> k * d <= -d
    decreases if k > 0 then k else -k
  {
    if k > 1 {
      MulAwayFromZero(k - 1, d);
      assert k * d == (k - 1) * d + d;
    } else if k < -1 {
      MulAwayFromZero(k + 1, d);
      assert k * d == (k + 1) * d - d;
    }
  }

  /** f"{int(days)}天{int(hours)}小时{int(minutes)}分钟{int(seconds)}秒" */
  function FormatUptime(u: Uptime): string {
    IntToString(u.days) + DAY_UNIT + IntToString(u.hours) + HOUR_UNIT
      + IntToString(u.minutes) + MINUTE_UNIT + IntToString(u.seconds) + SECOND_UNIT
  }

  /** The longest prefix of s without the character c. */
  function Before(s: string, c: char): (r: string)
    ensures |r| <= |s| && r == s[..|r|]
    decreases |s|
  {
    if s == [] || s[0] == c then [] else [s[0]] + Before(s[1..], c)
  }

  lemma {:induction false} BeforeSeparator(a: string, c: char, b: string)
    requires c !in a
    ensures Before(a + [c] + b, c) == a
    decreases |a|
  {
    var s := a + [c] + b;
    if a != [] {
      assert s[1..] == a[1..] + [c] + b;
      BeforeSeparator(a[1..], c, b);
      assert [a[0]] + a[1..] == a;
    }
  }

  /** Reads an integer and the unit after it off the front of s, giving back the rest. */
  function ReadField(s: string, unit: string): Option<(int, string)>
    requires unit != []
  {
    var number := Before(s, unit[0]);
    var rest := s[|number|..];
    if StartsWith(rest, unit) then
      match ParseInt(number)
      case None => None
      case Some(v) => Some((v, rest[|unit|..]))
    else None
  }

  /** Reads an uptime message back into its four numbers. */
  function ParseUptime(s: string): Option<Uptime> {
    match ReadField(s, DAY_UNIT)
    case None => None
    case Some((d, rest)) =>
      match ParseHours(rest)
      case None => None
      case Some(u) => Some(u.(days := d))
  }

  /** The hours, minutes and seconds of the message, after the days. */
  function ParseHours(s: string): Option<Uptime> {
    match ReadField(s, HOUR_UNIT)
    case None => None
    case Some((h, rest)) =>
      match ParseMinutes(rest)
      case None => None
      case Some(u) => Some(u.(hours := h))
  }

  /** The minutes and seconds of the message, after the hours. */
  function ParseMinutes(s: string): Option<Uptime> {
    match ReadField(s, MINUTE_UNIT)
    case None => None
    case Some((m, rest)) =>
      match ReadField(rest, SECOND_UNIT)
      case None => None
      case Some((sec, tail)) => if tail == [] then Some(Uptime(0, 0, m, sec)) else None
  }

  /** A number written by str() is read back in front of a unit that does not start with a digit or a minus sign. */
  lemma ReadFieldOf(i: int, unit: string, rest: string)
    requires unit != [] && !IsDigit(unit[0]) && unit[0] != '-'
    ensures ReadField(IntToString(i) + unit + rest, unit) == Some((i, rest))
  {
    var digits := IntToString(i);
    var s := digits + unit + rest;
    IntToStringChars(i);
    assert unit[0] !in digits;
    assert s == digits + [unit[0]] + (unit[1..] + rest);
    BeforeSeparator(digits, unit[0], unit[1..] + rest);
    assert s[|digits|..] == unit + rest;
    assert (unit + rest)[..|unit|] == unit;
    assert (unit + rest)[|unit|..] == rest;
    ParseIntOfIntToString(i);
  }

  /** Round trip: the message _get_uptime writes reads back as the uptime it was written from. */
  lemma ParseFormatUptime(u: Uptime)
    ensures ParseUptime(FormatUptime(u)) == Some(u)
  {
    var rest := IntToString(u.hours) + HOUR_UNIT + IntToString(u.minutes) + MINUTE_UNIT + IntToString(u.seconds) + SECOND_UNIT;
    assert FormatUptime(u) == IntToString(u.days) + DAY_UNIT + rest;
    ReadFieldOf(u.days, DAY_UNIT, rest);
    ParseHoursOf(u);
  }

  lemma ParseHoursOf(u: Uptime)
    ensures ParseHours(IntToString(u.hours) + HOUR_UNIT + IntToString(u.minutes) + MINUTE_UNIT + IntToString(u.seconds) + SECOND_UNIT)
      == Some(Uptime(0, u.hours, u.minutes, u.seconds))
  {
    var rest := IntToString(u.minutes) + MINUTE_UNIT + IntToString(u.seconds) + SECOND_UNIT;
    assert IntToString(u.hours) + HOUR_UNIT + IntToString(u.minutes) + MINUTE_UNIT + IntToString(u.seconds) + SECOND_UNIT
      == IntToString(u.hours) + HOUR_UNIT + rest;
    ReadFieldOf(u.hours, HOUR_UNIT, rest);
    ParseMinutesOf(u.minutes, u.seconds);
  }

  lemma ParseMinutesOf(m: int, sec: int)
    ensures ParseMinutes(IntToString(m) + MINUTE_UNIT + IntToString(sec) + SECOND_UNIT) == Some(Uptime(0, 0, m, sec))
  {
    var rest := IntToString(sec) + SECOND_UNIT;
    var s := IntToString(m) + MINUTE_UNIT + IntToString(sec) + SECOND_UNIT;
    assert s == IntToString(m) + MINUTE_UNIT + rest;
    ReadFieldOf(m, MINUTE_UNIT, rest);
    assert ReadField(s, MINUTE_UNIT) == Some((m, rest));
    assert rest == IntToString(sec) + SECOND_UNIT + [];
    ReadFieldOf(sec, SECOND_UNIT, []);
    assert ReadField(rest, SECOND_UNIT) == Some((sec, []));
  }

  /** Distinct elapsed times give distinct messages. */
  lemma UptimeMessageInjective(a: int, b: int)
    requires FormatUptime(SplitUptime(a)) == FormatUptime(SplitUptime(b))
    ensures a == b
  {
    ParseFormatUptime(SplitUptime(a));
    ParseFormatUptime(SplitUptime(b));
  }

  /** The message of the first call, when no time has passed since the start time was taken. */
  lemma FirstCallUptime()
    ensures FormatUptime(SplitUptime(0)) == "0天0小时0分钟0秒"
  {
    assert SplitUptime(0) == Uptime(0, 0, 0, 0);
    assert NatToString(0) == "0";
  }

  class HealthCheck {
    var checkInterval: int
    var lastCheckTime: Option<int>
    var serviceUrl: string
    var isRunning: bool
    /** self.start_time, None while the attribute does not exist. */
    var startTime: Option<int>

    /**
     * HealthCheck(app, check_interval=300); `serviceUrlSetting` is the SERVICE_URL
     * variable, and the interval defaults to five minutes as in the source.
     */
    constructor (serviceUrlSetting: Option<string>, checkInterval: int := DEFAULT_CHECK_INTERVAL)
      ensures this.checkInterval == checkInterval
      ensures lastCheckTime == None && !isRunning && startTime == None
      ensures serviceUrl == if serviceUrlSetting.Some? then serviceUrlSetting.value else DEFAULT_SERVICE_URL
    {
      this.checkInterval := checkInterval;
      lastCheckTime := None;
      serviceUrl := if serviceUrlSetting.Some? then serviceUrlSetting.value else DEFAULT_SERVICE_URL;
      isRunning := false;
      startTime := None;
    }

    /**
     * _get_uptime(), with `now` the whole seconds datetime.now() reads. The first
     * call takes the start time, so it reports no time at all.
     */
    method GetUptime(now: int) returns (uptime: string)
      modifies this
      ensures startTime == if old(startTime).None? then Some(now) else old(startTime)
      ensures uptime == FormatUptime(SplitUptime(now - startTime.value))
      ensures checkInterval == old(checkInterval) && lastCheckTime == old(lastCheckTime)
      ensures serviceUrl == old(serviceUrl) && isRunning == old(isRunning)
    {
      if startTime.None? {
        startTime := Some(now);
      }
      var uptimeSeconds := now - startTime.value;
      var days := uptimeSeconds / SECONDS_PER_DAY;
      var remainder := uptimeSeconds % SECONDS_PER_DAY;
      var hours := remainder / SECONDS_PER_HOUR;
      remainder := remainder % SECONDS_PER_HOUR;
      var minutes := remainder / SECONDS_PER_MINUTE;
      var seconds := remainder % SECONDS_PER_MINUTE;
      uptime := IntToString(days) + DAY_UNIT + IntToString(hours) + HOUR_UNIT
        + IntToString(minutes) + MINUTE_UNIT + IntToString(seconds) + SECOND_UNIT;
    }
  }
}
