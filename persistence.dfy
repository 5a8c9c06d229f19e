/**
 * The parts of persistence.py that decide something: the authenticated clone
 * URL GitRepository builds from the environment, the guard of
 * clone_repository, and compare_feed_dates, which keeps the local feed unless
 * the remote one was built strictly later.
 */
module Persistence {
  import opened Wrappers
  import opened PyStr

  const GIT_REPO_URL := "GIT_REPO_URL"
  const GIT_USERNAME := "GIT_USERNAME"
  const GIT_EMAIL := "GIT_EMAIL"
  const GIT_TOKEN := "GIT_TOKEN"
  const HTTPS := "https://"

  /** os.environ.get(key): None when the variable is not set. */
  function Get(environ: map<string, string>, key: string): Option<string> {
    if key in environ then Some(environ[key]) else None
  }

  /** Python truthiness of an optional string: set and not empty. */
  predicate Present(v: Option<string>) {
    v.Some? && v.value != []
  }

  /** The credentials put in front of the host: https://{username}:{token}@ */
  function Credentials(username: string, token: string): string {
    HTTPS + username + ":" + token + "@"
  }

  /**
   * The auth_repo_url __init__ computes. An https URL gets the credentials in
   * place of every "https://" it holds (str.replace rewrites all occurrences);
   * any other URL is used as it is; without a URL, a token and a user name there
   * is none. The e-mail address plays no part.
   */
  function AuthRepoUrl(repoUrl: Option<string>, username: Option<string>, token: Option<string>): (r: Option<string>)
    ensures r.Some? <==> Present(repoUrl) && Present(token) && Present(username)
    ensures r.Some? && !StartsWith(repoUrl.value, HTTPS) ==> r == repoUrl
  {
    if Present(repoUrl) && Present(token) && Present(username) then
      if StartsWith(repoUrl.value, HTTPS) then
        Some(ReplaceAll(repoUrl.value, HTTPS, Credentials(username.value, token.value)))
      else repoUrl
    else None
  }

  /**
   * An https URL starts with the credentials after the rewrite, and the rest of it
   * is rewritten the same way; when "https://" does not occur again, the rest is
   * the URL's own.
   */
  lemma AuthRepoUrlHttps(url: string, username: string, token: string)
    requires url != [] && username != [] && token != [] && StartsWith(url, HTTPS)
    ensures var cred := Credentials(username, token);
      AuthRepoUrl(Some(url), Some(username), Some(token)) == Some(cred + ReplaceAll(url[|HTTPS|..], HTTPS, cred))
    ensures Free(url[|HTTPS|..], HTTPS) ==>
      AuthRepoUrl(Some(url), Some(username), Some(token)) == Some(Credentials(username, token) + url[|HTTPS|..])
  {
    var cred := Credentials(username, token);
    var rest := url[|HTTPS|..];
    assert url == HTTPS + rest;
    ReplaceAllLeading(HTTPS, rest, cred);
    if Free(rest, HTTPS) {
      ReplaceAllFree(rest, HTTPS, cred);
    }
  }

  /** The authenticated URL GitRepository() builds from an environment. */
  function AuthRepoUrlOf(environ: map<string, string>): Option<string> {
    AuthRepoUrl(Get(environ, GIT_REPO_URL), Get(environ, GIT_USERNAME), Get(environ, GIT_TOKEN))
  }

  /** Setting, changing or clearing GIT_EMAIL never changes the clone URL. */
  lemma AuthRepoUrlIgnoresEmail(environ: map<string, string>, email: string)
    ensures AuthRepoUrlOf(environ[GIT_EMAIL := email]) == AuthRepoUrlOf(environ)
    ensures AuthRepoUrlOf(environ - {GIT_EMAIL}) == AuthRepoUrlOf(environ)
  {
    assert GIT_EMAIL != GIT_REPO_URL && GIT_EMAIL != GIT_USERNAME && GIT_EMAIL != GIT_TOKEN;
  }

  /** An empty variable counts as unset: it leaves no clone URL, just as a missing one. */
  lemma AuthRepoUrlEmptyVariable(environ: map<string, string>, key: string)
    requires key == GIT_REPO_URL || key == GIT_USERNAME || key == GIT_TOKEN
    ensures AuthRepoUrlOf(environ[key := []]) == None
    ensures AuthRepoUrlOf(environ - {key}) == None
  {
  }

  class GitRepository {
    var repoUrl: Option<string>
    var username: Option<string>
    var email: Option<string>
    var token: Option<string>
    var authRepoUrl: Option<string>

    /** GitRepository(): reads the four variables and builds the clone URL. */
    constructor (environ: map<string, string>)
      ensures repoUrl == Get(environ, GIT_REPO_URL)
      ensures username == Get(environ, GIT_USERNAME)
      ensures email == Get(environ, GIT_EMAIL)
      ensures token == Get(environ, GIT_TOKEN)
      ensures authRepoUrl == AuthRepoUrlOf(environ)
    {
      var url := Get(environ, GIT_REPO_URL);
      var user := Get(environ, GIT_USERNAME);
      var secret := Get(environ, GIT_TOKEN);
      repoUrl, username, email, token := url, user, Get(environ, GIT_EMAIL), secret;
      if Present(url) && Present(secret) && Present(user) {
        if StartsWith(url.value, HTTPS) {
          authRepoUrl := Some(ReplaceAll(url.value, HTTPS, Credentials(user.value, secret.value)));
        } else {
          authRepoUrl := url;
        }
      } else {
        authRepoUrl := None;
      }
    }

    /**
     * clone_repository(): without a clone URL it gives up at once with None;
     * otherwise it clones into a fresh temporary directory `tempDir` and answers
     * that directory, or None when `cloneOk` says git clone failed.
     */
    method CloneRepository(tempDir: string, cloneOk: bool) returns (dir: Option<string>)
      ensures !Present(authRepoUrl) ==> dir == None
      ensures Present(authRepoUrl) ==> dir == if cloneOk then Some(tempDir) else None
    {
      if !Present(authRepoUrl) {
        return None;
      }
      if !cloneOk {
        return None;
      }
      dir := Some(tempDir);
    }
  }

  /**
   * A lastBuildDate as strptime reads it with '%a, %d %b %Y %H:%M:%S %z': the
   * wall-clock fields and the zone offset east of UTC in microseconds, since %z
   * accepts hours, minutes, seconds and a fraction of a second.
   */
  datatype Timestamp = Timestamp(year: int, month: int, day: int, hour: int, minute: int, second: int, offsetMicroseconds: int)

  const MICROSECONDS_PER_SECOND := 1_000_000
  const MICROSECONDS_PER_DAY := 86400 * MICROSECONDS_PER_SECOND

  predicate IsLeap(y: int) {
    y % 4 == 0 && (y % 100 != 0 || y % 400 == 0)
  }

  function DaysInMonth(y: int, m: int): int {
    if m == 2 then (if IsLeap(y) then 29 else 28)
    else if m == 4 || m == 6 || m == 9 || m == 11 then 30
    else 31
  }

  function YearLength(y: int): int {
    if IsLeap(y) then 366 else 365
  }

  /** The fields datetime accepts: years 1 to 9999, a real calendar day, an offset under a day. */
  predicate ValidTimestamp(t: Timestamp) {
    && 1 <= t.year <= 9999
    && 1 <= t.month <= 12
    && 1 <= t.day <= DaysInMonth(t.year, t.month)
    && 0 <= t.hour < 24 && 0 <= t.minute < 60 && 0 <= t.second < 60
    && -MICROSECONDS_PER_DAY < t.offsetMicroseconds < MICROSECONDS_PER_DAY
  }

  /** Days in the months of year y before month m. */
  function DaysBeforeMonth(y: int, m: int): int
    requires 1 <= m <= 13
  {
    if m == 1 then 0 else DaysBeforeMonth(y, m - 1) + DaysInMonth(y, m - 1)
  }

  /** Days in the years before year y, counted from year 1. */
  function DaysBeforeYear(y: int): int
    requires 1 <= y
  {
    if y == 1 then 0 else DaysBeforeYear(y - 1) + YearLength(y - 1)
  }

  /** The day count of a valid date, from 0 for 0001-01-01. */
  function DayNumber(t: Timestamp): int
    requires ValidTimestamp(t)
  {
    DaysBeforeYear(t.year) + DaysBeforeMonth(t.year, t.month) + t.day - 1
  }

  /** The instant a timestamp names: microseconds since 0001-01-01 00:00 UTC. */
  function UtcMicroseconds(t: Timestamp): int
    requires ValidTimestamp(t)
  {
    (DayNumber(t) * 86400 + t.hour * 3600 + t.minute * 60 + t.second) * MICROSECONDS_PER_SECOND - t.offsetMicroseconds
  }

  /** A timestamp strptime can produce. */
  type BuildDate = t: Timestamp | ValidTimestamp(t) witness Timestamp(1, 1, 1, 0, 0, 0, 0)

  /** Comparison of aware datetimes: one timestamp is later than another when its instant is. */
  predicate Later(a: Timestamp, b: Timestamp)
    requires ValidTimestamp(a) && ValidTimestamp(b)
  {
    UtcMicroseconds(a) > UtcMicroseconds(b)
  }

  /** Of two dates, the first comes earlier in the calendar. */
  predicate DateBefore(a: Timestamp, b: Timestamp) {
    || a.year < b.year
    || (a.year == b.year && a.month < b.month)
    || (a.year == b.year && a.month == b.month && a.day < b.day)
  }

  /** The first wall-clock reading comes earlier: the fields compared most significant first. */
  predicate WallClockBefore(a: Timestamp, b: Timestamp) {
    || DateBefore(a, b)
    || (a.year == b.year && a.month == b.month && a.day == b.day &&
        (|| a.hour < b.hour
         || (a.hour == b.hour && a.minute < b.minute)
         || (a.hour == b.hour && a.minute == b.minute && a.second < b.second)))
  }

  /** The days before month m1 are at most those before a later month m2. */
  lemma {:induction false} MonthsMonotone(y: int, m1: int, m2: int)
    requires 1 <= m1 <= m2 <= 13
    ensures DaysBeforeMonth(y, m1) <= DaysBeforeMonth(y, m2)
    decreases m2 - m1
  {
    if m1 < m2 {
      MonthsMonotone(y, m1, m2 - 1);
    }
  }

  /** The twelve months make up the year. */
  lemma YearOfMonths(y: int)
    ensures DaysBeforeMonth(y, 13) == YearLength(y)
  {
    assert DaysBeforeMonth(y, 2) == 31;
    assert DaysBeforeMonth(y, 3) == 31 + DaysInMonth(y, 2);
    assert DaysBeforeMonth(y, 4) == DaysBeforeMonth(y, 3) + 31;
    assert DaysBeforeMonth(y, 5) == DaysBeforeMonth(y, 4) + 30;
    assert DaysBeforeMonth(y, 6) == DaysBeforeMonth(y, 5) + 31;
    assert DaysBeforeMonth(y, 7) == DaysBeforeMonth(y, 6) + 30;
    assert DaysBeforeMonth(y, 8) == DaysBeforeMonth(y, 7) + 31;
    assert DaysBeforeMonth(y, 9) == DaysBeforeMonth(y, 8) + 31;
    assert DaysBeforeMonth(y, 10) == DaysBeforeMonth(y, 9) + 30;
    assert DaysBeforeMonth(y, 11) == DaysBeforeMonth(y, 10) + 31;
    assert DaysBeforeMonth(y, 12) == DaysBeforeMonth(y, 11) + 30;
    assert DaysBeforeMonth(y, 13) == DaysBeforeMonth(y, 12) + 31;
  }

  /** Every day of a valid date lies inside its year. */
  lemma MonthsFillYear(y: int, m: int)
    requires 1 <= m <= 12
    ensures 0 <= DaysBeforeMonth(y, m)
    ensures DaysBeforeMonth(y, m) + DaysInMonth(y, m) <= YearLength(y)
  {
    MonthsMonotone(y, 1, m);
    MonthsMonotone(y, m + 1, 13);
    YearOfMonths(y);
  }

  /** An earlier year ends before a later one begins. */
  lemma {:induction false} YearsOrdered(y1: int, y2: int)
    requires 1 <= y1 < y2
    ensures DaysBeforeYear(y1) + YearLength(y1) <= DaysBeforeYear(y2)
    decreases y2 - y1
  {
    if y1 + 1 < y2 {
      YearsOrdered(y1, y2 - 1);
    }
  }

  /** Dates compare as their day numbers do. */
  lemma DatesOrdered(a: Timestamp, b: Timestamp)
    requires ValidTimestamp(a) && ValidTimestamp(b) && DateBefore(a, b)
    ensures DayNumber(a) < DayNumber(b)
  {
    MonthsFillYear(a.year, a.month);
    MonthsFillYear(b.year, b.month);
    if a.year < b.year {
      YearsOrdered(a.year, b.year);
    } else if a.month < b.month {
      MonthsMonotone(a.year, a.month + 1, b.month);
    }
  }

  /**
   * Within one zone the instants are ordered as the wall-clock fields are read,
   * most significant first: the comparison compare_feed_dates makes is the one
   * a reader of two dates in the same zone expects.
   */
  lemma SameZoneOrder(a: Timestamp, b: Timestamp)
    requires ValidTimestamp(a) && ValidTimestamp(b) && a.offsetMicroseconds == b.offsetMicroseconds
    ensures Later(b, a) <==> WallClockBefore(a, b)
  {
    if DateBefore(a, b) {
      DatesOrdered(a, b);
    } else if DateBefore(b, a) {
      DatesOrdered(b, a);
    }
  }

  /**
   * The same wall-clock reading in a zone further east, by however small an
   * offset (a second or a microsecond), names an earlier instant.
   */
  lemma EasternZoneEarlier(a: Timestamp, b: Timestamp)
    requires ValidTimestamp(a) && ValidTimestamp(b)
    requires a.(offsetMicroseconds := b.offsetMicroseconds) == b
    ensures Later(b, a) <==> a.offsetMicroseconds > b.offsetMicroseconds
  {
  }

  /** The source compare_feed_dates names. */
  datatype Source = Local | Remote

  /**
   * compare_feed_dates(local_feed_path, remote_feed_content). `localDate` and
   * `remoteDate` are the lastBuildDate values read from the two feeds, None where
   * the XML does not parse, the element is missing or strptime rejects the text
   * (each raises, and the exception is turned into the local answer).
   */
  function CompareFeedDates(localDate: Option<Timestamp>, remoteDate: Option<Timestamp>, remoteContent: string): (r: (Source, Option<string>))
    requires localDate.Some? ==> ValidTimestamp(localDate.value)
    requires remoteDate.Some? ==> ValidTimestamp(remoteDate.value)
    ensures r.0 == Remote <==> localDate.Some? && remoteDate.Some? && UtcMicroseconds(remoteDate.value) > UtcMicroseconds(localDate.value)
    ensures r.1 == if r.0 == Remote then Some(remoteContent) else None
  {
    if localDate.None? || remoteDate.None? then (Local, None)
    else if Later(remoteDate.value, localDate.value) then (Remote, Some(remoteContent))
    else (Local, None)
  }

  /** A tie keeps the local feed, even when the two dates are written in different zones. */
  lemma TiesKeepLocal(localDate: Timestamp, remoteDate: Timestamp, remoteContent: string)
    requires ValidTimestamp(localDate) && ValidTimestamp(remoteDate)
    requires UtcMicroseconds(localDate) == UtcMicroseconds(remoteDate)
    ensures CompareFeedDates(Some(localDate), Some(remoteDate), remoteContent) == (Local, None)
  {
  }

  /** Of two feeds at most one is newer: with the roles swapped, the two comparisons never both pick the remote side. */
  lemma CompareAntisymmetric(a: Timestamp, b: Timestamp, content: string)
    requires ValidTimestamp(a) && ValidTimestamp(b)
    ensures !(CompareFeedDates(Some(a), Some(b), content).0 == Remote && CompareFeedDates(Some(b), Some(a), content).0 == Remote)
  {
  }
}
