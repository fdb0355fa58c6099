/**
 * The closing report of the importer (import_gnaf.py lines 10 and 96-98):
 * the run's duration is the difference of two clock readings, normalised
 * the way Python's `timedelta` is, and is reported as minutes and seconds.
 * Clock readings are whole microseconds since an arbitrary epoch, passed
 * in as parameters.
 */
module ElapsedTime {

  const MicrosPerSecond: int := 1000000
  const SecondsPerDay: int := 86400
  const SecondsPerMinute: int := 60

  /**
   * A `timedelta`: whole days (of any sign), then seconds within the day
   * and microseconds within the second.
   */
  datatype Duration = Duration(days: int, seconds: int, microseconds: int)
  {
    /** The normal form `timedelta` always keeps. */
    predicate Valid()
    {
      0 <= seconds < SecondsPerDay && 0 <= microseconds < MicrosPerSecond
    }

    /** The whole length of the duration. */
    function TotalMicroseconds(): int
    {
      (days * SecondsPerDay + seconds) * MicrosPerSecond + microseconds
    }

    /**
     * `int(d.total_seconds())` for a duration that is not negative: the
     * length in seconds, rounded down.
     */
    function WholeSeconds(): (n: int)
      ensures Valid() ==> n * MicrosPerSecond <= TotalMicroseconds() < (n + 1) * MicrosPerSecond
    {
      days * SecondsPerDay + seconds
    }
  }

  /** `finish - start` on two clock readings (line 96). */
  function Difference(finish: int, start: int): (d: Duration)
    ensures d.Valid()
    ensures d.TotalMicroseconds() == finish - start
    ensures d.WholeSeconds() == (finish - start) / MicrosPerSecond
  {
    var total := finish - start;
    var secs := total / MicrosPerSecond;
    Duration(secs / SecondsPerDay, secs % SecondsPerDay, total % MicrosPerSecond)
  }

  /** A duration has one normal form: two valid durations of the same length are equal. */
  lemma NormalFormUnique(d: Duration, e: Duration)
    requires d.Valid() && e.Valid()
    requires d.TotalMicroseconds() == e.TotalMicroseconds()
    ensures d == e
  {
    SplitUnique(d.WholeSeconds(), d.microseconds, e.WholeSeconds(), e.microseconds, MicrosPerSecond);
    SplitUnique(d.days, d.seconds, e.days, e.seconds, SecondsPerDay);
  }

  /** Quotient and remainder by a positive divisor are determined by the dividend. */
  lemma SplitUnique(q1: int, r1: int, q2: int, r2: int, m: int)
    requires m > 0
    requires 0 <= r1 < m && 0 <= r2 < m
    requires q1 * m + r1 == q2 * m + r2
    ensures q1 == q2 && r1 == r2
  {
    var k := q2 - q1;
    assert r1 - r2 == k * m by {
      assert q2 * m - q1 * m == (q2 - q1) * m;
    }
    if k > 0 {
      MultipleAtLeast(k, m);
      assert false;
    } else if k < 0 {
      MultipleAtLeast(-k, m);
      assert false;
    }
  }

  /** A positive multiple of `m` is at least `m`. */
  lemma {:induction false} MultipleAtLeast(k: int, m: int)
    requires k > 0 && m > 0
    ensures k * m >= m
    decreases k
  {
    if k > 1 {
      MultipleAtLeast(k - 1, m);
      assert k * m == (k - 1) * m + m;
    }
  }

  /** Python's `divmod(n, 60)`, which floors: the remainder is never negative. */
  function DivMod60(n: int): (qr: (int, int))
    ensures qr.0 * SecondsPerMinute + qr.1 == n
    ensures 0 <= qr.1 < SecondsPerMinute
  {
    (n / SecondsPerMinute, n % SecondsPerMinute)
  }

  /**
   * What line 97 reports: minutes and seconds of `time_taken.seconds`,
   * the seconds field alone, so the whole days of the run are dropped.
   */
  function ReportedSplit(d: Duration): (ms: (int, int))
    requires d.Valid()
    ensures ms.0 * SecondsPerMinute + ms.1 == d.seconds
    ensures 0 <= ms.0 < SecondsPerDay / SecondsPerMinute && 0 <= ms.1 < SecondsPerMinute
  {
    DivMod60(d.seconds)
  }

  /** Minutes and seconds of the whole duration, days included. */
  function ElapsedSplit(d: Duration): (ms: (int, int))
    ensures ms.0 * SecondsPerMinute + ms.1 == d.WholeSeconds()
    ensures 0 <= ms.1 < SecondsPerMinute
  {
    DivMod60(d.days * SecondsPerDay + d.seconds)
  }

  /** The two splits agree exactly on runs shorter than a day. */
  lemma ReportedIsElapsedIffUnderADay(d: Duration)
    requires d.Valid()
    ensures ReportedSplit(d) == ElapsedSplit(d) <==> d.days == 0
  {
    var (m1, s1) := ReportedSplit(d);
    var (m2, s2) := ElapsedSplit(d);
    assert (m2 - m1) * SecondsPerMinute + (s2 - s1) == d.days * SecondsPerDay;
  }

  /** The report of a run covers its whole seconds modulo one day. */
  lemma ReportedSplitOfRun(finish: int, start: int)
    ensures var ms := ReportedSplit(Difference(finish, start));
      ms.0 * SecondsPerMinute + ms.1 == ((finish - start) / MicrosPerSecond) % SecondsPerDay
  {
    var total := finish - start;
    var secs := total / MicrosPerSecond;
    assert Difference(finish, start).seconds == secs % SecondsPerDay;
  }

  /** For a run that does not go backwards, the corrected split covers all of its whole seconds. */
  lemma ElapsedSplitOfRun(finish: int, start: int)
    requires start <= finish
    ensures var ms := ElapsedSplit(Difference(finish, start));
      ms.0 * SecondsPerMinute + ms.1 == (finish - start) / MicrosPerSecond
      && 0 <= ms.0 && 0 <= ms.1 < SecondsPerMinute
  {
    var d := Difference(finish, start);
    assert 0 <= d.WholeSeconds();
  }

  /** A run of one day and five seconds is reported as 0 minutes and 5 seconds. */
  lemma DayLongRunReportedShort()
    ensures var d := Difference((SecondsPerDay + 5) * MicrosPerSecond, 0);
      ReportedSplit(d) == (0, 5) && ElapsedSplit(d) == (1440, 5)
  {
    var d := Difference((SecondsPerDay + 5) * MicrosPerSecond, 0);
    assert d == Duration(1, 5, 0) by {
      NormalFormUnique(d, Duration(1, 5, 0));
    }
  }
}
