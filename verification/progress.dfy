/** The progress figures the extractor reports after each listing
    (chrome-extension/content.js, `updateStats`), computed over exact rationals with the
    elapsed time in seconds as an input. */
module Progress {

  /** `Math.round`: the nearest integer, halves rounded up. */
  function Round(x: real): (n: int)
    ensures n as real - 0.5 <= x < n as real + 0.5
  {
    (x + 0.5).Floor
  }

  lemma RoundMonotone(x: real, y: real)
    requires x <= y
    ensures Round(x) <= Round(y)
  {
  }

  lemma RoundInt(n: int)
    ensures Round(n as real) == n
  {
  }

  /** The counters the extractor keeps. */
  datatype Stats = Stats(extracted: nat, phones: nat, total: nat)

  /** The message payload: the counters, the elapsed time, the two time estimates and the
      percentage done, each rounded. */
  datatype StatsData = StatsData(
    extracted: nat, phones: nat, total: nat,
    elapsedTime: int, estimatedTimeRemaining: int, estimatedTotalTime: int, progress: int)

  /** Estimates are made only once a listing is done and the total is known. */
  predicate Estimating(s: Stats) {
    s.extracted > 0 && s.total > 0
  }

  /** The average time per listing so far. */
  function TimePerAnnonce(s: Stats, elapsed: real): real
    requires s.extracted > 0
  {
    elapsed / s.extracted as real
  }

  /** The time left, before rounding: the listings still to do (negative once the count
      passes the total) at the average pace. */
  function Remaining(s: Stats, elapsed: real): real {
    if Estimating(s) then (s.total - s.extracted) as real * TimePerAnnonce(s, elapsed) else 0.0
  }

  /** The whole run's time, before rounding. */
  function TotalTime(s: Stats, elapsed: real): real {
    if Estimating(s) then s.total as real * TimePerAnnonce(s, elapsed) else 0.0
  }

  function Percent(s: Stats): real
    requires s.total > 0
  {
    (s.extracted as real / s.total as real) * 100.0
  }

  /** `updateStats`: the payload sent to the popup. */
  function UpdateStats(s: Stats, elapsed: real): (d: StatsData)
    ensures d.extracted == s.extracted && d.phones == s.phones && d.total == s.total
    ensures !Estimating(s) ==> d.estimatedTimeRemaining == 0 && d.estimatedTotalTime == 0
    ensures Estimating(s) ==>
      d.estimatedTimeRemaining as real - 0.5 <= Remaining(s, elapsed) < d.estimatedTimeRemaining as real + 0.5
    ensures d.elapsedTime as real - 0.5 <= elapsed < d.elapsedTime as real + 0.5
    ensures Estimating(s) ==>
      d.estimatedTotalTime as real - 0.5 <= TotalTime(s, elapsed) < d.estimatedTotalTime as real + 0.5
    ensures s.total == 0 ==> d.progress == 0
    ensures s.total > 0 ==> d.progress as real - 0.5 <= Percent(s) < d.progress as real + 0.5
  {
    StatsData(
      s.extracted, s.phones, s.total,
      Round(elapsed), Round(Remaining(s, elapsed)), Round(TotalTime(s, elapsed)),
      if s.total > 0 then Round(Percent(s)) else 0)
  }

  /** Progress is a percentage while the count stays within the total, and exactly 100 when
      it reaches it. */
  lemma ProgressBounds(s: Stats, elapsed: real)
    ensures s.extracted <= s.total ==> 0 <= UpdateStats(s, elapsed).progress <= 100
    ensures s.total > 0 && s.extracted == s.total ==> UpdateStats(s, elapsed).progress == 100
  {
    if s.total > 0 {
      var e, t := s.extracted as real, s.total as real;
      assert e / t * t == e;
      if s.extracted <= s.total {
        assert e / t <= 1.0;
        RoundMonotone(Percent(s), 100.0);
        RoundMonotone(0.0, Percent(s));
        RoundInt(100);
        RoundInt(0);
      }
      if s.extracted == s.total {
        assert e == t && t > 0.0;
        assert e / t == t / t == 1.0;
        assert Percent(s) == 100.0;
        RoundInt(100);
      }
    }
  }

  /** More listings done never lowers the progress shown. */
  lemma ProgressMonotone(s: Stats, more: nat, elapsed: real, elapsed': real)
    requires s.extracted <= more
    ensures UpdateStats(s, elapsed).progress <= UpdateStats(s.(extracted := more), elapsed').progress
  {
    if s.total > 0 {
      var t := s.total as real;
      assert s.extracted as real / t <= more as real / t;
      RoundMonotone(Percent(s), Percent(s.(extracted := more)));
    }
  }

  /** The time left is the listings still to do times the average time per listing done. */
  lemma RemainingFormula(s: Stats, elapsed: real)
    requires Estimating(s)
    ensures Remaining(s, elapsed) * s.extracted as real == (s.total - s.extracted) as real * elapsed
  {
    var t := TimePerAnnonce(s, elapsed);
    var e := s.extracted as real;
    assert t * e == elapsed;
    assert (s.total - s.extracted) as real * t * e == (s.total - s.extracted) as real * (t * e);
  }

  /** The whole run's time is the total number of listings at the average time per listing done. */
  lemma TotalTimeFormula(s: Stats, elapsed: real)
    requires Estimating(s)
    ensures TotalTime(s, elapsed) * s.extracted as real == s.total as real * elapsed
  {
    var t := TimePerAnnonce(s, elapsed);
    var e := s.extracted as real;
    assert t * e == elapsed;
    assert s.total as real * t * e == s.total as real * (t * e);
  }

  /** Before rounding, the time left and the time spent make up the whole run's time. */
  lemma RemainingPlusElapsed(s: Stats, elapsed: real)
    requires Estimating(s)
    ensures Remaining(s, elapsed) + elapsed == TotalTime(s, elapsed)
  {
    var t := TimePerAnnonce(s, elapsed);
    var e := s.extracted as real;
    assert e * t == elapsed;
    assert (s.total - s.extracted) as real * t + e * t == s.total as real * t;
  }

  /** After rounding, the three times shown are off by at most one second from adding up. */
  lemma ShownTimesAddUp(s: Stats, elapsed: real)
    requires Estimating(s)
    ensures var d := UpdateStats(s, elapsed);
      -1 <= d.estimatedTimeRemaining + d.elapsedTime - d.estimatedTotalTime <= 1
  {
    RemainingPlusElapsed(s, elapsed);
  }
}
