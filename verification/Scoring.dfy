/** The scoring rubric (scoring/score.go, scoring/result.go). Instants are nanoseconds. */
module Scoring {
  import opened Streams

  datatype Config = Config(announcedAt: int, deadlineAt: int, windowStart: int, windowEnd: int)

  /** time.Time.Sub, which saturates. */
  function Sub(t: int, u: int): int {
    if t - u > MAX_INT64 then MAX_INT64 else if t - u < MIN_INT64 then MIN_INT64 else t - u
  }

  function TieredTimeScore(t: int, cfg: Config): int {
    var total := Sub(cfg.deadlineAt, cfg.announcedAt);
    var elapsed := Sub(t, cfg.announcedAt);
    if total <= 0 then 0
    else if elapsed < 0 then 0
    else if elapsed <= total / 4 then 25
    else if elapsed <= total / 2 then 19
    else if elapsed <= total / 4 * 3 then 13
    else if elapsed <= total then 6
    else 0
  }

  /** The rubric's quarters, without rounding. */
  function QuarterScore(elapsed: int, total: int): int {
    if total <= 0 || elapsed < 0 then 0
    else if 4 * elapsed <= total then 25
    else if 4 * elapsed <= 2 * total then 19
    else if 4 * elapsed <= 3 * total then 13
    else if 4 * elapsed <= 4 * total then 6
    else 0
  }

  /** The rubric's marks: 25 for the first quarter, 19 for the second, 13 for the third, 6 for the last,
      nothing outside the exercise. */
  lemma QuarterMarks(elapsed: int, total: int)
    requires 0 < total
    ensures 0 <= elapsed && 4 * elapsed <= total ==> QuarterScore(elapsed, total) == 25
    ensures total < 4 * elapsed <= 2 * total ==> QuarterScore(elapsed, total) == 19
    ensures 2 * total < 4 * elapsed <= 3 * total ==> QuarterScore(elapsed, total) == 13
    ensures 3 * total < 4 * elapsed <= 4 * total ==> QuarterScore(elapsed, total) == 6
    ensures elapsed < 0 || total < elapsed ==> QuarterScore(elapsed, total) == 0
  {
  }

  /** The same for instants however far apart: their differences saturate. */
  lemma TiersNeverOverflow(t: int, cfg: Config)
    ensures var total, elapsed := Sub(cfg.deadlineAt, cfg.announcedAt), Sub(t, cfg.announcedAt);
            && MIN_INT64 <= total <= MAX_INT64 && MIN_INT64 <= elapsed <= MAX_INT64
            && (total > 0 ==>
                  && 0 <= total / 4 * 3 <= MAX_INT64
                  && (TieredTimeScore(t, cfg) == QuarterScore(elapsed, total) <==>
                        !(total / 4 * 3 < elapsed <= 3 * total / 4 && total / 2 < elapsed)))
  {
    var total := Sub(cfg.deadlineAt, cfg.announcedAt);
    if total > 0 {
      assert total == total / 4 * 4 + total % 4;
      assert total == total / 2 * 2 + total % 2;
      assert 3 * total == 3 * total / 4 * 4 + 3 * total % 4;
    }
  }

  /** The third tier's bound stays within int64 and falls short of three quarters by at most 2 ns,
      and only inside that gap does the score differ from the rubric's, or when an exercise of 292 years
      ended more than that ago. */
  lemma TiersFollowTheRubric(t: int, cfg: Config)
    ensures cfg.deadlineAt <= cfg.announcedAt ==> TieredTimeScore(t, cfg) == 0
    ensures var total, elapsed := cfg.deadlineAt - cfg.announcedAt, t - cfg.announcedAt;
            0 < total <= MAX_INT64 ==>
              && 0 <= total / 4 * 3 <= MAX_INT64
              && 3 * total / 4 - 2 <= total / 4 * 3 <= 3 * total / 4
              && (TieredTimeScore(t, cfg) == QuarterScore(elapsed, total) <==>
                    !(total / 4 * 3 < elapsed <= 3 * total / 4 && total / 2 < elapsed)
                    && !(total == MAX_INT64 < elapsed))
  {
    var total := cfg.deadlineAt - cfg.announcedAt;
    if 0 < total <= MAX_INT64 {
      TiersNeverOverflow(t, cfg);
      assert total == total / 4 * 4 + total % 4;
      assert 3 * total == 3 * total / 4 * 4 + 3 * total % 4;
    }
  }

  /** An upload inside that gap: 4 ns into an exercise of 7 ns is within three quarters of it. */
  lemma ThirdTierFallsShort()
    ensures TieredTimeScore(4, Config(0, 7, 0, 0)) == 6 && QuarterScore(4, 7) == 13
  {
  }

  /** After the announcement, later never scores more. */
  lemma TimeScoreFalls(t: int, u: int, cfg: Config)
    requires cfg.announcedAt <= t <= u
    ensures TieredTimeScore(t, cfg) >= TieredTimeScore(u, cfg)
  {
    var total := Sub(cfg.deadlineAt, cfg.announcedAt);
    assert Sub(t, cfg.announcedAt) <= Sub(u, cfg.announcedAt);
    if total > 0 {
      assert total / 4 <= total / 2 <= total / 4 * 3 + 2;
    }
  }

  datatype LogWindowCheck = LogWindowCheck(detected: bool, covered: bool, truncated: bool,
                                           firstSeen: int, lastSeen: int, scannedBytes: int)

  const NO_WINDOW := LogWindowCheck(false, false, false, 0, 0, 0)

  function WindowCredit(w: LogWindowCheck, covered: int, detected: int): int {
    if w.covered then covered else if w.detected then detected else 0
  }

  function LogQualityScore(validator: LogWindowCheck, sentry: LogWindowCheck): int {
    13 + WindowCredit(validator, 8, 4) + WindowCredit(sentry, 4, 2)
  }

  /** The criterion's scale: 13 to 25, full marks only with both logs covering the window, and no more
      than 21 without a sentry log that shows timestamps. */
  lemma LogQualityScale(v: LogWindowCheck, s: LogWindowCheck)
    ensures 13 <= LogQualityScore(v, s) <= 25
    ensures LogQualityScore(v, s) == 25 <==> v.covered && s.covered
    ensures LogQualityScore(v, s) == 21 + WindowCredit(s, 4, 2) <==> v.covered
    ensures LogQualityScore(v, NO_WINDOW) <= 21
    ensures LogQualityScore(v, s) == 13 <==> !v.covered && !v.detected && !s.covered && !s.detected
  {
  }

  datatype Result = Result(
    id: string, scored: bool, genesisMatch: bool, versionSupported: bool,
    logWindow: LogWindowCheck, sentryLogPresent: bool, sentryLogWindow: LogWindowCheck,
    uploadTimeScore: int, metadataScore: int, logQualityScore: int,
    incidentResponse: Option<int>)
  {
    predicate Pending() {
      incidentResponse.None?
    }

    function TotalScore(): int {
      uploadTimeScore + metadataScore + logQualityScore + if Pending() then 0 else incidentResponse.value
    }
  }

  /** What a portal record may be: never scored and unmarked, or scored by the rubric. */
  ghost predicate Sane(r: Result) {
    if r.scored then
      && r.uploadTimeScore in {0, 6, 13, 19, 25} && r.metadataScore == 25
      && r.logQualityScore == LogQualityScore(r.logWindow, r.sentryLogWindow)
      && (r.Pending() || 0 <= r.incidentResponse.value <= 25)
    else
      r.Pending() && r.uploadTimeScore == r.metadataScore == r.logQualityScore == 0
  }

  lemma SaneBounds(r: Result)
    requires Sane(r)
    ensures !r.Pending() ==> r.scored
    ensures r.scored ==> 38 <= r.TotalScore() <= 100
    ensures !r.scored ==> r.TotalScore() == 0
    ensures r.TotalScore() == 100 <==>
      r.uploadTimeScore == r.metadataScore == r.logQualityScore == 25 && r.incidentResponse == Some(25)
  {
  }

  /** The total is additive: a mark adds itself to the unmarked total, and so does each point of the three
      automatic scores. */
  lemma TotalAdds(r: Result, mark: int, d: int)
    ensures r.(incidentResponse := Some(mark)).TotalScore() == r.(incidentResponse := None).TotalScore() + mark
    ensures r.(uploadTimeScore := r.uploadTimeScore + d).TotalScore() == r.TotalScore() + d
    ensures r.(metadataScore := r.metadataScore + d).TotalScore() == r.TotalScore() + d
    ensures r.(logQualityScore := r.logQualityScore + d).TotalScore() == r.TotalScore() + d
    ensures var none := r.(uploadTimeScore := 0, metadataScore := 0, logQualityScore := 0, incidentResponse := None);
            none.TotalScore() == 0
  {
  }
}
