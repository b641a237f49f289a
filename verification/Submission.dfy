/** One submission from request to record (portal/submit.go), and what the offline rescore later makes
    of the stored archive (cmd/rescore/main.go). */
module Submission {
  import opened Streams
  import opened Scoring
  import opened Archive
  import opened Records
  import Windowed
  import ScanArchive
  import WindowedTheorems
  import Timestamps
  import LogWindow
  import LogWindowTheorems
  import ScoreRuns

  datatype Meta = Meta(validatorAddress: string, moniker: string, sentryEnabled: bool, genesis: string, version: string)

  /** The parsers this model takes as given: file names, metadata.json, the two metadata checks, gzip,
      and time.Parse with the JSON fallback behind it. */
  datatype Parsers = Parsers(
    filename: string -> Option<string>,
    metadata: seq<byte> -> Option<Meta>,
    checks: (Meta, Config) -> (bool, bool),
    gunzip: Visit -> Option<Stream>,
    times: Timestamps.TimeParsers)

  // ---------- automatic scoring ----------

  /** A decompressed log, its bytes taken as characters. */
  function LogText(s: Stream): LogWindow.Log {
    LogWindow.Log(seq(|s.data|, i requires 0 <= i < |s.data| => s.data[i] as char), s.broken, s.eager)
  }

  /** ScanLogWindow's check of one visited log, under its two limits; the zero check when the log is not
      a gzip stream. */
  ghost function WindowCheck(v: Visit, ps: Parsers, cfg: Config): LogWindowCheck {
    match ps.gunzip(v)
    case None => NO_WINDOW
    case Some(s) =>
      LogWindow.CheckOf(LogText(s), cfg, LogWindow.MAX_WINDOW_BYTES, LogWindow.MAX_LINE_BYTES,
                        LogWindow.LineTime(Timestamps.TIMESTAMP, ps.times))
  }

  method ScanVisit(v: Visit, ps: Parsers, cfg: Config) returns (c: LogWindowCheck)
    ensures c == WindowCheck(v, ps, cfg)
  {
    var s := ps.gunzip(v);
    var log := if s.None? then None else Some(LogText(s.value));
    Timestamps.TimestampFacts();
    c := LogWindow.ScanLogWindow(log, cfg, LogWindow.MAX_WINDOW_BYTES, LogWindow.MAX_LINE_BYTES, Timestamps.TIMESTAMP,
                                 ps.times);
  }

  datatype Windows = Windows(validator: LogWindowCheck, sentry: LogWindowCheck)

  /** The window check of the last log visited under `name`; the zero check when there is none. */
  ghost function WindowOf(vs: seq<Visit>, name: Name, ps: Parsers, cfg: Config): LogWindowCheck {
    if vs == [] then NO_WINDOW
    else
      var v := vs[|vs| - 1];
      if v.name == name then WindowCheck(v, ps, cfg) else WindowOf(vs[..|vs| - 1], name, ps, cfg)
  }

  ghost function WindowsOf(vs: seq<Visit>, ps: Parsers, cfg: Config): Windows {
    Windows(WindowOf(vs, ValidatorLog, ps, cfg), WindowOf(vs, SentryLog, ps, cfg))
  }

  lemma WindowsOneMore(vs: seq<Visit>, v: Visit, ps: Parsers, cfg: Config)
    ensures var w := WindowsOf(vs, ps, cfg);
            WindowsOf(vs + [v], ps, cfg)
              == Windows(if v.name == ValidatorLog then WindowCheck(v, ps, cfg) else w.validator,
                         if v.name == SentryLog then WindowCheck(v, ps, cfg) else w.sentry)
  {
    assert (vs + [v])[..|vs|] == vs;
  }

  /** The walk of autoChecks and of rescoreOne over the logs. */
  method ScanWindows(t: Tar, opts: Options, ctx: nat -> bool, ps: Parsers, cfg: Config) returns (r: Option<Windows>)
    ensures r.Some? ==>
      !WalkFails(t, 0) && r.value == WindowsOf(LogsFrom(t, opts.WithDefaults().maxLogSize, 0), ps, cfg)
    ensures !WalkFails(t, 0) && (forall k :: 0 <= k <= |t.entries| ==> !ctx(k)) ==> r.Some?
  {
    var walk := new LogWalk(t, opts, ctx);
    var w := Windows(NO_WINDOW, NO_WINDOW);
    ghost var seen: seq<Visit>, all := [], walk.Rest();
    while true
      invariant walk.Valid() && walk.t == t && walk.ctx == ctx && fresh(walk)
      invariant Walked(all, seen, walk.Rest()) && WalkFails(t, walk.i) == WalkFails(t, 0)
      invariant w == WindowsOf(seen, ps, cfg)
      decreases |walk.Rest()|
    {
      var step := walk.Next();
      if step.Stopped? {
        return None;
      }
      if step.Finished? {
        assert seen == all;
        return Some(w);
      }
      WalkOneMore(all, seen, step.visit, walk.Rest());
      WindowsOneMore(seen, step.visit, ps, cfg);
      var c := ScanVisit(step.visit, ps, cfg);
      w := if step.visit.name == ValidatorLog then w.(validator := c) else w.(sentry := c);
      seen := seen + [step.visit];
    }
  }

  /** The automatic record of an accepted archive. */
  function AutoResult(id: string, at: int, meta: Meta, sentryPresent: bool, w: Windows, ps: Parsers,
                      cfg: Config): Result {
    var (genesisMatch, versionSupported) := ps.checks(meta, cfg);
    Result(id, true, genesisMatch, versionSupported, w.validator, sentryPresent, w.sentry,
           TieredTimeScore(at, cfg), 25, LogQualityScore(w.validator, w.sentry), None)
  }

  function Unscored(id: string): Result {
    Result(id, false, false, false, NO_WINDOW, false, NO_WINDOW, 0, 0, 0, None)
  }

  lemma AutomaticRecordsAreSane(id: string, at: int, meta: Meta, sentryPresent: bool, w: Windows, ps: Parsers,
                                cfg: Config)
    ensures Sane(AutoResult(id, at, meta, sentryPresent, w, ps, cfg)) && Sane(Unscored(id))
    // a submission without automatic checks claims nothing and earns nothing
    ensures var r := Unscored(id);
            && r.id == id && !r.scored && r.Pending() && r.TotalScore() == 0
            && !r.genesisMatch && !r.versionSupported && !r.sentryLogPresent
            && r.logWindow == r.sentryLogWindow == LogWindowCheck(false, false, false, 0, 0, 0)
  {
  }

  ghost predicate IsRecordOf(r: Result, a: Accepted, meta: Meta, t: Tar, opts: Options, id: string, at: int,
                             ps: Parsers, cfg: Config) {
    var visits := LogsFrom(t, opts.WithDefaults().maxLogSize, 0);
    && Acceptable(t, opts) && Describes(a, t, opts) && ps.metadata(a.metadata) == Some(meta)
    && r == AutoResult(id, at, meta, a.sentryLogPresent, WindowsOf(visits, ps, cfg), ps, cfg)
  }

  /** `r` is the automatic record of archive `t`, accepted under `opts`, at instant `at`. */
  ghost predicate IsAutomatic(r: Result, t: Tar, opts: Options, id: string, at: int, ps: Parsers, cfg: Config) {
    exists a, meta :: IsRecordOf(r, a, meta, t, opts, id, at, ps, cfg)
  }

  lemma {:induction false} WindowOfOnly(vs: seq<Visit>, v: Visit, ps: Parsers, cfg: Config)
    requires v in vs && DistinctVisits(vs)
    ensures WindowOf(vs, v.name, ps, cfg) == WindowCheck(v, ps, cfg)
  {
    var n := |vs| - 1;
    if vs[n].name != v.name {
      WindowOfOnly(vs[..n], v, ps, cfg);
    } else {
      var k :| 0 <= k <= n && vs[k] == v;
    }
  }

  lemma {:induction false} WindowOfNone(vs: seq<Visit>, name: Name, ps: Parsers, cfg: Config)
    requires forall v :: v in vs ==> v.name != name
    ensures WindowOf(vs, name, ps, cfg) == NO_WINDOW
  {
    if vs != [] {
      WindowOfNone(vs[..|vs| - 1], name, ps, cfg);
    }
  }

  /** The metadata entry is what gets parsed: at the very top of int64 its limit wraps, and then nothing
      of it is read; that passes only where an empty document does, which is no JSON object. */
  predicate ReadsMetadata(ps: Parsers, opts: Options) {
    opts.maxMetadataSize < MAX_INT64 || ps.metadata([]).None?
  }

  /** What an automatic record says about the archive: each window is that of the whole entry of its
      name, an absent sentry log has the zero check, and the time is scored at the given instant. */
  lemma AutomaticRecordSays(r: Result, t: Tar, opts: Options, id: string, at: int, ps: Parsers, cfg: Config, k: nat)
    requires IsAutomatic(r, t, opts, id, at, ps, cfg) && k < |t.entries|
    ensures r.id == id && r.scored && r.Pending() && r.uploadTimeScore == TieredTimeScore(at, cfg)
    ensures r.metadataScore == 25 && r.logQualityScore == LogQualityScore(r.logWindow, r.sentryLogWindow)
    ensures t.entries[k].name == ValidatorLog ==>
      r.logWindow == WindowCheck(Visit(ValidatorLog, t.entries[k].content, false), ps, cfg)
    ensures t.entries[k].name == SentryLog ==>
      r.sentryLogPresent && r.sentryLogWindow == WindowCheck(Visit(SentryLog, t.entries[k].content, false), ps, cfg)
    ensures !HasEntry(t, SentryLog) ==> !r.sentryLogPresent && r.sentryLogWindow == NO_WINDOW
    ensures t.entries[k].name == Metadata && ReadsMetadata(ps, opts) ==>
      var meta := ps.metadata(t.entries[k].content);
      meta.Some? && (r.genesisMatch, r.versionSupported) == ps.checks(meta.value, cfg)
  {
    var a, meta :| IsRecordOf(r, a, meta, t, opts, id, at, ps, cfg);
    SecondWalkAgrees(t, opts, a);
    var vs, e := LogsFrom(t, opts.WithDefaults().maxLogSize, 0), t.entries[k];
    if IsLog(e.name) {
      var v := Visit(e.name, e.content, false);
      assert WholeLog(t, 0, v);
      WindowOfOnly(vs, v, ps, cfg);
      assert e.name == SentryLog ==> HasEntry(t, SentryLog);
    }
    if !HasEntry(t, SentryLog) {
      WindowOfNone(vs, SentryLog, ps, cfg);
    }
  }

  /** rescoreOne: both walks over a stored archive, scored at the recorded time. */
  method RescoreOne(stored: Option<Tar>, opts: Options, e: LogEntry, ps: Parsers, cfg: Config)
    returns (r: Option<Result>)
    requires stored.Some? ==> Sized(stored.value, opts)
    ensures r.Some? ==> stored.Some? && IsAutomatic(r.value, stored.value, opts, e.id, e.submittedAt, ps, cfg)
    ensures stored.Some? && r.None? ==>
      forall x :: !IsAutomatic(x, stored.value, opts, e.id, e.submittedAt, ps, cfg)
  {
    if stored.None? {
      return None;
    }
    var t := stored.value;
    var v := ValidateArchive(_ => false, t, opts);
    if v.Invalid? {
      return None;
    }
    var meta := ps.metadata(v.accepted.metadata);
    DescribedOnce(t, opts, v.accepted);
    if meta.None? {
      return None;
    }
    SecondWalkAgrees(t, opts, v.accepted);
    var w := ScanWindows(t, opts, _ => false, ps, cfg);
    var result := AutoResult(e.id, e.submittedAt, meta.value, v.accepted.sentryLogPresent, w.value, ps, cfg);
    assert IsRecordOf(result, v.accepted, meta.value, t, opts, e.id, e.submittedAt, ps, cfg);
    return Some(result);
  }

  lemma DescribedOnce(t: Tar, opts: Options, a: Accepted)
    requires Acceptable(t, opts) && Describes(a, t, opts)
    ensures forall b :: Describes(b, t, opts) ==> b == a
  {
    var k :| 0 <= k < |t.entries| && t.entries[k].name == Metadata;
    forall b | Describes(b, t, opts)
      ensures b == a
    {
      assert b.metadata == a.metadata;
    }
  }

  lemma {:induction false} SameVisits(t: Tar, o: Options, o': Options, i: nat)
    requires i <= |t.entries|
    requires forall k :: 0 <= k < |t.entries| ==> GoodEntry(t.entries[k], o) && GoodEntry(t.entries[k], o')
    ensures LogsFrom(t, o.maxLogSize, i) == LogsFrom(t, o'.maxLogSize, i)
    decreases |t.entries| - i
  {
    if i < |t.entries| {
      SameVisits(t, o, o', i + 1);
      var e := t.entries[i];
      assert IsLog(e.name) ==> Limited(e, o.maxLogSize) == e.content == Limited(e, o'.maxLogSize);
    }
  }

  lemma MetadataWasRead(r: Result, t: Tar, opts: Options, id: string, at: int, ps: Parsers, cfg: Config)
    requires IsAutomatic(r, t, opts, id, at, ps, cfg) && ReadsMetadata(ps, opts)
    ensures opts.maxMetadataSize < MAX_INT64
  {
    var a, meta :| IsRecordOf(r, a, meta, t, opts, id, at, ps, cfg);
    var k :| 0 <= k < |t.entries| && t.entries[k].name == Metadata;
  }

  /** Under one configuration the automatic fields of an archive are fixed: whatever two option sets
      accept it, the portal's and the rescore's, they give the same record for the same id and time. */
  lemma RescoreAgrees(r: Result, r': Result, t: Tar, opts: Options, opts': Options, id: string, at: int, ps: Parsers,
                      cfg: Config)
    requires IsAutomatic(r, t, opts, id, at, ps, cfg) && IsAutomatic(r', t, opts', id, at, ps, cfg)
    requires opts.maxMetadataSize == opts'.maxMetadataSize || (ReadsMetadata(ps, opts) && ReadsMetadata(ps, opts'))
    ensures r == r'
  {
    var a, meta :| IsRecordOf(r, a, meta, t, opts, id, at, ps, cfg);
    var a', meta' :| IsRecordOf(r', a', meta', t, opts', id, at, ps, cfg);
    if opts.maxMetadataSize != opts'.maxMetadataSize {
      MetadataWasRead(r, t, opts, id, at, ps, cfg);
      MetadataWasRead(r', t, opts', id, at, ps, cfg);
    }
    assert Describes(a', t, opts);
    DescribedOnce(t, opts, a);
    SameVisits(t, opts.WithDefaults(), opts'.WithDefaults(), 0);
  }

  // ---------- ServeHTTP ----------

  const METHOD_NOT_ALLOWED := 405
  const UNAUTHORIZED := 401
  const FORBIDDEN := 403
  const UNPROCESSABLE := 422
  const SERVICE_UNAVAILABLE := 503

  datatype Upload = Upload(filename: string, tar: Tar)

  datatype Request = Request(post: bool, operator: Option<string>, parses: bool, upload: Option<Upload>)

  /** How the handler is wired: options, budget, and which stores it was given. */
  datatype Setup = Setup(opts: Options, budget: int, hasScores: bool, hasLog: bool)

  datatype Exercise = NotWired | Unreadable | Unconfigured | Configured(cfg: Config)

  /** What else a run depends on: cancellation during the two gated walks, the three rewinds, the random
      id, the clock, and how the stores behave. */
  datatype Circumstances = Circumstances(ctx: nat -> bool, scanCtx: nat -> bool, rewoundForScan: bool,
                                         id: Option<string>, rewoundForStore: bool, rewoundForScore: bool, now: int,
                                         onSave: SaveFault, onScore: Fault, logFails: bool)

  /** File name, archive and metadata of the upload are valid. */
  ghost predicate ValidUpload(req: Request, opts: Options, ps: Parsers, u: Upload, moniker: string, a: Accepted,
                              meta: Meta) {
    && req.parses && req.upload == Some(u) && ps.filename(u.filename) == Some(moniker)
    && Acceptable(u.tar, opts) && Describes(a, u.tar, opts) && ps.metadata(a.metadata) == Some(meta)
  }

  /** What the checks before the antivirus established. */
  ghost predicate Screened(req: Request, opts: Options, ps: Parsers, u: Upload, moniker: string, a: Accepted,
                           meta: Meta) {
    && req.post && req.operator.Some? && ValidUpload(req, opts, ps, u, moniker, a, meta)
    && meta.validatorAddress == req.operator.value && meta.moniker == moniker
  }

  /** The client stayed while the archive was validated. */
  ghost predicate Stayed(req: Request, ctx: nat -> bool) {
    req.upload.Some? ==> forall i :: 0 <= i <= |req.upload.value.tar.entries| ==> !ctx(i)
  }

  /** The upload is valid, but its metadata names someone else's address. */
  ghost predicate NamesAnother(req: Request, opts: Options, ps: Parsers) {
    req.operator.Some? &&
    exists u, moniker, a, meta ::
      ValidUpload(req, opts, ps, u, moniker, a, meta) && meta.validatorAddress != req.operator.value
  }

  ghost predicate PassesScreen(req: Request, opts: Options, ps: Parsers, ctx: nat -> bool) {
    Stayed(req, ctx) && exists u, moniker, a, meta :: Screened(req, opts, ps, u, moniker, a, meta)
  }

  /** Each refusal before the antivirus has its cause: 405 not a POST, else 401 nobody signed in, else 403
      another's address in a valid upload, and 400 whatever else is wrong with it. */
  ghost predicate RefusedAs(status: int, req: Request, opts: Options, ps: Parsers, ctx: nat -> bool) {
    && (status == 405 <==> !req.post)
    && (status == 401 <==> req.post && req.operator.None?)
    && (status == 403 <==> req.post && req.operator.Some? && Stayed(req, ctx) && NamesAnother(req, opts, ps))
    && status in {400, 401, 403, 405}
  }

  /** What the antivirus pass established: metadata clean, every log of the archive visited under the
      one budget, no detection anywhere. Nothing, when no scanner is wired. */
  ghost predicate Vetted(av: Option<ScanArchive.Antivirus>, setup: Setup, ps: Parsers, t: Tar,
                         logs: seq<ScanArchive.LogScan>) {
    av.Some? ==>
      && av.value.onMetadata.Answer? && !av.value.onMetadata.verdict.infected
      && ScanArchive.Shared(logs, ScanArchive.EffectiveBudget(setup.budget), av.value, ps.gunzip)
      && ScanArchive.Visits(logs) == LogsFrom(t, setup.opts.WithDefaults().maxLogSize, 0)
      && ScanArchive.NoneInfected(logs)
  }

  ghost function CoverageOf(av: Option<ScanArchive.Antivirus>,
                            logs: seq<ScanArchive.LogScan>): Option<Windowed.Coverage>
    requires ScanArchive.Over(logs)
  {
    if av.None? then None
    else Some(Windowed.Coverage(ScanArchive.AllComplete(logs), ScanArchive.TotalBytes(logs)))
  }

  /** What is recorded about the scan: nothing without a scanner; else the bytes covered in all logs, and
      complete when every one of them was. */
  lemma CoverageSays(av: Option<ScanArchive.Antivirus>, logs: seq<ScanArchive.LogScan>, k: nat)
    requires ScanArchive.Over(logs)
    ensures CoverageOf(av, logs).None? <==> av.None?
    ensures av.Some? ==> CoverageOf(av, logs).value.bytes == ScanArchive.TotalBytes(logs)
    ensures av.Some? && CoverageOf(av, logs).value.complete && k < |logs| ==> logs[k].Complete()
    ensures av.Some? && (forall i :: 0 <= i < |logs| ==> logs[i].Complete()) ==> CoverageOf(av, logs).value.complete
  {
  }

  datatype Screening = Rejected(status: int) | Passed(upload: Upload, moniker: string, accepted: Accepted, meta: Meta)

  /** ServeHTTP up to the identity checks. */
  method Screen(req: Request, setup: Setup, ps: Parsers, ctx: nat -> bool) returns (r: Screening)
    requires req.upload.Some? ==> Sized(req.upload.value.tar, setup.opts)
    ensures r.Passed? ==> Screened(req, setup.opts, ps, r.upload, r.moniker, r.accepted, r.meta)
    ensures r.Passed? <==> PassesScreen(req, setup.opts, ps, ctx)
    ensures r.Rejected? ==> RefusedAs(r.status, req, setup.opts, ps, ctx)
  {
    if !req.post {
      return Rejected(METHOD_NOT_ALLOWED);
    }
    if req.operator.None? {
      return Rejected(UNAUTHORIZED);
    }
    if !req.parses || req.upload.None? {
      return Rejected(BAD_REQUEST);
    }
    var u := req.upload.value;
    var moniker := ps.filename(u.filename);
    if moniker.None? {
      return Rejected(BAD_REQUEST);
    }
    var v := ValidateArchive(ctx, u.tar, setup.opts);
    if v.Invalid? {
      return Rejected(BAD_REQUEST);
    }
    DescribedOnce(u.tar, setup.opts, v.accepted);
    var meta := ps.metadata(v.accepted.metadata);
    if meta.None? {
      return Rejected(BAD_REQUEST);
    }
    assert ValidUpload(req, setup.opts, ps, u, moniker.value, v.accepted, meta.value);
    if meta.value.validatorAddress != req.operator.value {
      return Rejected(FORBIDDEN);
    }
    if meta.value.moniker != moniker.value {
      return Rejected(BAD_REQUEST);
    }
    assert Screened(req, setup.opts, ps, u, moniker.value, v.accepted, meta.value);
    return Passed(u, moniker.value, v.accepted, meta.value);
  }

  /** The answer to each outcome of the pass; None to go on. */
  function StopStatus(out: ScanArchive.PassOutcome): Option<int> {
    match out
    case UnreadableLog => Some(BAD_REQUEST)
    case Unavailable => Some(SERVICE_UNAVAILABLE)
    case Verdicted(verdict, _) => if verdict.infected then Some(UNPROCESSABLE) else None
  }

  /** How the antivirus step stops a submission, and why. Without a scanner it does not. Metadata comes
      first: 503 when it gets no answer, 422 when it is infected. Then the logs in turn: 422 at the first
      infected one, 400 at one that is no gzip stream, 503 for a failure on this side. */
  ghost predicate Judged(stop: Option<int>, av: Option<ScanArchive.Antivirus>, setup: Setup, ps: Parsers, t: Tar,
                         c: Circumstances, logs: seq<ScanArchive.LogScan>)
  {
    var all := LogsFrom(t, setup.opts.WithDefaults().maxLogSize, 0);
    && ScanArchive.Over(logs)
    && (stop.None? ==> Vetted(av, setup, ps, t, logs))
    && (stop.Some? ==>
          && av.Some? && stop.value in {400, 422, 503}
          && ScanArchive.Shared(logs, ScanArchive.EffectiveBudget(setup.budget), av.value, ps.gunzip)
          && ScanArchive.Visits(logs) <= all)
    && (av.Some? && av.value.onMetadata.Refused? ==> stop == Some(503))
    && (av.Some? && av.value.onMetadata.Answer? && av.value.onMetadata.verdict.infected ==> stop == Some(422))
    && (av.Some? && av.value.onMetadata.Answer? && !av.value.onMetadata.verdict.infected ==>
          && (stop == Some(422) ==>
                |logs| > 0 && ScanArchive.NoneInfected(logs[..|logs| - 1]) && !ScanArchive.NoneInfected(logs))
          && (stop == Some(400) ==>
                ScanArchive.NoneInfected(logs) && |logs| < |all| && ps.gunzip(all[|logs|]).None?))
    && (stop == Some(503) ==>
          !(&& ScanArchive.Cooperative(av.value) && c.rewoundForScan && !WalkFails(t, 0)
            && forall i :: 0 <= i <= |t.entries| ==> !c.scanCtx(i)))
  }

  /** The antivirus step. */
  method Vet(av: Option<ScanArchive.Antivirus>, setup: Setup, ps: Parsers, t: Tar, c: Circumstances)
    returns (stop: Option<int>, coverage: Option<Windowed.Coverage>, ghost logs: seq<ScanArchive.LogScan>)
    ensures Judged(stop, av, setup, ps, t, c, logs)
    ensures stop.None? ==> coverage == CoverageOf(av, logs)
  {
    logs := [];
    if av.None? {
      return None, None, logs;
    }
    var out;
    out, logs := ScanArchive.Run(av.value, t, setup.opts, c.scanCtx, c.rewoundForScan, ps.gunzip, setup.budget);
    stop := StopStatus(out);
    coverage := if stop.None? then Some(out.coverage) else None;
  }

  /** The record the scoring step writes. */
  ghost predicate ScoreRecord(r: Result, t: Tar, setup: Setup, id: string, at: int, ps: Parsers, ex: Exercise,
                              rewound: bool) {
    if ex.Configured? && rewound then IsAutomatic(r, t, setup.opts, id, at, ps, ex.cfg) else r == Unscored(id)
  }

  /** The scoring step: organizer-side, so nothing in it fails the request. */
  method Score(stores: Stores, ex: Exercise, setup: Setup, ps: Parsers, t: Tar, a: Accepted, meta: Meta, id: string,
               c: Circumstances)
    requires Acceptable(t, setup.opts) && Describes(a, t, setup.opts) && ps.metadata(a.metadata) == Some(meta)
    modifies stores`scores
    ensures if ex.NotWired? || ex.Unreadable? || !setup.hasScores || c.onScore.Refused?
            then stores.scores == old(stores.scores)
            else exists r :: && ScoreRecord(r, t, setup, id, c.now, ps, ex, c.rewoundForScore)
                             && stores.scores == old(stores.scores)[id := r]
  {
    if ex.NotWired? || ex.Unreadable? {
      return;
    }
    var result := Unscored(id);
    if ex.Configured? && c.rewoundForScore {
      SecondWalkAgrees(t, setup.opts, a);
      var w := ScanWindows(t, setup.opts, _ => false, ps, ex.cfg);
      result := AutoResult(id, c.now, meta, a.sentryLogPresent, w.value, ps, ex.cfg);
      assert IsRecordOf(result, a, meta, t, setup.opts, id, c.now, ps, ex.cfg);
    }
    assert ScoreRecord(result, t, setup, id, c.now, ps, ex, c.rewoundForScore);
    if setup.hasScores {
      var ok := stores.SetScore(result, c.onScore);
    }
  }

  /** SubmitHandler.ServeHTTP. `saved` when the run reached Store.Save. */
  method ServeHTTP(stores: Stores, req: Request, setup: Setup, ps: Parsers, av: Option<ScanArchive.Antivirus>,
                   ex: Exercise, c: Circumstances)
    returns (status: int, ghost saved: bool, ghost stop: Option<int>, ghost logs: seq<ScanArchive.LogScan>)
    requires req.upload.Some? ==> Sized(req.upload.value.tar, setup.opts)
    modifies stores
    ensures ScanArchive.Over(logs)
    // every refusal answers with its cause: screening, antivirus, then 500 for this side's own failures
    ensures !PassesScreen(req, setup.opts, ps, c.ctx) ==> !saved && RefusedAs(status, req, setup.opts, ps, c.ctx)
    ensures PassesScreen(req, setup.opts, ps, c.ctx) ==>
      && req.upload.Some? && Judged(stop, av, setup, ps, req.upload.value.tar, c, logs)
      && (stop.Some? ==> !saved && status == stop.value)
      && (stop.None? ==> (saved <==> c.id.Some? && c.rewoundForStore) && status in {200, 500})
    // only a vetted submission reaches the store
    ensures saved ==> req.operator.Some? && req.upload.Some? && c.id.Some?
    ensures saved ==> exists moniker, a, meta :: Screened(req, setup.opts, ps, req.upload.value, moniker, a, meta)
    ensures saved ==> Vetted(av, setup, ps, req.upload.value.tar, logs)
    // until then nothing is written, and a failed save scores and records nothing
    ensures !saved ==> stores.S() == old(stores.S()) && status != 200
    ensures status != 200 ==> stores.scores == old(stores.scores) && stores.log == old(stores.log)
    // from then on only the save can fail the request
    ensures saved ==> (status == 200 <==> req.upload.value.filename !in old(stores.archives) && c.onSave.SaveFine?)
    // a success stores the upload unchanged, scores it, and records it with the pass's coverage, all at one instant
    ensures status == 200 ==> saved
    ensures status == 200 ==>
      var u, id := req.upload.value, c.id.value;
      && stores.archives == old(stores.archives)[u.filename := u.tar]
      && (if setup.hasLog && !c.logFails then
            exists moniker, a, meta :: Screened(req, setup.opts, ps, u, moniker, a, meta)
              && stores.log == old(stores.log) + [LogEntry(id, moniker, req.operator.value, u.filename, c.now,
                                                           meta.sentryEnabled, CoverageOf(av, logs))]
          else stores.log == old(stores.log))
      && (if ex.NotWired? || ex.Unreadable? || !setup.hasScores || c.onScore.Refused?
          then stores.scores == old(stores.scores)
          else exists r :: ScoreRecord(r, u.tar, setup, id, c.now, ps, ex, c.rewoundForScore)
                           && stores.scores == old(stores.scores)[id := r])
  {
    saved, stop, logs := false, None, [];
    var s := Screen(req, setup, ps, c.ctx);
    if s.Rejected? {
      return s.status, saved, stop, logs;
    }
    var halt, coverage;
    halt, coverage, logs := Vet(av, setup, ps, s.upload.tar, c);
    stop := halt;
    if halt.Some? {
      return halt.value, saved, stop, logs;
    }
    if c.id.None? || !c.rewoundForStore {
      return SERVER_ERROR, saved, stop, logs;
    }
    saved := true;
    var ok := stores.SaveArchive(s.upload.filename, s.upload.tar, c.onSave);
    if !ok {
      return SERVER_ERROR, saved, stop, logs;
    }
    Score(stores, ex, setup, ps, s.upload.tar, s.accepted, s.meta, c.id.value, c);
    if setup.hasLog {
      var e := LogEntry(c.id.value, s.moniker, req.operator.value, s.upload.filename, c.now, s.meta.sentryEnabled,
                        coverage);
      var recorded := stores.Record(e, c.logFails);
    }
    return OK, saved, stop, logs;
  }

  // ---------- what reaching the store means ----------

  lemma {:induction false} VisitScanned(logs: seq<ScanArchive.LogScan>, v: Visit) returns (k: nat)
    requires v in ScanArchive.Visits(logs)
    ensures k < |logs| && logs[k].visit == v
  {
    var n := |logs| - 1;
    if logs[n].visit == v {
      return n;
    }
    k := VisitScanned(logs[..n], v);
  }

  /** With scanners that read their windows to the end, no window of any log of a stored archive was called
      infected; and if the coverage recorded for it is complete, every log entry was decompressed to its end
      with every byte of it in a window that came back clean. */
  lemma StoredArchivesWereScanned(av: ScanArchive.Antivirus, setup: Setup, ps: Parsers, t: Tar, a: Accepted,
                                  logs: seq<ScanArchive.LogScan>, entry: nat)
    requires Vetted(Some(av), setup, ps, t, logs)
    requires Acceptable(t, setup.opts) && Describes(a, t, setup.opts)
    requires forall i :: WindowedTheorems.Thorough(av.onLog(i))
    requires entry < |t.entries| && IsLog(t.entries[entry].name)
    ensures exists k ::
      && 0 <= k < |logs|
      && logs[k].visit == Visit(t.entries[entry].name, t.entries[entry].content, false)
      && ScanArchive.NoWindowInfected(logs[k])
      && (CoverageOf(Some(av), logs).value.complete ==> ScanArchive.WhollyScanned(logs[k]))
  {
    SecondWalkAgrees(t, setup.opts, a);
    var v := Visit(t.entries[entry].name, t.entries[entry].content, false);
    assert WholeLog(t, 0, v);
    var k := VisitScanned(logs, v);
    ScanArchive.CleanPass(logs, ScanArchive.EffectiveBudget(setup.budget), av, ps.gunzip, k);
  }

  /** Rescoring a submission from its own log entry reproduces the automatic record made when it was
      stored, whatever options the rescore accepts the archive with. */
  lemma RescoreReproduces(r: Result, r': Result, t: Tar, setup: Setup, opts: Options, e: LogEntry, ps: Parsers,
                          cfg: Config)
    requires ScoreRecord(r, t, setup, e.id, e.submittedAt, ps, Configured(cfg), true)
    requires IsAutomatic(r', t, opts, e.id, e.submittedAt, ps, cfg)
    requires setup.opts.maxMetadataSize == opts.maxMetadataSize
      || (ReadsMetadata(ps, setup.opts) && ReadsMetadata(ps, opts))
    ensures r' == r
  {
    RescoreAgrees(r, r', t, setup.opts, opts, e.id, e.submittedAt, ps, cfg);
  }

  /** What one set of limits scores, a set of looser ones scores the same way, exactly when neither of its
      limits reaches the top of int64: a rescore so configured skips no archive the portal scored. That an
      empty document is no metadata is the JSON parser's part. */
  lemma LooserRescoreSkipsExactly(r: Result, t: Tar, opts: Options, opts': Options, id: string, at: int,
                                  ps: Parsers, cfg: Config)
    requires IsAutomatic(r, t, opts, id, at, ps, cfg) && ps.metadata([]).None? && Loosens(opts', opts)
    requires opts'.maxLogSize <= MAX_INT64 && opts'.maxMetadataSize <= MAX_INT64
    ensures var below := opts'.maxLogSize < MAX_INT64 && opts'.maxMetadataSize < MAX_INT64;
            && (below ==> IsAutomatic(r, t, opts', id, at, ps, cfg))
            && (!below ==> forall x :: !IsAutomatic(x, t, opts', id, at, ps, cfg))
  {
    MetadataWasRead(r, t, opts, id, at, ps, cfg);
    LooserLimitsAcceptExactly(t, opts, opts');
    var a, meta :| IsRecordOf(r, a, meta, t, opts, id, at, ps, cfg);
    if opts'.maxLogSize < MAX_INT64 && opts'.maxMetadataSize < MAX_INT64 {
      SameVisits(t, opts.WithDefaults(), opts'.WithDefaults(), 0);
      assert IsRecordOf(r, a, meta, t, opts', id, at, ps, cfg);
    } else {
      forall x | IsAutomatic(x, t, opts', id, at, ps, cfg)
        ensures false
      {
        MetadataWasRead(x, t, opts', id, at, ps, cfg);
      }
    }
  }

  // ---------- from the lines of a log to the record ----------

  /** The instants recognized in a decompressed log, line by line, within the scan's limits. */
  ghost function RecognizedTimes(s: Stream, ps: Parsers): seq<int> {
    LogWindow.Times(LogWindowTheorems.TokensOf(LogText(s), LogWindow.MAX_WINDOW_BYTES, LogWindow.MAX_LINE_BYTES),
                    LogWindow.LineTime(Timestamps.TIMESTAMP, ps.times))
  }

  /** The credit that timestamps earn: `full` when they span the window, `part` when there are any. */
  ghost function Earned(times: seq<int>, cfg: Config, full: int, part: int): int {
    if LogWindow.Spans(times, cfg) then full else if times != [] then part else 0
  }

  lemma VisitSays(v: Visit, s: Stream, ps: Parsers, cfg: Config, full: int, part: int)
    requires ps.gunzip(v) == Some(s)
    ensures var times, w := RecognizedTimes(s, ps), WindowCheck(v, ps, cfg);
            && (w.detected <==> times != []) && (w.covered <==> LogWindow.Spans(times, cfg))
            && (w.detected ==> LogWindow.IsEarliest(w.firstSeen, times) && LogWindow.IsLatest(w.lastSeen, times))
            && WindowCredit(w, full, part) == Earned(times, cfg, full, part)
  {
    CheckSays(WindowCheck(v, ps, cfg), LogText(s), cfg, LogWindow.MAX_WINDOW_BYTES, LogWindow.MAX_LINE_BYTES,
              LogWindow.LineTime(Timestamps.TIMESTAMP, ps.times), RecognizedTimes(s, ps), full, part);
  }

  /** The window on record is decided by the timestamps that the plain regular expression finds in the
      lines of the log, prefilter, line scan, archive walk and budget notwithstanding. */
  lemma RecordedWindowSays(r: Result, t: Tar, opts: Options, id: string, at: int, ps: Parsers, cfg: Config, k: nat,
                           s: Stream)
    requires IsAutomatic(r, t, opts, id, at, ps, cfg) && k < |t.entries| && IsLog(t.entries[k].name)
    requires ps.gunzip(Visit(t.entries[k].name, t.entries[k].content, false)) == Some(s)
    ensures var times, w := RecognizedTimes(s, ps), WindowFor(r, t.entries[k].name);
            && (w.detected <==> times != []) && (w.covered <==> LogWindow.Spans(times, cfg))
            && (w.detected ==> LogWindow.IsEarliest(w.firstSeen, times) && LogWindow.IsLatest(w.lastSeen, times))
  {
    AutomaticRecordSays(r, t, opts, id, at, ps, cfg, k);
    VisitSays(Visit(t.entries[k].name, t.entries[k].content, false), s, ps, cfg, 0, 0);
  }

  /** The log score holds, for the log of that name, the credit its timestamps earn: 8 or 4 for the
      validator log, 4 or 2 for the sentry log. */
  ghost predicate Credited(r: Result, name: Name, times: seq<int>, cfg: Config) {
    r.logQualityScore ==
      if name == ValidatorLog then 13 + Earned(times, cfg, 8, 4) + WindowCredit(r.sentryLogWindow, 4, 2)
      else 13 + WindowCredit(r.logWindow, 8, 4) + Earned(times, cfg, 4, 2)
  }

  lemma CreditAdds(r: Result, name: Name, times: seq<int>, cfg: Config)
    requires r.logQualityScore == LogQualityScore(r.logWindow, r.sentryLogWindow)
    requires var full, part := (if name == ValidatorLog then 8 else 4), if name == ValidatorLog then 4 else 2;
             WindowCredit(WindowFor(r, name), full, part) == Earned(times, cfg, full, part)
    ensures Credited(r, name, times, cfg)
  {
  }

  /** And so is the credit each log earns. */
  lemma RecordedCreditSays(r: Result, t: Tar, opts: Options, id: string, at: int, ps: Parsers, cfg: Config, k: nat,
                           s: Stream)
    requires IsAutomatic(r, t, opts, id, at, ps, cfg) && k < |t.entries| && IsLog(t.entries[k].name)
    requires ps.gunzip(Visit(t.entries[k].name, t.entries[k].content, false)) == Some(s)
    ensures Credited(r, t.entries[k].name, RecognizedTimes(s, ps), cfg)
  {
    AutomaticRecordSays(r, t, opts, id, at, ps, cfg, k);
    var name := t.entries[k].name;
    var full, part := (if name == ValidatorLog then 8 else 4), if name == ValidatorLog then 4 else 2;
    VisitSays(Visit(name, t.entries[k].content, false), s, ps, cfg, full, part);
    CreditAdds(r, name, RecognizedTimes(s, ps), cfg);
  }

  /** The window on record for a log. */
  function WindowFor(r: Result, name: Name): LogWindowCheck {
    if name == ValidatorLog then r.logWindow else r.sentryLogWindow
  }

  lemma CheckSays(c: LogWindowCheck, log: LogWindow.Log, cfg: Config, budget: nat, cap: nat,
                  parse: string -> Option<int>, times: seq<int>, full: int, part: int)
    requires 0 < cap && c == LogWindow.CheckOf(log, cfg, budget, cap, parse)
    requires times == LogWindow.Times(LogWindowTheorems.TokensOf(log, budget, cap), parse)
    ensures (c.detected <==> times != []) && (c.covered <==> LogWindow.Spans(times, cfg))
    ensures c.detected ==> LogWindow.IsEarliest(c.firstSeen, times) && LogWindow.IsLatest(c.lastSeen, times)
    ensures WindowCredit(c, full, part) == Earned(times, cfg, full, part)
  {
  }

  /** Two archives whose logs of one name hold the same plain lines in any two orders, within the scan's
      limit, get the same window on record for it. */
  lemma RecordIgnoresLineOrder(r: Result, r': Result, t: Tar, t': Tar, opts: Options, id: string, at: int, ps: Parsers,
                               cfg: Config, k: nat, k': nat, s: Stream, s': Stream, ls: seq<string>, ls': seq<string>)
    requires IsAutomatic(r, t, opts, id, at, ps, cfg) && IsAutomatic(r', t', opts, id, at, ps, cfg)
    requires k < |t.entries| && IsLog(t.entries[k].name)
    requires k' < |t'.entries| && t'.entries[k'].name == t.entries[k].name
    requires ps.gunzip(Visit(t.entries[k].name, t.entries[k].content, false)) == Some(s)
    requires ps.gunzip(Visit(t.entries[k].name, t'.entries[k'].content, false)) == Some(s')
    requires LogText(s) == LogWindow.Log(LogWindowTheorems.Join(ls), false, s.eager) && s'.eager == s.eager
    requires LogText(s') == LogWindow.Log(LogWindowTheorems.Join(ls'), false, s.eager)
    requires multiset(ls) == multiset(ls') && |LogWindowTheorems.Join(ls)| <= LogWindow.MAX_WINDOW_BYTES
    requires forall l :: l in ls ==> LogWindowTheorems.Plain(l, LogWindow.MAX_LINE_BYTES)
    ensures WindowFor(r, t.entries[k].name) == WindowFor(r', t.entries[k].name)
  {
    AutomaticRecordSays(r, t, opts, id, at, ps, cfg, k);
    AutomaticRecordSays(r', t', opts, id, at, ps, cfg, k');
    var w, w' := WindowFor(r, t.entries[k].name), WindowFor(r', t.entries[k].name);
    LogWindowTheorems.LineOrderDoesNotMatter(w, w', ls, ls', s.eager, cfg,
                                             LogWindow.MAX_WINDOW_BYTES, LogWindow.MAX_LINE_BYTES,
                                             LogWindow.LineTime(Timestamps.TIMESTAMP, ps.times));
  }

  /** These bytes are this text, one byte a character. */
  ghost predicate Encodes(data: seq<byte>, text: string) {
    |data| == |text| && forall i :: 0 <= i < |data| ==> data[i] as int == text[i] as int
  }

  /** The lines of a text: those that end in a break and, perhaps, one that does not. */
  function LinesOf(rows: seq<LogWindowTheorems.Row>, last: Option<LogWindowTheorems.Row>): seq<string> {
    LogWindowTheorems.Texts(rows) + if last.Some? then [last.value.text] else []
  }

  function TextOf(rows: seq<LogWindowTheorems.Row>, last: Option<LogWindowTheorems.Row>): string {
    LogWindowTheorems.Weave(rows) + if last.Some? then last.value.text + last.value.end else ""
  }

  lemma LinesOfText(rows: seq<LogWindowTheorems.Row>, last: Option<LogWindowTheorems.Row>, cap: nat, rides: bool)
    requires 0 < cap && forall k :: 0 <= k < |rows| ==> LogWindowTheorems.Ended(rows[k], cap)
    requires last.Some? ==> LogWindowTheorems.Unended(last.value, cap, rides)
    ensures LogWindow.LinesFrom(TextOf(rows, last), 0, cap, rides) == LogWindow.Lines(LinesOf(rows, last), None)
  {
    if last.Some? {
      LogWindowTheorems.UnendedLine(rows, last.value, cap, rides);
    } else {
      LogWindowTheorems.WholeLines(rows, cap, rides);
      assert TextOf(rows, last) == LogWindowTheorems.Weave(rows);
      assert LinesOf(rows, last) == LogWindowTheorems.Texts(rows);
    }
  }

  lemma DecodedText(s: Stream, text: string)
    requires Encodes(s.data, text)
    ensures LogText(s) == LogWindow.Log(text, s.broken, s.eager)
  {
    assert LogText(s).text == text;
  }

  /** From the bytes of a log to the record. A log of at most 8 GiB without a line of 1 MiB is on record
      with what its lines say: detected when some line has an instant, covered when the instants reach to
      within a minute of both ends of the window, truncated only when its stream breaks. */
  lemma RecordedFromLines(r: Result, t: Tar, opts: Options, id: string, at: int, ps: Parsers, cfg: Config, k: nat,
                          s: Stream, rows: seq<LogWindowTheorems.Row>, last: Option<LogWindowTheorems.Row>)
    requires IsAutomatic(r, t, opts, id, at, ps, cfg) && k < |t.entries| && IsLog(t.entries[k].name)
    requires ps.gunzip(Visit(t.entries[k].name, t.entries[k].content, false)) == Some(s)
    requires Encodes(s.data, TextOf(rows, last)) && |s.data| <= 8_589_934_592
    requires forall i :: 0 <= i < |rows| ==> LogWindowTheorems.Ended(rows[i], 1_048_576)
    requires last.Some? ==> LogWindowTheorems.Unended(last.value, 1_048_576, s.eager)
    ensures RecordSays(WindowFor(r, t.entries[k].name), LinesOf(rows, last), s, cfg,
                       LogWindow.LineTime(Timestamps.TIMESTAMP, ps.times))
  {
    AutomaticRecordSays(r, t, opts, id, at, ps, cfg, k);
    CheckOfLines(s, cfg, LogWindow.MAX_WINDOW_BYTES, LogWindow.MAX_LINE_BYTES,
                 LogWindow.LineTime(Timestamps.TIMESTAMP, ps.times), rows, last);
  }

  /** What the record of a log with these lines says. */
  ghost predicate RecordSays(w: LogWindowCheck, lines: seq<string>, s: Stream, cfg: Config,
                             time: string -> Option<int>) {
    && (w.detected <==> exists l :: l in lines && time(l).Some?)
    && (w.covered <==>
          && LogWindowTheorems.SeenBy(lines, time, cfg.windowStart + 60_000_000_000)
          && LogWindowTheorems.SeenFrom(lines, time, cfg.windowEnd - 60_000_000_000))
    && (w.truncated <==> s.broken && (|s.data| < 8_589_934_592 || s.eager))
    && w.scannedBytes == |s.data|
  }

  lemma CheckOfLines(s: Stream, cfg: Config, budget: nat, cap: nat, parse: string -> Option<int>,
                     rows: seq<LogWindowTheorems.Row>, last: Option<LogWindowTheorems.Row>)
    requires Encodes(s.data, TextOf(rows, last)) && |s.data| <= budget == 8_589_934_592 && 0 < cap
    requires forall i :: 0 <= i < |rows| ==> LogWindowTheorems.Ended(rows[i], cap)
    requires last.Some? ==> LogWindowTheorems.Unended(last.value, cap, s.eager)
    ensures RecordSays(LogWindow.CheckOf(LogText(s), cfg, budget, cap, parse), LinesOf(rows, last), s, cfg, parse)
  {
    var text, log := TextOf(rows, last), LogText(s);
    DecodedText(s, text);
    LinesOfText(rows, last, cap, log.EndRides(budget));
    LogWindowTheorems.CheckFromLines(LogWindow.CheckOf(log, cfg, budget, cap, parse), log, cfg, budget, cap, parse,
                                     LinesOf(rows, last));
  }

  // ---------- a rescore of an up-to-date store ----------

  /** The score on record for `e` is the automatic one of its stored archive, with whatever mark. */
  ghost predicate UpToDate(s: StoreState, e: LogEntry, opts: Options, ps: Parsers, cfg: Config) {
    && e.filename in s.archives && e.id in s.scores
    && var unmarked := s.scores[e.id].(incidentResponse := None);
       IsAutomatic(unmarked, s.archives[e.filename], opts, e.id, e.submittedAt, ps, cfg)
  }

  /** `es` is what RescoreOne made of the log's entries. */
  ghost predicate IsRescore(es: seq<ScoreRuns.Rescored>, s: StoreState, opts: Options, ps: Parsers, cfg: Config) {
    && |es| == |s.log|
    && forall k :: 0 <= k < |es| ==>
         var e := s.log[k];
         && es[k].id == e.id
         && (es[k].after.Some? ==>
               && e.filename in s.archives
               && IsAutomatic(es[k].after.value, s.archives[e.filename], opts, e.id, e.submittedAt, ps, cfg))
  }

  /** A rescore changes nothing where the records are up to date: the portal's own records, marked or not,
      come out as they are, and no changed total is reported. */
  lemma RescoreChangesNothing(es: seq<ScoreRuns.Rescored>, s: StoreState, opts: Options, opts': Options, ps: Parsers,
                              cfg: Config, n: nat)
    requires IsRescore(es, s, opts', ps, cfg) && n <= |es|
    requires forall k :: 0 <= k < |es| && es[k].after.Some? ==> UpToDate(s, s.log[k], opts, ps, cfg)
    requires opts.maxMetadataSize == opts'.maxMetadataSize || (ReadsMetadata(ps, opts) && ReadsMetadata(ps, opts'))
    ensures ScoreRuns.Applied(es, n, s.scores, s.scores) == s.scores && ScoreRuns.Changed(es, n, s.scores) == 0
  {
    forall k | 0 <= k < |es| && es[k].after.Some?
      ensures ScoreRuns.AlreadyStored(es[k], s.scores)
    {
      var e := s.log[k];
      assert UpToDate(s, e, opts, ps, cfg);
      var unmarked := s.scores[e.id].(incidentResponse := None);
      RescoreAgrees(unmarked, es[k].after.value, s.archives[e.filename], opts, opts', e.id, e.submittedAt, ps, cfg);
      RecordedId(unmarked, s.archives[e.filename], opts, e.id, e.submittedAt, ps, cfg);
    }
    ScoreRuns.NothingToRescore(es, n, s.scores);
  }

  lemma RecordedId(r: Result, t: Tar, opts: Options, id: string, at: int, ps: Parsers, cfg: Config)
    requires IsAutomatic(r, t, opts, id, at, ps, cfg)
    ensures r.id == id && r.scored && r.Pending()
  {
  }
}
