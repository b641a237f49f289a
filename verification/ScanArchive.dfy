/** The antivirus pass over one submission (portal/submit.go, scanArchive): metadata first, then every
    log in windows, all under one budget. */
module ScanArchive {
  import opened Streams
  import opened Windowed
  import opened Archive
  import WindowedTheorems

  /** One log of the archive as the pass treated it: the budget left when it was reached, and, unless
      that was nothing, its decompressed stream and the scan of it. */
  datatype LogScan = Skipped(visit: Visit) | Scanned(visit: Visit, given: nat, stream: Stream, report: Report) {
    function Bytes(): nat
      requires Scanned? ==> report.end.Over?
    {
      if Skipped? then 0 else report.end.outcome.coverage.bytes
    }

    predicate Complete()
      requires Scanned? ==> report.end.Over?
    {
      Scanned? && report.end.outcome.coverage.complete
    }
  }

  /** What the antivirus does in one submission: its answer on the metadata, and its runs on the logs,
      one per log scanned. */
  datatype Antivirus = Antivirus(onMetadata: Reply, onLog: nat -> Scanner, ctx: nat -> nat -> bool)

  /** It answers on the metadata, refuses no window unless a read failed on it, and is not cancelled. */
  ghost predicate Cooperative(av: Antivirus) {
    av.onMetadata.Answer? && forall k, i :: !av.ctx(k)(i) && av.onLog(k).reply(i, false).Answer?
  }

  datatype PassOutcome = Verdicted(verdict: Verdict, coverage: Coverage) | UnreadableLog | Unavailable

  ghost predicate Over(logs: seq<LogScan>) {
    forall k :: 0 <= k < |logs| && logs[k].Scanned? ==> logs[k].report.end.Over?
  }

  ghost function TotalBytes(logs: seq<LogScan>): nat
    requires Over(logs)
  {
    if logs == [] then 0 else TotalBytes(logs[..|logs| - 1]) + logs[|logs| - 1].Bytes()
  }

  function EffectiveBudget(budget: int): nat {
    if budget <= 0 then DEFAULT_SCAN_BUDGET else budget
  }

  /** Log `k` was given exactly what the logs before it left of the budget, and was scanned under that
      and nothing else; at zero it was not scanned at all. */
  ghost predicate FairShare(logs: seq<LogScan>, k: nat, budget: nat, av: Antivirus, gunzip: Visit -> Option<Stream>)
    requires Over(logs) && k < |logs|
  {
    var left := budget - TotalBytes(logs[..k]);
    if logs[k].Skipped? then left == 0
    else
      var l := logs[k];
      && 0 < l.given == left && gunzip(l.visit) == Some(l.stream)
      && IsScan(WindowedScanner(0, 0, l.given), av.onLog(k), av.ctx(k), l.stream, l.report)
      && l.report.end.outcome.err == NoError
  }

  ghost predicate Shared(logs: seq<LogScan>, budget: nat, av: Antivirus, gunzip: Visit -> Option<Stream>) {
    Over(logs) && forall k :: 0 <= k < |logs| ==> FairShare(logs, k, budget, av, gunzip)
  }

  /** The budget is conserved: never overspent, and what is spent is what is covered. */
  lemma {:induction false} BudgetConserved(logs: seq<LogScan>, budget: nat, av: Antivirus,
                                           gunzip: Visit -> Option<Stream>)
    requires Shared(logs, budget, av, gunzip)
    ensures TotalBytes(logs) <= budget
  {
    if logs != [] {
      var n := |logs| - 1;
      SharedPrefix(logs, n, budget, av, gunzip);
      BudgetConserved(logs[..n], budget, av, gunzip);
      assert FairShare(logs, n, budget, av, gunzip);
      if logs[n].Scanned? {
        var l := logs[n];
        WindowedTheorems.WindowsTile(WindowedScanner(0, 0, l.given), av.onLog(n), av.ctx(n), l.stream, l.report);
      }
    }
  }

  lemma SharedPrefix(logs: seq<LogScan>, n: nat, budget: nat, av: Antivirus, gunzip: Visit -> Option<Stream>)
    requires n <= |logs| && Shared(logs, budget, av, gunzip)
    ensures Shared(logs[..n], budget, av, gunzip)
  {
    var front := logs[..n];
    forall k | 0 <= k < n
      ensures FairShare(front, k, budget, av, gunzip)
    {
      assert FairShare(logs, k, budget, av, gunzip) && front[..k] == logs[..k];
    }
  }

  lemma SharedOneMore(logs: seq<LogScan>, l: LogScan, budget: nat, av: Antivirus, gunzip: Visit -> Option<Stream>)
    requires Shared(logs, budget, av, gunzip) && (l.Scanned? ==> l.report.end.Over?)
    requires var left := budget - TotalBytes(logs);
             if l.Skipped? then left == 0
             else
               && 0 < l.given == left && gunzip(l.visit) == Some(l.stream)
               && IsScan(WindowedScanner(0, 0, l.given), av.onLog(|logs|), av.ctx(|logs|), l.stream, l.report)
               && l.report.end.outcome.err == NoError
    ensures Shared(logs + [l], budget, av, gunzip)
  {
    var more := logs + [l];
    assert more[..|logs|] == logs;
    forall k | 0 <= k < |more|
      ensures FairShare(more, k, budget, av, gunzip)
    {
      if k < |logs| {
        assert FairShare(logs, k, budget, av, gunzip) && more[..k] == logs[..k];
      }
    }
  }

  lemma SummedOneMore(logs: seq<LogScan>, l: LogScan)
    requires Over(logs) && (l.Scanned? ==> l.report.end.Over?)
    ensures Over(logs + [l]) && TotalBytes(logs + [l]) == TotalBytes(logs) + l.Bytes()
    ensures Visits(logs + [l]) == Visits(logs) + [l.visit]
    ensures AllComplete(logs + [l]) == (AllComplete(logs) && l.Complete())
  {
    var more := logs + [l];
    assert more[..|logs|] == logs && more[|logs|] == l;
    assert forall k :: 0 <= k < |logs| ==> more[k] == logs[k];
  }

  ghost function Visits(logs: seq<LogScan>): seq<Visit> {
    if logs == [] then [] else Visits(logs[..|logs| - 1]) + [logs[|logs| - 1].visit]
  }

  lemma {:induction false} VisitCount(logs: seq<LogScan>)
    ensures |Visits(logs)| == |logs|
  {
    if logs != [] {
      VisitCount(logs[..|logs| - 1]);
    }
  }

  ghost predicate AllComplete(logs: seq<LogScan>)
    requires Over(logs)
  {
    forall k :: 0 <= k < |logs| ==> logs[k].Complete()
  }

  ghost predicate NoneInfected(logs: seq<LogScan>)
    requires Over(logs)
  {
    forall k :: 0 <= k < |logs| && logs[k].Scanned? ==> !logs[k].report.end.outcome.verdict.infected
  }

  /** One log: decompressed and scanned in windows under what is left of the budget. */
  method ScanLog(av: Antivirus, k: nat, visit: Visit, left: nat, gunzip: Visit -> Option<Stream>)
    returns (r: Option<Windowed.Outcome>, ghost l: LogScan)
    requires 0 < left
    ensures r.None? <==> gunzip(visit).None?
    ensures r.Some? && Cooperative(av) ==> r.value.err == NoError
    ensures r.Some? ==>
      && l.Scanned? && l.visit == visit && l.given == left && gunzip(visit) == Some(l.stream)
      && IsScan(WindowedScanner(0, 0, left), av.onLog(k), av.ctx(k), l.stream, l.report)
      && r.value == l.report.end.outcome && (r.value.err == NoError ==> r.value.coverage.bytes <= left)
  {
    l := Skipped(visit);
    var gz := gunzip(visit);
    if gz.None? {
      return None, l;
    }
    var w := WindowedScanner(0, 0, left);
    ghost var report, windows;
    var o;
    o, report, windows := ScanStream(w, av.onLog(k), av.ctx(k), gz.value);
    WindowedTheorems.WindowsTile(w, av.onLog(k), av.ctx(k), gz.value, report);
    WindowedTheorems.SourceFailureIsPartialCoverage(w, av.onLog(k), av.ctx(k), gz.value, report);
    return Some(o), Scanned(visit, left, gz.value, report);
  }

  /** The callback's three variables, between two logs. */
  ghost predicate Between(logs: seq<LogScan>, total: nat, av: Antivirus, gunzip: Visit -> Option<Stream>,
                          remaining: int, coverage: Coverage)
  {
    && Shared(logs, total, av, gunzip) && NoneInfected(logs)
    && remaining == total - TotalBytes(logs) && 0 <= remaining
    && coverage == Coverage(AllComplete(logs), TotalBytes(logs))
  }

  datatype Callback = Continue | Infected(verdict: Verdict) | GiveUp(why: PassOutcome)

  /** ScanLogs' callback on one log. */
  method OnLog(av: Antivirus, visit: Visit, gunzip: Visit -> Option<Stream>, total: nat, remaining: int,
               coverage: Coverage, k: nat, ghost logs: seq<LogScan>)
    returns (c: Callback, remaining': int, coverage': Coverage, ghost logs': seq<LogScan>)
    requires Between(logs, total, av, gunzip, remaining, coverage) && k == |logs|
    ensures c.Continue? ==>
      && Between(logs', total, av, gunzip, remaining', coverage')
      && |logs'| == k + 1 && Visits(logs') == Visits(logs) + [visit]
    ensures c.Infected? ==>
      && Shared(logs', total, av, gunzip) && |logs'| == k + 1 && logs'[..k] == logs && logs'[k].Scanned?
      && Visits(logs') == Visits(logs) + [visit]
      && logs'[k].report.end.outcome.verdict == c.verdict && c.verdict.infected
    ensures c.GiveUp? ==> logs' == logs && !c.why.Verdicted?
    ensures c.GiveUp? ==> (c.why.UnreadableLog? <==> gunzip(visit).None?)
    ensures c.GiveUp? && Cooperative(av) ==> gunzip(visit).None?
  {
    remaining', coverage', logs' := remaining, coverage, logs;
    if remaining <= 0 {
      SharedOneMore(logs, Skipped(visit), total, av, gunzip);
      SummedOneMore(logs, Skipped(visit));
      return Continue, remaining, coverage.(complete := false), logs + [Skipped(visit)];
    }
    var scan;
    ghost var l;
    scan, l := ScanLog(av, k, visit, remaining, gunzip);
    if scan.None? {
      return GiveUp(UnreadableLog), remaining, coverage, logs;
    }
    var r := scan.value;
    if r.err != NoError {
      return GiveUp(Unavailable), remaining, coverage, logs;
    }
    SharedOneMore(logs, l, total, av, gunzip);
    SummedOneMore(logs, l);
    logs' := logs + [l];
    coverage' := Coverage(coverage.complete && r.coverage.complete, coverage.bytes + r.coverage.bytes);
    remaining' := remaining - r.coverage.bytes;
    c := if r.verdict.infected then Infected(r.verdict) else Continue;
  }

  method Run(av: Antivirus, t: Tar, opts: Options, walkCtx: nat -> bool, rewound: bool,
             gunzip: Visit -> Option<Stream>, budget: int)
    returns (out: PassOutcome, ghost logs: seq<LogScan>)
    ensures Shared(logs, EffectiveBudget(budget), av, gunzip)
    // the metadata is scanned first, and then the logs in the order of the walk
    ensures av.onMetadata.Refused? ==> out.Unavailable?
    ensures av.onMetadata.Answer? && av.onMetadata.verdict.infected ==>
      out == Verdicted(av.onMetadata.verdict, Coverage(false, 0))
    ensures Visits(logs) <= LogsFrom(t, opts.WithDefaults().maxLogSize, 0)
    // clean: the metadata and every log of the archive were answered for, none as infected
    ensures out.Verdicted? && !out.verdict.infected ==>
      && av.onMetadata.Answer? && !av.onMetadata.verdict.infected
      && Visits(logs) == LogsFrom(t, opts.WithDefaults().maxLogSize, 0) && !WalkFails(t, 0)
      && NoneInfected(logs)
      && out.coverage == Coverage(AllComplete(logs), TotalBytes(logs))
    // infected: the metadata or the last log scanned was
    ensures out.Verdicted? && out.verdict.infected ==>
      || av.onMetadata == Answer(out.verdict)
      || (&& |logs| > 0 && NoneInfected(logs[..|logs| - 1]) && logs[|logs| - 1].Scanned?
          && logs[|logs| - 1].report.end.outcome.verdict == out.verdict)
    // no verdict: a log was not gzip, or the antivirus, the walk or the rewind failed
    ensures out.UnreadableLog? ==>
      var all := LogsFrom(t, opts.WithDefaults().maxLogSize, 0);
      NoneInfected(logs) && |logs| < |all| && gunzip(all[|logs|]).None?
    ensures out.Unavailable? ==>
      !(Cooperative(av) && rewound && !WalkFails(t, 0) && forall i :: 0 <= i <= |t.entries| ==> !walkCtx(i))
  {
    logs := [];
    if av.onMetadata.Refused? {
      return Unavailable, logs;
    }
    if av.onMetadata.verdict.infected {
      return Verdicted(av.onMetadata.verdict, Coverage(false, 0)), logs;
    }
    if !rewound {
      return Unavailable, logs;
    }
    out, logs := RunLogs(av, t, opts, walkCtx, gunzip, EffectiveBudget(budget));
  }

  /** The walk over the logs, under one budget. */
  method RunLogs(av: Antivirus, t: Tar, opts: Options, walkCtx: nat -> bool, gunzip: Visit -> Option<Stream>,
                 total: nat)
    returns (out: PassOutcome, ghost logs: seq<LogScan>)
    ensures Shared(logs, total, av, gunzip)
    ensures Visits(logs) <= LogsFrom(t, opts.WithDefaults().maxLogSize, 0)
    ensures out.Verdicted? && !out.verdict.infected ==>
      && Visits(logs) == LogsFrom(t, opts.WithDefaults().maxLogSize, 0) && !WalkFails(t, 0) && NoneInfected(logs)
      && out.coverage == Coverage(AllComplete(logs), TotalBytes(logs))
    ensures out.Verdicted? && out.verdict.infected ==>
      && |logs| > 0 && NoneInfected(logs[..|logs| - 1]) && logs[|logs| - 1].Scanned?
      && logs[|logs| - 1].report.end.outcome.verdict == out.verdict
    ensures out.UnreadableLog? ==>
      var all := LogsFrom(t, opts.WithDefaults().maxLogSize, 0);
      NoneInfected(logs) && |logs| < |all| && gunzip(all[|logs|]).None?
    ensures out.Unavailable? ==>
      !(Cooperative(av) && !WalkFails(t, 0) && forall i :: 0 <= i <= |t.entries| ==> !walkCtx(i))
  {
    logs := [];
    var remaining: int := total;
    var coverage := Coverage(true, 0);
    var walk := new LogWalk(t, opts, walkCtx);
    ghost var all := walk.Rest();
    var k := 0;
    while true
      invariant walk.Valid() && walk.t == t && walk.ctx == walkCtx && fresh(walk)
      invariant Between(logs, total, av, gunzip, remaining, coverage) && k == |logs|
      invariant Walked(all, Visits(logs), walk.Rest()) && WalkFails(t, walk.i) == WalkFails(t, 0)
      decreases |walk.Rest()|
    {
      var step := walk.Next();
      if step.Stopped? {
        return Unavailable, logs;
      }
      if step.Finished? {
        break;
      }
      WalkOneMore(all, Visits(logs), step.visit, walk.Rest());
      VisitCount(logs);
      var c;
      c, remaining, coverage, logs := OnLog(av, step.visit, gunzip, total, remaining, coverage, k, logs);
      match c {
        case Continue =>
          k := k + 1;
        case Infected(verdict) =>
          return Verdicted(verdict, coverage), logs;
        case GiveUp(why) =>
          return why, logs;
      }
    }
    return Verdicted(CLEAN, coverage), logs;
  }

  // ---------- what a clean verdict means ----------

  /** Every byte of this log lay in a window the antivirus answered for, and its stream ended by itself. */
  ghost predicate WhollyScanned(l: LogScan) {
    && l.Scanned? && l.report.end.Over? && !l.stream.broken
    && (forall j :: 0 <= j < |l.report.Fed()| ==>
         WindowedTheorems.WellPlaced(WindowedScanner(0, 0, l.given).Layout(), l.stream, l.report.Fed()[j]))
    && WindowedTheorems.Rebuilt(WindowedScanner(0, 0, l.given).Layout(), l.stream, l.report.Fed()) == l.stream.data
  }

  /** No window of this log was called infected. */
  ghost predicate NoWindowInfected(l: LogScan) {
    l.Scanned? ==>
      && l.report.end.Over?
      && forall j :: 0 <= j < |l.report.Fed()| && l.report.Fed()[j].reply.Answer? ==>
           !l.report.Fed()[j].reply.verdict.infected
  }

  /** With scanners that read their windows to the end, a clean pass called no window of any log
      infected; and where it is complete, every log was decompressed to its end with every byte in an
      answered window. */
  lemma CleanPass(logs: seq<LogScan>, budget: nat, av: Antivirus, gunzip: Visit -> Option<Stream>, k: nat)
    requires Shared(logs, budget, av, gunzip) && NoneInfected(logs) && k < |logs|
    requires forall i :: WindowedTheorems.Thorough(av.onLog(i))
    ensures NoWindowInfected(logs[k])
    ensures AllComplete(logs) ==> WhollyScanned(logs[k])
  {
    assert FairShare(logs, k, budget, av, gunzip);
    var l := logs[k];
    if l.Scanned? {
      var w := WindowedScanner(0, 0, l.given);
      WindowedTheorems.ThoroughScannerIsHeard(w, av.onLog(k), av.ctx(k), l.stream, l.report);
      WindowedTheorems.WindowsTile(w, av.onLog(k), av.ctx(k), l.stream, l.report);
      WindowedTheorems.CompleteExactly(w, av.onLog(k), av.ctx(k), l.stream, l.report);
      assert l.stream.data[..|l.stream.data|] == l.stream.data;
    } else {
      assert !l.Complete();
    }
  }

  /** A signature of up to a mebibyte and one byte that the antivirus recognises in a window cannot hide
      in a log that a complete clean pass covered, wherever the window boundaries fell. */
  lemma CleanCompletePassHidesNothing(logs: seq<LogScan>, budget: nat, av: Antivirus, gunzip: Visit -> Option<Stream>,
                                      k: nat, sig: seq<byte>)
    requires Shared(logs, budget, av, gunzip) && NoneInfected(logs) && AllComplete(logs) && k < |logs|
    requires 0 < |sig| <= 1_048_577
    requires logs[k].Scanned? && WindowedTheorems.Decides(sig, logs[k].stream, logs[k].report.Fed())
    ensures !Occurs(sig, logs[k].stream.data)
  {
    assert FairShare(logs, k, budget, av, gunzip);
    var l := logs[k];
    var w := WindowedScanner(0, 0, l.given);
    assert w.Layout().Seam() == DEFAULT_OVERLAP;
    assert l.Complete();
    WindowedTheorems.WindowsMissNothing(w, av.onLog(k), av.ctx(k), l.stream, l.report, sig);
  }

  // ---------- how much a healthy pass covers ----------

  /** The antivirus answers everything, finds nothing and is not cancelled. */
  ghost predicate FindsNothing(av: Antivirus) {
    forall k :: WindowedTheorems.Healthy(av.onLog(k), av.ctx(k))
  }

  /** The logs decompress, and their streams end by themselves. */
  ghost predicate Unbroken(vs: seq<Visit>, gunzip: Visit -> Option<Stream>) {
    forall v :: v in vs ==> gunzip(v).Some? && !gunzip(v).value.broken
  }

  /** The decompressed length of the logs together. */
  ghost function TotalLength(vs: seq<Visit>, gunzip: Visit -> Option<Stream>): nat
    requires Unbroken(vs, gunzip)
  {
    if vs == [] then 0 else TotalLength(vs[..|vs| - 1], gunzip) + |gunzip(vs[|vs| - 1]).value.data|
  }

  /** Every log is reached before the ones in front of it have spent the budget. */
  ghost predicate AllReached(vs: seq<Visit>, budget: int, gunzip: Visit -> Option<Stream>)
    requires Unbroken(vs, gunzip)
  {
    forall k :: 0 <= k < |vs| ==> TotalLength(vs[..k], gunzip) < budget
  }

  /** The coverage of these logs is what they hold up to the budget, and complete as it should be. */
  ghost predicate CoversLogs(logs: seq<LogScan>, budget: int, gunzip: Visit -> Option<Stream>)
    requires Over(logs) && Unbroken(Visits(logs), gunzip)
  {
    var vs := Visits(logs);
    && TotalBytes(logs) == Min(TotalLength(vs, gunzip), budget)
    && (AllComplete(logs) <==> TotalLength(vs, gunzip) <= budget && AllReached(vs, budget, gunzip))
  }

  lemma CoversOneMore(init: seq<LogScan>, l: LogScan, budget: nat, gunzip: Visit -> Option<Stream>)
    requires Over(init) && (l.Scanned? ==> l.report.end.Over?) && Unbroken(Visits(init + [l]), gunzip)
    requires Visits(init + [l]) == Visits(init) + [l.visit] && Unbroken(Visits(init), gunzip)
    requires CoversLogs(init, budget, gunzip)
    requires var left, length := budget - TotalBytes(init), |gunzip(l.visit).value.data|;
             if l.Skipped? then left == 0
             else 0 < left && l.report.end.outcome.coverage == Coverage(length <= left, Min(length, left))
    ensures Over(init + [l]) && CoversLogs(init + [l], budget, gunzip)
  {
    var vs := Visits(init + [l]);
    assert vs[..|vs| - 1] == Visits(init) && vs[|vs| - 1] == l.visit;
    SummedOneMore(init, l);
    ReachedOneMore(Visits(init), l.visit, budget, gunzip);
  }

  lemma {:induction false} HealthyShare(logs: seq<LogScan>, budget: nat, av: Antivirus, gunzip: Visit -> Option<Stream>)
    requires Shared(logs, budget, av, gunzip) && FindsNothing(av) && Unbroken(Visits(logs), gunzip)
    ensures CoversLogs(logs, budget, gunzip)
  {
    if logs != [] {
      var n := |logs| - 1;
      var init, l := logs[..n], logs[n];
      assert logs == init + [l] && FairShare(logs, n, budget, av, gunzip);
      SharedPrefix(logs, n, budget, av, gunzip);
      assert l.visit in Visits(logs) && forall v :: v in Visits(init) ==> v in Visits(logs);
      HealthyShare(init, budget, av, gunzip);
      if l.Scanned? {
        WindowedTheorems.HealthyScan(WindowedScanner(0, 0, l.given), av.onLog(n), av.ctx(n), l.stream, l.report);
      }
      CoversOneMore(init, l, budget, gunzip);
    }
  }

  lemma ReachedOneMore(vs: seq<Visit>, v: Visit, budget: int, gunzip: Visit -> Option<Stream>)
    requires Unbroken(vs + [v], gunzip)
    ensures Unbroken(vs, gunzip)
    ensures AllReached(vs + [v], budget, gunzip) <==> AllReached(vs, budget, gunzip) && TotalLength(vs, gunzip) < budget
  {
    var more := vs + [v];
    assert more[..|vs|] == vs;
    assert forall x :: x in vs ==> x in more;
    assert forall k :: 0 <= k <= |vs| ==> more[..k] == vs[..k];
    assert Unbroken(vs, gunzip);
    if AllReached(more, budget, gunzip) {
      assert TotalLength(more[..|vs|], gunzip) < budget;
    }
  }

  /** A healthy pass covers the logs up to the budget it was given, 32 GiB when that is not positive. It
      is complete exactly when they fit and none of them, an empty one included, is only reached with
      the budget already spent. */
  lemma HealthyPass(logs: seq<LogScan>, budget: int, av: Antivirus, gunzip: Visit -> Option<Stream>)
    requires Shared(logs, EffectiveBudget(budget), av, gunzip) && FindsNothing(av) && Unbroken(Visits(logs), gunzip)
    ensures var total, vs := if budget > 0 then budget else 34_359_738_368, Visits(logs);
            && TotalBytes(logs) == Min(TotalLength(vs, gunzip), total)
            && (AllComplete(logs) <==> TotalLength(vs, gunzip) <= total && AllReached(vs, total, gunzip))
  {
    HealthyShare(logs, EffectiveBudget(budget), av, gunzip);
  }

  /** So an empty log behind one that spends the budget to the byte leaves the pass incomplete, although
      everything was scanned. */
  lemma EmptyLogForfeits(logs: seq<LogScan>, budget: int, av: Antivirus, gunzip: Visit -> Option<Stream>, v: Visit,
                         empty: Visit)
    requires Shared(logs, EffectiveBudget(budget), av, gunzip) && FindsNothing(av) && Unbroken(Visits(logs), gunzip)
    requires Visits(logs) == [v, empty] && 0 < budget && v in Visits(logs) && empty in Visits(logs)
    requires |gunzip(v).value.data| == budget && gunzip(empty).value.data == []
    ensures TotalBytes(logs) == TotalLength(Visits(logs), gunzip) == budget && !AllComplete(logs)
  {
    var vs := Visits(logs);
    assert vs[..1] == [v] && [v][..0] == [];
    assert TotalLength(vs[..1], gunzip) == budget;
    HealthyPass(logs, budget, av, gunzip);
  }

  /** A log reached with the budget spent is not scanned and makes the pass incomplete. */
  lemma SpentBudgetIsIncomplete(logs: seq<LogScan>, budget: nat, av: Antivirus, gunzip: Visit -> Option<Stream>, k: nat)
    requires Shared(logs, budget, av, gunzip) && k < |logs| && TotalBytes(logs[..k]) == budget
    ensures logs[k].Skipped? && !AllComplete(logs)
  {
    assert FairShare(logs, k, budget, av, gunzip);
    assert !logs[k].Complete();
  }
}
