/** What the windowed scan guarantees, for every stream, scanner, geometry and budget. */
module WindowedTheorems {
  import opened Streams
  import opened Windowed

  // ---------- where the windows lie ----------

  /** `x` lies within the stream and the window size, and holds at least one byte that is no repeat. */
  ghost predicate WellPlaced(g: Geometry, s: Stream, x: Fed) {
    x.carried <= x.start && x.carried < x.size <= g.windowSize && x.End() <= |s.data|
  }

  /** `y` starts where the full, answered `x` ended, after repeating at least Seam() of its bytes. */
  ghost predicate Linked(g: Geometry, x: Fed, y: Fed)
    requires g.Valid()
  {
    && y.start == x.End() && g.Seam() <= y.carried == Min(g.overlap, x.size - x.carried)
    && x.credited && x.size == g.windowSize
  }

  ghost predicate Chain(g: Geometry, s: Stream, fed: seq<Fed>)
    requires g.Valid()
  {
    && (forall j :: 0 <= j < |fed| ==> WellPlaced(g, s, fed[j]))
    && (forall j, k :: 0 <= j && k == j + 1 < |fed| ==> Linked(g, fed[j], fed[k]))
    && (fed != [] ==> fed[0].start == 0 && fed[0].carried == 0)
  }

  /** Where the credited windows of a scan end. */
  ghost function CreditedEnd(fed: seq<Fed>): int {
    if fed == [] then 0
    else if fed[|fed| - 1].credited then fed[|fed| - 1].End()
    else fed[|fed| - 1].start
  }

  lemma TurnShape(g: Geometry, sc: Scanner, ctx: nat -> bool, s: Stream, i: nat, st: State)
    requires st.Valid(g, s)
    ensures match TakeTurn(g, sc, ctx, s, i, st)
            case Next(x) =>
              && x.start == st.pos && x.carried == st.tail && WellPlaced(g, s, x) && x.End() - st.pos <= st.left
              && x.size == g.windowSize && x.credited && x.reply.Answer? && !x.reply.verdict.infected
            case Over(o, Some(x)) =>
              && x.start == st.pos && x.carried == st.tail && WellPlaced(g, s, x) && x.End() - st.pos <= st.left
              && (x.credited ==> x.reply.Answer?)
              && (o.err == NoError ==>
                    && o.coverage.bytes == (if x.credited then x.End() else x.start)
                    && o.verdict == (if x.credited && x.reply.verdict.infected then x.reply.verdict else CLEAN))
              && (o.err == ScannerError ==> x.reply.Refused?) && o.err != ContextError
            case Over(o, None) =>
              && (o.err == NoError ==> o.coverage.bytes == st.pos && o.verdict == CLEAN)
              && (o.err != NoError ==> o.err == ContextError && ctx(i))
  {
  }

  /** Call `j` of the scan, placed by the state its round started in. */
  lemma CallShape(w: WindowedScanner, sc: Scanner, ctx: nat -> bool, s: Stream, r: Report, j: nat)
    requires IsScan(w, sc, ctx, s, r) && j < |r.Fed()|
    ensures var g, x, st := w.Layout(), r.Fed()[j], StateAt(w.Layout(), w.Budget(), r.credited, j);
            && WellPlaced(g, s, x) && x.End() <= w.Budget() && x.start == st.pos && x.carried == st.tail
            && (x.credited ==> x.reply.Answer?)
            && (j < |r.credited| ==> x.credited && x.size == g.windowSize && !x.reply.verdict.infected)
  {
    var g, st := w.Layout(), StateAt(w.Layout(), w.Budget(), r.credited, j);
    if j < |r.credited| {
      assert Credits(g, w.Budget(), sc, ctx, s, r.credited, j);
    }
    TurnShape(g, sc, ctx, s, j, st);
  }

  lemma EndShape(w: WindowedScanner, sc: Scanner, ctx: nat -> bool, s: Stream, r: Report)
    requires IsScan(w, sc, ctx, s, r)
    ensures var o, fed := r.end.outcome, r.Fed();
            && (o.err == NoError ==>
                  && o.coverage.bytes == CreditedEnd(fed)
                  && o.verdict == if |fed| > 0 && Reported(fed[|fed| - 1]) then fed[|fed| - 1].reply.verdict else CLEAN)
            && (o.err == ContextError ==> ctx(|r.credited|) && r.end.last.None?)
            && (o.err == ScannerError ==> r.end.last.Some? && r.end.last.value.reply.Refused?)
  {
    TurnShape(w.Layout(), sc, ctx, s, |r.credited|, StateAt(w.Layout(), w.Budget(), r.credited, |r.credited|));
    if |r.credited| > 0 {
      CallShape(w, sc, ctx, s, r, |r.credited| - 1);
    }
  }

  /** The scanner called this window infected and the answer was kept. */
  ghost predicate Reported(x: Fed) {
    x.credited && x.reply.Answer? && x.reply.verdict.infected
  }

  lemma ScanGeometry(w: WindowedScanner, sc: Scanner, ctx: nat -> bool, s: Stream, r: Report)
    requires IsScan(w, sc, ctx, s, r)
    ensures Chain(w.Layout(), s, r.Fed()) && 0 <= CreditedEnd(r.Fed()) <= w.Budget()
  {
    var g, fed := w.Layout(), r.Fed();
    forall j | 0 <= j < |fed|
      ensures WellPlaced(g, s, fed[j])
    {
      CallShape(w, sc, ctx, s, r, j);
    }
    forall j, k | 0 <= j && k == j + 1 < |fed|
      ensures Linked(g, fed[j], fed[k])
    {
      CallShape(w, sc, ctx, s, r, j);
      CallShape(w, sc, ctx, s, r, k);
    }
    if fed != [] {
      CallShape(w, sc, ctx, s, r, 0);
      CallShape(w, sc, ctx, s, r, |fed| - 1);
    }
  }

  lemma CallEnd(w: WindowedScanner, sc: Scanner, ctx: nat -> bool, s: Stream, r: Report, j: nat)
    requires IsScan(w, sc, ctx, s, r) && j < |r.Fed()|
    ensures var x := r.Fed()[j]; x.End() == Min(Min(x.Begin() + w.WindowSize(), w.Budget()), |s.data|)
  {
    var g, st := w.Layout(), StateAt(w.Layout(), w.Budget(), r.credited, j);
    assert st.pos + st.left == w.Budget();
    if j < |r.credited| {
      assert Credits(g, w.Budget(), sc, ctx, s, r.credited, j);
    }
  }

  /** Where every window lies, by the settings alone: the first at the start of the stream, each later
      one reaching back over the last `overlap` fresh bytes of the window before it, and each ending
      where it is full, the budget is spent or the stream has ended. */
  lemma WindowPlaces(w: WindowedScanner, sc: Scanner, ctx: nat -> bool, s: Stream, r: Report, j: nat)
    requires IsScan(w, sc, ctx, s, r) && j < |r.Fed()|
    ensures var size := if w.windowSize > 0 then w.windowSize else 1_073_741_824;
            var wanted := if w.overlap > 0 then w.overlap else 1_048_576;
            var overlap := if wanted < size then wanted else size / 2;
            var budget := if w.budget > 0 then w.budget else 34_359_738_368;
            var x := r.Fed()[j];
            && (if j == 0 then x.start == 0 && x.Begin() == 0
                else
                  var y := r.Fed()[j - 1];
                  x.start == y.End() && x.Begin() == y.End() - Min(overlap, y.End() - y.start))
            && x.End() == Min(Min(x.Begin() + size, budget), |s.data|)
  {
    CallEnd(w, sc, ctx, s, r, j);
    CallShape(w, sc, ctx, s, r, j);
    if j > 0 {
      assert r.Fed()[j - 1] == r.credited[j - 1];
    }
  }

  // ---------- tiling: the fresh parts are the stream ----------

  ghost function FreshPart(s: Stream, x: Fed): seq<byte>
    requires 0 <= x.Begin() <= x.start <= x.End() <= |s.data|
  {
    x.Content(s)[x.carried..]
  }

  /** The credited windows, each without the bytes it repeats. */
  ghost function Rebuilt(g: Geometry, s: Stream, fed: seq<Fed>): seq<byte>
    requires forall j :: 0 <= j < |fed| ==> WellPlaced(g, s, fed[j])
  {
    if fed == [] then []
    else
      var x := fed[|fed| - 1];
      assert WellPlaced(g, s, x);
      Rebuilt(g, s, fed[..|fed| - 1]) + if x.credited then FreshPart(s, x) else []
  }

  lemma {:induction false} RebuiltIsPrefix(g: Geometry, s: Stream, fed: seq<Fed>)
    requires g.Valid() && Chain(g, s, fed)
    ensures 0 <= CreditedEnd(fed) <= |s.data| && Rebuilt(g, s, fed) == s.data[..CreditedEnd(fed)]
  {
    if fed != [] {
      var init, x := fed[..|fed| - 1], fed[|fed| - 1];
      ChainFront(g, s, fed);
      RebuiltIsPrefix(g, s, init);
      FreshIsNext(g, s, x);
    }
  }

  lemma FreshIsNext(g: Geometry, s: Stream, x: Fed)
    requires WellPlaced(g, s, x)
    ensures s.data[..x.start] + FreshPart(s, x) == s.data[..x.End()]
  {
    SliceOfSlice(s.data, x.Begin(), x.End(), x.carried, x.size);
    assert x.Content(s)[x.carried..] == x.Content(s)[x.carried..x.size];
    assert s.data[..x.start] + s.data[x.start..x.End()] == s.data[..x.End()];
  }

  lemma ChainFront(g: Geometry, s: Stream, fed: seq<Fed>)
    requires g.Valid() && Chain(g, s, fed) && fed != []
    ensures Chain(g, s, fed[..|fed| - 1])
    ensures CreditedEnd(fed[..|fed| - 1]) == fed[|fed| - 1].start
  {
    var n := |fed| - 1;
    if n > 0 {
      assert Linked(g, fed[n - 1], fed[n]);
    }
  }

  /** Tiling. Dropping each carried tail, the windows that came back with a verdict concatenate to
      exactly the first Coverage.Bytes bytes of the stream, whatever part of each window the scanner
      chose to read; no window exceeds the window size and each holds a fresh byte. */
  lemma WindowsTile(w: WindowedScanner, sc: Scanner, ctx: nat -> bool, s: Stream, r: Report)
    requires IsScan(w, sc, ctx, s, r)
    ensures forall j :: 0 <= j < |r.Fed()| ==> WellPlaced(w.Layout(), s, r.Fed()[j])
    ensures r.end.outcome.err == NoError ==>
      var bytes := r.end.outcome.coverage.bytes;
      bytes <= |s.data| && bytes <= w.Budget() && Rebuilt(w.Layout(), s, r.Fed()) == s.data[..bytes]
  {
    ScanGeometry(w, sc, ctx, s, r);
    EndShape(w, sc, ctx, s, r);
    RebuiltIsPrefix(w.Layout(), s, r.Fed());
  }

  // ---------- no piece of seam length falls between two windows ----------

  lemma {:induction false} FindWindow(g: Geometry, s: Stream, fed: seq<Fed>, a: nat, b: nat) returns (j: nat)
    requires g.Valid() && Chain(g, s, fed)
    requires a < b <= CreditedEnd(fed) && b - a <= g.Seam() + 1
    ensures j < |fed| && fed[j].credited && fed[j].Begin() <= a && b <= fed[j].End()
  {
    var n := |fed| - 1;
    if n > 0 {
      assert Linked(g, fed[n - 1], fed[n]);
    }
    if b <= fed[n].start {
      ChainFront(g, s, fed);
      j := FindWindow(g, s, fed[..n], a, b);
    } else {
      j := n;
    }
  }

  /** Seams. Every contiguous piece of the first Coverage.Bytes bytes that is at most Seam() + 1
      long lies wholly inside one window that came back with a verdict. */
  lemma PiecesAreWhole(w: WindowedScanner, sc: Scanner, ctx: nat -> bool, s: Stream, r: Report, a: nat, b: nat)
    requires IsScan(w, sc, ctx, s, r) && r.end.outcome.err == NoError
    requires a < b <= r.end.outcome.coverage.bytes && b - a <= w.Layout().Seam() + 1
    ensures exists j :: 0 <= j < |r.Fed()| && r.Fed()[j].credited && r.Fed()[j].Begin() <= a && b <= r.Fed()[j].End()
  {
    ScanGeometry(w, sc, ctx, s, r);
    EndShape(w, sc, ctx, s, r);
    var j := FindWindow(w.Layout(), s, r.Fed(), a, b);
  }

  /** The seam bound is exact: from the third window on, some piece of length Seam() + 2 lies in no
      window at all. */
  lemma SeamIsTight(w: WindowedScanner, sc: Scanner, ctx: nat -> bool, s: Stream, r: Report) returns (a: nat, b: nat)
    requires IsScan(w, sc, ctx, s, r) && |r.Fed()| >= 3
    ensures b - a == w.Layout().Seam() + 2 && b <= r.Fed()[|r.Fed()| - 1].End()
    ensures forall j :: 0 <= j < |r.Fed()| ==> !(r.Fed()[j].Begin() <= a && b <= r.Fed()[j].End())
  {
    var g, fed := w.Layout(), r.Fed();
    ScanGeometry(w, sc, ctx, s, r);
    assert Linked(g, fed[0], fed[1]) && Linked(g, fed[1], fed[2]);
    var k := if 2 * g.overlap <= g.windowSize then 1 else 2;
    assert fed[k].carried == g.Seam();
    a, b := fed[k].start - g.Seam() - 1, fed[k].start + 1;
    forall j | 0 <= j < |fed|
      ensures !(fed[j].Begin() <= a && b <= fed[j].End())
    {
      if j < k {
        StartsGrow(g, s, fed, j, k);
      } else {
        StartsGrow(g, s, fed, k, j);
      }
    }
    StartsGrow(g, s, fed, k, |fed| - 1);
  }

  lemma {:induction false} StartsGrow(g: Geometry, s: Stream, fed: seq<Fed>, j: nat, k: nat)
    requires g.Valid() && Chain(g, s, fed) && j <= k < |fed|
    ensures fed[j].End() <= fed[k].End()
    ensures j < k ==> fed[j].End() <= fed[k].start && fed[j].start <= fed[k].Begin()
    decreases k - j
  {
    if j < k {
      assert Linked(g, fed[k - 1], fed[k]);
      StartsGrow(g, s, fed, j, k - 1);
    }
  }

  // ---------- scanning windows equals scanning the stream ----------

  /** The scanner found `sig` in exactly the windows that contain it. */
  ghost predicate Decides(sig: seq<byte>, s: Stream, fed: seq<Fed>) {
    forall j :: 0 <= j < |fed| && fed[j].credited ==>
      && fed[j].reply.Answer? && 0 <= fed[j].Begin() <= fed[j].End() <= |s.data|
      && (fed[j].reply.verdict.infected <==> Occurs(sig, fed[j].Content(s)))
  }

  /** A reported detection lies in the covered prefix. */
  lemma DetectionIsCovered(w: WindowedScanner, sc: Scanner, ctx: nat -> bool, s: Stream, r: Report, sig: seq<byte>)
    requires IsScan(w, sc, ctx, s, r) && r.end.outcome.err == NoError && Decides(sig, s, r.Fed())
    requires r.end.outcome.verdict.infected
    ensures r.end.outcome.coverage.bytes <= |s.data| && Occurs(sig, s.data[..r.end.outcome.coverage.bytes])
  {
    var fed, bytes := r.Fed(), r.end.outcome.coverage.bytes;
    EndShape(w, sc, ctx, s, r);
    WindowsTile(w, sc, ctx, s, r);
    var x := fed[|fed| - 1];
    var covered := s.data[..bytes];
    assert x.End() == bytes && x.Content(s) == covered[x.Begin()..x.End()];
    OccursInSlice(sig, covered, x.Begin(), x.End());
  }

  /** An occurrence in the covered prefix is reported. */
  lemma OccurrenceIsDetected(w: WindowedScanner, sc: Scanner, ctx: nat -> bool, s: Stream, r: Report, sig: seq<byte>,
                             a: nat)
    requires IsScan(w, sc, ctx, s, r) && r.end.outcome.err == NoError && Decides(sig, s, r.Fed())
    requires 0 < |sig| <= w.Layout().Seam() + 1
    requires r.end.outcome.coverage.bytes <= |s.data| && OccursAt(sig, s.data[..r.end.outcome.coverage.bytes], a)
    ensures r.end.outcome.verdict.infected
  {
    ScanGeometry(w, sc, ctx, s, r);
    EndShape(w, sc, ctx, s, r);
    var j := FindWindow(w.Layout(), s, r.Fed(), a, a + |sig|);
    CallShape(w, sc, ctx, s, r, j);
    SeenInWindow(s, r.Fed()[j], sig, a, r.end.outcome.coverage.bytes);
  }

  /** Refinement. A scanner that recognises a signature of at most Seam() + 1 bytes inside each
      window it is given makes the windowed scan recognise it anywhere in the covered prefix: the
      verdict is that of one scan over the first Coverage.Bytes bytes, seams or not. */
  lemma WindowsMissNothing(w: WindowedScanner, sc: Scanner, ctx: nat -> bool, s: Stream, r: Report, sig: seq<byte>)
    requires IsScan(w, sc, ctx, s, r) && r.end.outcome.err == NoError
    requires 0 < |sig| <= w.Layout().Seam() + 1 && Decides(sig, s, r.Fed())
    ensures var o := r.end.outcome;
            && o.coverage.bytes <= |s.data|
            && (o.verdict.infected <==> Occurs(sig, s.data[..o.coverage.bytes]))
            && (o.coverage.complete ==> !o.verdict.infected && !Occurs(sig, s.data))
  {
    var o := r.end.outcome;
    WindowsTile(w, sc, ctx, s, r);
    CompleteExactly(w, sc, ctx, s, r);
    var covered := s.data[..o.coverage.bytes];
    if o.verdict.infected {
      DetectionIsCovered(w, sc, ctx, s, r, sig);
    } else if Occurs(sig, covered) {
      var a: nat :| OccursAt(sig, covered, a);
      OccurrenceIsDetected(w, sc, ctx, s, r, sig, a);
    }
    if o.coverage.complete {
      assert covered == s.data;
    }
  }

  lemma SeenInWindow(s: Stream, x: Fed, sig: seq<byte>, a: nat, bytes: nat)
    requires bytes <= |s.data| && OccursAt(sig, s.data[..bytes], a)
    requires 0 <= x.Begin() <= a && a + |sig| <= x.End() <= |s.data|
    ensures Occurs(sig, x.Content(s))
  {
    SliceOfSlice(s.data, x.Begin(), x.End(), a - x.Begin(), a - x.Begin() + |sig|);
    SliceOfSlice(s.data, 0, bytes, a, a + |sig|);
    assert s.data[0..bytes] == s.data[..bytes];
    assert OccursAt(sig, x.Content(s), a - x.Begin());
  }

  // ---------- coverage ----------

  /** A scan reports complete coverage exactly when it was clean, the source did not fail and every
      byte was covered. */
  lemma CompleteExactly(w: WindowedScanner, sc: Scanner, ctx: nat -> bool, s: Stream, r: Report)
    requires IsScan(w, sc, ctx, s, r)
    ensures var o := r.end.outcome;
            o.coverage.complete <==>
              o.err == NoError && !o.verdict.infected && !s.broken && o.coverage.bytes == |s.data|
  {
    var g, n := w.Layout(), |r.credited|;
    var st := StateAt(g, w.Budget(), r.credited, n);
    TurnShape(g, sc, ctx, s, n, st);
  }

  ghost predicate Healthy(sc: Scanner, ctx: nat -> bool) {
    && (forall i :: !ctx(i))
    && (forall i, saw :: sc.reply(i, saw).Answer? && !sc.reply(i, saw).verdict.infected)
  }

  /** With a healthy source and scanner and no detection the coverage is min(length, budget) bytes,
      complete exactly when the stream fits the budget, equality included. A budget that is not
      positive stands for 32 GiB. */
  lemma HealthyScan(w: WindowedScanner, sc: Scanner, ctx: nat -> bool, s: Stream, r: Report)
    requires IsScan(w, sc, ctx, s, r) && Healthy(sc, ctx) && !s.broken
    ensures var budget := if w.budget > 0 then w.budget else 34_359_738_368;
            r.end.outcome
              == Outcome(Verdict(false, ""), Coverage(|s.data| <= budget, Min(|s.data|, budget)), NoError)
  {
    var g, n := w.Layout(), |r.credited|;
    var st := StateAt(g, w.Budget(), r.credited, n);
    assert st.pos + st.left == w.Budget();
    if !(st.left == 0 || st.pos == |s.data|) {
      var x := PlayRound(g, sc, s, n, st).fed;
      assert x.credited && !x.reply.verdict.infected;
    }
  }

  /** Errors come from the scanner or the context alone. A scanner that refuses only when a read
      failed on it turns every broken source into partial coverage, which leaves out at most the
      window in flight. */
  lemma SourceFailureIsPartialCoverage(w: WindowedScanner, sc: Scanner, ctx: nat -> bool, s: Stream, r: Report)
    requires IsScan(w, sc, ctx, s, r)
    ensures s.broken ==> !r.end.outcome.coverage.complete
    ensures r.end.outcome.err == ContextError ==> ctx(|r.credited|)
    ensures r.end.outcome.err == ScannerError ==> sc.reply(|r.credited|, false).Refused?
    ensures r.end.outcome.err == NoError && !r.end.outcome.verdict.infected ==>
      Min(|s.data|, w.Budget()) - r.end.outcome.coverage.bytes <= w.Layout().windowSize
  {
    var g, n := w.Layout(), |r.credited|;
    var st := StateAt(g, w.Budget(), r.credited, n);
    TurnShape(g, sc, ctx, s, n, st);
    assert st.pos + st.left == w.Budget();
  }

  /** A read made before the scanner returned ran into the source failure. */
  ghost predicate FailureSeen(w: WindowedScanner, s: Stream, x: Fed, want: Option<nat>) {
    && s.broken && x.End() == |s.data|
    && (|| (|s.data| < Min(x.Begin() + w.WindowSize(), w.Budget()) && ReadsPast(want, x.size))
        || (s.eager && (x.End() - x.start == 1 || ReadCount(want, x.size) == x.size)))
  }

  /** A scan fails exactly when its context is done at the top of a round, or the scanner refuses a
      window while no read has failed; a failed scan claims nothing. */
  lemma ErrorsExactly(w: WindowedScanner, sc: Scanner, ctx: nat -> bool, s: Stream, r: Report)
    requires IsScan(w, sc, ctx, s, r)
    ensures var o, n := r.end.outcome, |r.credited|;
            && (forall j :: 0 <= j < n ==> !ctx(j))
            && (o.err == ContextError <==> ctx(n))
            && (o.err == ScannerError <==>
                  && r.end.last.Some? && r.end.last.value.reply.Refused?
                  && !FailureSeen(w, s, r.end.last.value, sc.want(n)))
            && (o.err != NoError ==> o.verdict == Verdict(false, "") && o.coverage == Coverage(false, 0))
  {
    var g, n := w.Layout(), |r.credited|;
    var st := StateAt(g, w.Budget(), r.credited, n);
    forall j | 0 <= j < n
      ensures !ctx(j)
    {
      assert Credits(g, w.Budget(), sc, ctx, s, r.credited, j);
    }
    assert st.pos + st.left == w.Budget();
    if !ctx(n) && st.left != 0 && st.pos != |s.data| {
      var m, x := Meet(g, sc, s, n, st), PlayRound(g, sc, s, n, st).fed;
      assert m.ScannerSees() || m.RodeHead() <==> FailureSeen(w, s, x, sc.want(n));
    }
  }

  // ---------- when a detection is reported ----------

  /** The drain after the scanner's answer runs into the source failure. */
  ghost predicate LosesAnswer(w: WindowedScanner, s: Stream, x: Fed, want: Option<nat>) {
    && s.broken && x.End() == |s.data|
    && (|s.data| < Min(x.Begin() + w.WindowSize(), w.Budget())
        || (s.eager && x.End() - x.start > 1 && ReadCount(want, x.size) < x.size))
  }

  /** An infected answer is reported exactly when the drain behind it does not fail. */
  lemma InfectedReportedExactly(w: WindowedScanner, sc: Scanner, ctx: nat -> bool, s: Stream, r: Report, x: Fed)
    requires IsScan(w, sc, ctx, s, r) && r.end.last == Some(x)
    requires x.reply.Answer? && x.reply.verdict.infected
    ensures var o := r.end.outcome;
            && o.err == NoError
            && (o.verdict == x.reply.verdict <==> !LosesAnswer(w, s, x, sc.want(|r.credited|)))
  {
    var g, n := w.Layout(), |r.credited|;
    var st := StateAt(g, w.Budget(), r.credited, n);
    TurnShape(g, sc, ctx, s, n, st);
    assert st.pos + st.left == w.Budget();
    var m := Meet(g, sc, s, n, st);
    assert m.DrainFails() <==> LosesAnswer(w, s, x, sc.want(n));
  }

  /** A detection that is dropped: the scanner stops after one byte and calls the window infected,
      and the drain then fails. */
  lemma InfectedLost() returns (w: WindowedScanner, sc: Scanner, ctx: nat -> bool, s: Stream, r: Report)
    ensures IsScan(w, sc, ctx, s, r) && r.end.last.Some? && r.end.last.value.reply == Answer(Verdict(true, "Eicar"))
    ensures r.end.outcome == Outcome(CLEAN, Coverage(false, 0), NoError)
  {
    w, s := WindowedScanner(4, 1, 10), Stream([0, 0], true, false);
    sc := Scanner(i => Some(1), (i, saw) => Answer(Verdict(true, "Eicar")));
    ctx := i => false;
    var x := Fed(0, 0, 2, Answer(Verdict(true, "Eicar")), false);
    r := Report([], Over(Partial(0), Some(x)));
    assert w.Layout() == Geometry(4, 1);
    assert PlayRound(w.Layout(), sc, s, 0, State(0, 10, 0)).fed == x;
  }

  /** A scanner call that answers only after reading to the end of its window, and not when a read
      failed on it. */
  predicate Heeds(want: Option<nat>, saw: bool, reply: Reply) {
    reply.Answer? ==> want.None? && !saw
  }

  /** Scanners that do so on every call, as ClamdScanner does (Clamd.ServeWindow). */
  ghost predicate Thorough(sc: Scanner) {
    forall i, saw :: Heeds(sc.want(i), saw, sc.reply(i, saw))
  }

  /** With a thorough scanner every infected answer is reported, and a report of infection always
      comes from one. */
  lemma ThoroughScannerIsHeard(w: WindowedScanner, sc: Scanner, ctx: nat -> bool, s: Stream, r: Report)
    requires IsScan(w, sc, ctx, s, r) && Thorough(sc)
    ensures r.end.outcome.verdict.infected <==>
      exists j :: 0 <= j < |r.Fed()| && r.Fed()[j].reply.Answer? && r.Fed()[j].reply.verdict.infected
    ensures r.end.outcome.verdict.infected ==> r.end.outcome.err == NoError
  {
    var g, n, fed := w.Layout(), |r.credited|, r.Fed();
    var st := StateAt(g, w.Budget(), r.credited, n);
    TurnShape(g, sc, ctx, s, n, st);
    EndShape(w, sc, ctx, s, r);
    forall j | 0 <= j < n
      ensures fed[j].reply.Answer? && !fed[j].reply.verdict.infected
    {
      CallShape(w, sc, ctx, s, r, j);
    }
    if r.end.last.Some? {
      assert fed[n] == r.end.last.value;
    }
  }

  // ---------- determinism ----------

  lemma {:induction false} SameCredits(w: WindowedScanner, sc: Scanner, ctx: nat -> bool, s: Stream,
                                       r: Report, r': Report, k: nat)
    requires IsScan(w, sc, ctx, s, r) && IsScan(w, sc, ctx, s, r') && k <= |r.credited|
    ensures k <= |r'.credited| && r.credited[..k] == r'.credited[..k]
  {
    if k > 0 {
      SameCredits(w, sc, ctx, s, r, r', k - 1);
      var g := w.Layout();
      assert Credits(g, w.Budget(), sc, ctx, s, r.credited, k - 1);
      if k > 1 {
        assert r.credited[k - 2] == r.credited[..k - 1][k - 2] == r'.credited[..k - 1][k - 2] == r'.credited[k - 2];
      }
      assert StateAt(g, w.Budget(), r.credited, k - 1) == StateAt(g, w.Budget(), r'.credited, k - 1);
      if k <= |r'.credited| {
        assert Credits(g, w.Budget(), sc, ctx, s, r'.credited, k - 1);
      }
    }
  }

  /** A scan is determined by the stream, the settings and the scanner's answers: how the reads were
      split does not matter. */
  lemma ScanIsDetermined(w: WindowedScanner, sc: Scanner, ctx: nat -> bool, s: Stream, r: Report, r': Report)
    requires IsScan(w, sc, ctx, s, r) && IsScan(w, sc, ctx, s, r')
    ensures r == r'
  {
    SameCredits(w, sc, ctx, s, r, r', |r.credited|);
    SameCredits(w, sc, ctx, s, r', r, |r'.credited|);
    assert r.credited == r.credited[..|r.credited|] == r'.credited;
  }
}
