/** In-flight submission progress (portal/progress.go): generation tokens, staleness eviction, and
    byte counts that follow a seekable file. Times are nanoseconds. */
module Progress {
  import opened Streams

  const PROGRESS_TTL := 300_000_000_000    // five minutes

  datatype Phase = NoPhase | Validating | Scanning | Storing | Scoring

  datatype Progress = Progress(phase: Phase, bytes: int, total: int, startedAt: int)

  datatype ProgressEntry = ProgressEntry(progress: Progress, lastUpdate: int, gen: nat)

  datatype Handle = Handle(operator: string, gen: nat)

  /** One call on the tracker or on a handle, with the clock it read. */
  datatype Event =
    | Began(operator: string, now: int)
    | Polled(operator: string, now: int)
    | Moved(h: Handle, phase: Phase, total: int, now: int)
    | Added(h: Handle, n: int, now: int)
    | Ended(h: Handle)

  datatype Table = Table(inflight: map<string, ProgressEntry>, nextGen: nat) {
    predicate Live(h: Handle) {
      h.operator in inflight && inflight[h.operator].gen == h.gen
    }

    /** ProgressHandle.update. */
    function Update(h: Handle, f: Progress -> Progress, now: int): Table {
      if !Live(h) then this
      else
        var e := inflight[h.operator];
        this.(inflight := inflight[h.operator := ProgressEntry(f(e.progress), now, e.gen)])
    }
  }

  function Step(t: Table, e: Event): Table {
    match e
    case Began(op, now) =>
      Table(t.inflight[op := ProgressEntry(Progress(NoPhase, 0, 0, now), now, t.nextGen + 1)], t.nextGen + 1)
    case Polled(op, now) =>
      if op in t.inflight && now - t.inflight[op].lastUpdate > PROGRESS_TTL
      then t.(inflight := t.inflight - {op}) else t
    case Moved(h, p, total, now) => t.Update(h, _ => Progress(p, 0, total, now), now)
    case Added(h, n, now) => t.Update(h, (g: Progress) => g.(bytes := g.bytes + n), now)
    case Ended(h) => if t.Live(h) then t.(inflight := t.inflight - {h.operator}) else t
  }

  function After(history: seq<Event>): Table {
    if history == [] then Table(map[], 0)
    else Step(After(history[..|history| - 1]), history[|history| - 1])
  }

  // ---------- the tracker ----------

  class ProgressTracker {
    var inflight: map<string, ProgressEntry>
    var nextGen: nat
    ghost var history: seq<Event>

    ghost function State(): Table
      reads this
    {
      Table(inflight, nextGen)
    }

    ghost predicate Valid()
      reads this
    {
      State() == After(history)
    }

    constructor ()
      ensures Valid() && history == []
    {
      inflight, nextGen, history := map[], 0, [];
    }

    method Begin(operator: string, now: int) returns (h: Handle)
      requires Valid()
      modifies this
      ensures Valid() && history == old(history) + [Began(operator, now)]
      ensures h == Handle(operator, nextGen) && State().Live(h)
    {
      nextGen := nextGen + 1;
      inflight := inflight[operator := ProgressEntry(Progress(NoPhase, 0, 0, now), now, nextGen)];
      history := history + [Began(operator, now)];
      assert history[..|history| - 1] == old(history);
      h := Handle(operator, nextGen);
    }

    method Get(operator: string, now: int) returns (p: Option<Progress>)
      requires Valid()
      modifies this
      ensures Valid() && history == old(history) + [Polled(operator, now)]
      ensures p == if operator in inflight then Some(inflight[operator].progress) else None
    {
      history := history + [Polled(operator, now)];
      assert history[..|history| - 1] == old(history);
      if operator !in inflight {
        return None;
      }
      if now - inflight[operator].lastUpdate > PROGRESS_TTL {
        inflight := inflight - {operator};
        return None;
      }
      return Some(inflight[operator].progress);
    }

    method EnterPhase(h: Handle, phase: Phase, total: int, now: int)
      requires Valid()
      modifies this
      ensures Valid() && history == old(history) + [Moved(h, phase, total, now)]
    {
      if h.operator in inflight && inflight[h.operator].gen == h.gen {
        inflight := inflight[h.operator := ProgressEntry(Progress(phase, 0, total, now), now, h.gen)];
      }
      history := history + [Moved(h, phase, total, now)];
      assert history[..|history| - 1] == old(history);
    }

    method Add(h: Handle, n: int, now: int)
      requires Valid()
      modifies this
      ensures Valid() && history == old(history) + [Added(h, n, now)]
    {
      if h.operator in inflight && inflight[h.operator].gen == h.gen {
        var p := inflight[h.operator].progress;
        inflight := inflight[h.operator := ProgressEntry(p.(bytes := p.bytes + n), now, h.gen)];
      }
      history := history + [Added(h, n, now)];
      assert history[..|history| - 1] == old(history);
    }

    method Done(h: Handle)
      requires Valid()
      modifies this
      ensures Valid() && history == old(history) + [Ended(h)]
    {
      if h.operator in inflight && inflight[h.operator].gen == h.gen {
        inflight := inflight - {h.operator};
      }
      history := history + [Ended(h)];
      assert history[..|history| - 1] == old(history);
    }
  }

  // ---------- what an operator is shown, read off the history ----------

  function Begins(history: seq<Event>): nat {
    if history == [] then 0
    else Begins(history[..|history| - 1]) + if history[|history| - 1].Began? then 1 else 0
  }

  /** The generation last issued to `op`, 0 before the first. */
  function LatestGen(history: seq<Event>, op: string): nat {
    if history == [] then 0
    else
      var e := history[|history| - 1];
      if e.Began? && e.operator == op then Begins(history) else LatestGen(history[..|history| - 1], op)
  }

  function LatestHandle(history: seq<Event>, op: string): Handle {
    Handle(op, LatestGen(history, op))
  }

  /** What the operator's latest handle alone published, whether or not anyone was listening: the last
      phase it entered, and the bytes it has added since. */
  function OwnProgress(history: seq<Event>, op: string): Progress {
    if history == [] then Progress(NoPhase, 0, 0, 0)
    else
      var init, e := history[..|history| - 1], history[|history| - 1];
      match e
      case Began(o, now) => if o == op then Progress(NoPhase, 0, 0, now) else OwnProgress(init, op)
      case Moved(h, p, total, now) =>
        if h == LatestHandle(init, op) then Progress(p, 0, total, now) else OwnProgress(init, op)
      case Added(h, n, _) =>
        var own := OwnProgress(init, op);
        if h == LatestHandle(init, op) then own.(bytes := own.bytes + n) else own
      case _ => OwnProgress(init, op)
  }

  /** When that handle last said anything. */
  function LastHeard(history: seq<Event>, op: string): int {
    if history == [] then 0
    else
      var init, e := history[..|history| - 1], history[|history| - 1];
      if e.Began? && e.operator == op then e.now
      else if (e.Moved? || e.Added?) && e.h == LatestHandle(init, op) then e.now
      else LastHeard(init, op)
  }

  /** It has begun, has not ended, and no poll has found it silent for too long. */
  predicate InFlight(history: seq<Event>, op: string) {
    history != [] &&
    var init, e := history[..|history| - 1], history[|history| - 1];
    if e.Began? && e.operator == op then true
    else
      && InFlight(init, op)
      && !(e.Ended? && e.h == LatestHandle(init, op))
      && !(e.Polled? && e.operator == op && e.now - LastHeard(init, op) > PROGRESS_TTL)
  }

  /** In every interleaving the table shows, for each operator, what that operator's latest handle
      published, for as long as it is in flight, and nothing else. */
  lemma {:induction false} TableShowsLatestHandle(history: seq<Event>, op: string)
    ensures var t := After(history);
            && t.nextGen == Begins(history) && LatestGen(history, op) <= t.nextGen
            && (op in t.inflight <==> InFlight(history, op))
            && (op in t.inflight ==>
                  t.inflight[op] == ProgressEntry(OwnProgress(history, op), LastHeard(history, op),
                                                    LatestGen(history, op)))
  {
    if history != [] {
      TableShowsLatestHandle(history[..|history| - 1], op);
    }
  }

  /** The token shown is the highest the operator was ever issued, and no one else was issued it. */
  lemma {:induction false} LatestGenIsHighest(history: seq<Event>, op: string, k: nat)
    requires k < |history| && history[k].Began?
    ensures Begins(history[..k + 1]) <= Begins(history)
    ensures history[k].operator == op ==> Begins(history[..k + 1]) <= LatestGen(history, op)
    ensures history[k].operator != op ==> Begins(history[..k + 1]) != LatestGen(history, op)
  {
    var n := |history| - 1;
    if k == n {
      assert history[..k + 1] == history;
      GenBound(history[..n], op);
    } else {
      LatestGenIsHighest(history[..n], op, k);
      assert history[..n][..k + 1] == history[..k + 1];
    }
  }

  lemma {:induction false} GenBound(history: seq<Event>, op: string)
    ensures LatestGen(history, op) <= Begins(history)
  {
    if history != [] {
      GenBound(history[..|history| - 1], op);
    }
  }

  /** `history` without the calls of handles other than the operator's latest at the time. */
  function OwnCalls(history: seq<Event>, op: string): seq<Event> {
    if history == [] then []
    else
      var init, e := history[..|history| - 1], history[|history| - 1];
      OwnCalls(init, op) + if Foreign(init, op, e) then [] else [e]
  }

  /** The two histories say the same about `op`. */
  ghost predicate SayTheSame(a: seq<Event>, b: seq<Event>, op: string) {
    && Begins(a) == Begins(b) && LatestGen(a, op) == LatestGen(b, op) && OwnProgress(a, op) == OwnProgress(b, op)
    && LastHeard(a, op) == LastHeard(b, op) && InFlight(a, op) == InFlight(b, op)
  }

  lemma SameAfterBoth(a: seq<Event>, b: seq<Event>, op: string, e: Event)
    requires SayTheSame(a, b, op)
    ensures SayTheSame(a + [e], b + [e], op)
  {
    assert (a + [e])[..|a|] == a && (b + [e])[..|b|] == b;
  }

  /** `e` is a call of another handle than the operator's latest, or a poll by someone else. */
  predicate Foreign(history: seq<Event>, op: string, e: Event) {
    if e.Moved? || e.Added? || e.Ended? then e.h != LatestHandle(history, op) else e.Polled? && e.operator != op
  }

  lemma SameAfterForeign(a: seq<Event>, b: seq<Event>, op: string, e: Event)
    requires SayTheSame(a, b, op) && Foreign(b, op, e)
    ensures SayTheSame(a, b + [e], op)
  {
    assert (b + [e])[..|b|] == b;
  }

  lemma {:induction false} OwnCallsSuffice(history: seq<Event>, op: string)
    ensures SayTheSame(OwnCalls(history, op), history, op)
  {
    if history != [] {
      var init, e := history[..|history| - 1], history[|history| - 1];
      assert history == init + [e];
      OwnCallsSuffice(init, op);
      if Foreign(init, op, e) {
        SameAfterForeign(OwnCalls(init, op), init, op, e);
        assert OwnCalls(history, op) == OwnCalls(init, op);
      } else {
        SameAfterBoth(OwnCalls(init, op), init, op, e);
      }
    }
  }

  /** Superseded handles and other operators' handles are inert: striking out every call they made
      leaves what this operator is shown as it was. */
  lemma OthersAreInert(history: seq<Event>, op: string)
    ensures var t, t' := After(history), After(OwnCalls(history, op));
            (op in t.inflight <==> op in t'.inflight) && (op in t.inflight ==> t.inflight[op] == t'.inflight[op])
  {
    OwnCallsSuffice(history, op);
    TableShowsLatestHandle(history, op);
    TableShowsLatestHandle(OwnCalls(history, op), op);
  }

  /** A handle that has ended or was evicted cannot bring its entry back: only a new Begin can. */
  lemma GoneUntilBegun(history: seq<Event>, op: string, e: Event)
    requires op !in After(history).inflight && !(e.Began? && e.operator == op)
    ensures op !in After(history + [e]).inflight
  {
    assert (history + [e])[..|history|] == history;
  }

  /** An entry leaves the table exactly when its own handle is done, or its own operator polls after the
      handle has been silent for more than five minutes. */
  lemma LeavesExactly(history: seq<Event>, op: string, e: Event)
    requires op in After(history).inflight
    ensures op !in After(history + [e]).inflight <==>
      || e == Ended(LatestHandle(history, op))
      || (e.Polled? && e.operator == op && e.now - LastHeard(history, op) > 300_000_000_000)
  {
    TableShowsLatestHandle(history, op);
    assert (history + [e])[..|history|] == history;
  }

  /** This call is a sign of life of `h`: its Begin, a phase or bytes. */
  predicate IsSign(history: seq<Event>, k: nat, h: Handle)
    requires k < |history|
  {
    var e := history[k];
    if e.Began? then e.operator == h.operator && Begins(history[..k + 1]) == h.gen
    else (e.Moved? || e.Added?) && e.h == h
  }

  /** The handle was last heard at its last sign of life, whoever else called since. */
  lemma {:induction false} LastHeardExactly(history: seq<Event>, k: nat, op: string)
    requires k < |history| && IsSign(history, k, LatestHandle(history, op)) && LatestGen(history, op) > 0
    requires forall i :: k < i < |history| ==> !IsSign(history, i, LatestHandle(history, op))
    ensures LastHeard(history, op) == history[k].now
    decreases |history|
  {
    var n := |history| - 1;
    var init, e := history[..n], history[n];
    assert history[..n + 1] == history;
    if k < n {
      assert !IsSign(history, n, LatestHandle(history, op));
      forall i | 0 <= i < n
        ensures IsSign(init, i, LatestHandle(history, op)) == IsSign(history, i, LatestHandle(history, op))
      {
        assert init[..i + 1] == history[..i + 1];
      }
      LastHeardExactly(init, k, op);
    } else if !e.Began? {
      GenBound(init, op);
    }
  }

  /** What `h` added from the i-th call on. */
  function SumAdded(history: seq<Event>, i: nat, h: Handle): int
    requires i <= |history|
    decreases |history|
  {
    if i == |history| then 0
    else
      var e := history[|history| - 1];
      SumAdded(history[..|history| - 1], i, h) + if e.Added? && e.h == h then e.n else 0
  }

  /** From the phase its handle entered last, an operator is shown that phase, its total and start, and
      the sum of what the handle has added since, whoever else called in between. */
  lemma {:induction false} ShownSincePhase(history: seq<Event>, i: nat, op: string)
    requires i < |history| && history[i].Moved? && history[i].h == LatestHandle(history[..i], op)
    requires forall k :: i < k < |history| ==>
      !(history[k].Began? && history[k].operator == op) && !(history[k].Moved? && history[k].h == history[i].h)
    ensures LatestHandle(history, op) == history[i].h
    ensures op in After(history).inflight ==>
      After(history).inflight[op].progress
        == Progress(history[i].phase, SumAdded(history, i + 1, history[i].h), history[i].total, history[i].now)
  {
    SincePhase(history, i, op);
    TableShowsLatestHandle(history, op);
  }

  lemma {:induction false} SincePhase(history: seq<Event>, i: nat, op: string)
    requires i < |history| && history[i].Moved? && history[i].h == LatestHandle(history[..i], op)
    requires forall k :: i < k < |history| ==>
      !(history[k].Began? && history[k].operator == op) && !(history[k].Moved? && history[k].h == history[i].h)
    ensures LatestHandle(history, op) == history[i].h
    ensures OwnProgress(history, op)
         == Progress(history[i].phase, SumAdded(history, i + 1, history[i].h), history[i].total, history[i].now)
    decreases |history|
  {
    var n := |history| - 1;
    var init := history[..n];
    if i < n {
      assert init[..i] == history[..i] && init[i] == history[i];
      SincePhase(init, i, op);
    } else {
      assert init == history[..i];
    }
  }

  /** And from its Begin to its first phase, nothing. */
  lemma {:induction false} ShownSinceBegin(history: seq<Event>, i: nat, op: string)
    requires i < |history| && history[i].Began? && history[i].operator == op
    requires forall k :: i < k < |history| ==>
      !(history[k].Began? && history[k].operator == op) && !(history[k].Moved? && history[k].h.operator == op)
    ensures OwnProgress(history, op)
         == Progress(NoPhase, SumAdded(history, i + 1, LatestHandle(history, op)), 0, history[i].now)
    ensures LatestGen(history, op) == Begins(history[..i + 1])
    decreases |history|
  {
    var n := |history| - 1;
    var init := history[..n];
    if i < n {
      assert init[..i + 1] == history[..i + 1];
      ShownSinceBegin(init, i, op);
    } else {
      assert history[..i + 1] == history;
    }
  }

  // ---------- the counting seeker ----------

  /** An archive being stored: the table, the wrapped file with its size and offset, and the offset the
      counting seeker keeps. */
  datatype Transfer = Transfer(t: Table, size: nat, pos: nat, offset: nat)

  /** One step while an archive is being stored: the store reads or seeks, or someone else acts. */
  datatype StoreStep = Reads(n: nat, now: int) | Seeks(to: nat, now: int) | Refused | Elsewhere(e: Event)

  /** A file gives bytes only up to its end; meanwhile the handle itself does nothing else, although it
      may be finished, superseded or evicted at any time. */
  ghost predicate Possible(s: Transfer, h: Handle, step: StoreStep) {
    match step
    case Reads(n, _) => n == 0 || s.pos + n <= s.size
    case Elsewhere(e) => (e.Moved? || e.Added?) ==> e.h != h
    case _ => true
  }

  function TakeStep(s: Transfer, h: Handle, step: StoreStep): Transfer {
    match step
    case Reads(n, now) =>
      if n == 0 then s else Transfer(Step(s.t, Added(h, n, now)), s.size, s.pos + n, s.offset + n)
    case Seeks(to, now) => Transfer(Step(s.t, Added(h, to - s.offset, now)), s.size, to, to)
    case Refused => s
    case Elsewhere(e) => s.(t := Step(s.t, e))
  }

  /** While the entry of `h` is live it shows the file's offset, out of the file's size. */
  ghost predicate Follows(s: Transfer, h: Handle) {
    && s.offset == s.pos && h.gen <= s.t.nextGen
    && (s.t.Live(h) ==> var p := s.t.inflight[h.operator].progress; p.bytes == s.pos && p.total == s.size)
  }

  lemma StepFollows(s: Transfer, h: Handle, step: StoreStep)
    requires Follows(s, h) && Possible(s, h, step)
    ensures var s' := TakeStep(s, h, step);
            && Follows(s', h)
            && (step.Reads? && 0 < step.n ==> s'.pos <= s'.size)
  {
  }

  lemma AfterOneMore(history: seq<Event>, e: Event)
    ensures After(history + [e]) == Step(After(history), e)
  {
    assert (history + [e])[..|history|] == history;
  }

  /** countingSeeker around a file of `size` bytes at offset `pos`. */
  class CountingSeeker {
    const size: nat
    const h: Handle
    var pos: nat
    var offset: nat

    ghost function View(tracker: ProgressTracker): Transfer
      reads this, tracker
    {
      Transfer(tracker.State(), size, pos, offset)
    }

    ghost predicate Valid(tracker: ProgressTracker)
      reads this, tracker
    {
      tracker.Valid() && Follows(View(tracker), h)
    }

    /** The storing phase begins on a rewound file. */
    constructor (size: nat, h: Handle, tracker: ProgressTracker, now: int)
      requires tracker.Valid() && h.gen <= tracker.nextGen
      modifies tracker
      ensures Valid(tracker) && this.size == size && this.h == h && pos == 0
      ensures tracker.State() == Step(old(tracker.State()), Moved(h, Storing, size, now))
    {
      this.size, this.h, pos, offset := size, h, 0, 0;
      new;
      ghost var history := tracker.history;
      tracker.EnterPhase(h, Storing, size, now);
      AfterOneMore(history, Moved(h, Storing, size, now));
    }

    /** Read: as many bytes as the file gives, none at or past its end. */
    method Read(tracker: ProgressTracker, max: nat, now: int) returns (n: nat)
      requires Valid(tracker)
      modifies this, tracker
      ensures Valid(tracker) && n <= max && (0 < n <==> old(pos) < size && 0 < max)
      ensures Possible(old(View(tracker)), h, Reads(n, now))
      ensures View(tracker) == TakeStep(old(View(tracker)), h, Reads(n, now))
    {
      n := 0;
      if pos < size && 0 < max {
        n :| 0 < n <= max && n <= size - pos by { assert 0 < 1 <= max && 1 <= size - pos; }
      }
      pos := pos + n;
      if n > 0 {
        offset := offset + n;
        ghost var history := tracker.history;
        tracker.Add(h, n, now);
        AfterOneMore(history, Added(h, n, now));
      }
    }

    /** Seek: `to` is where the file ends up, None when it refuses. */
    method Seek(tracker: ProgressTracker, to: Option<nat>, now: int) returns (ok: bool)
      requires Valid(tracker)
      modifies this, tracker
      ensures Valid(tracker) && ok == to.Some?
      ensures View(tracker) == TakeStep(old(View(tracker)), h, if ok then Seeks(to.value, now) else Refused)
    {
      if to.None? {
        return false;
      }
      ghost var before, history := View(tracker), tracker.history;
      StepFollows(before, h, Seeks(to.value, now));
      pos := to.value;
      tracker.Add(h, to.value - offset, now);
      AfterOneMore(history, Added(h, to.value - before.offset, now));
      offset := to.value;
      return true;
    }
  }

  function RunSteps(s: Transfer, h: Handle, steps: seq<StoreStep>): Transfer {
    if steps == [] then s else TakeStep(RunSteps(s, h, steps[..|steps| - 1]), h, steps[|steps| - 1])
  }

  ghost predicate PossibleRun(s: Transfer, h: Handle, steps: seq<StoreStep>) {
    steps != [] ==>
      var n := |steps| - 1;
      PossibleRun(s, h, steps[..n]) && Possible(RunSteps(s, h, steps[..n]), h, steps[n])
  }

  /** Through any sequence of reads, rewinds and re-reads, interleaved with anything the other handles
      and the pollers do, the bytes shown are the file's offset and the total its size for as long as
      the entry is live: retries never count twice, and a read never takes the bytes past the total. */
  lemma {:induction false} BytesFollowTheFile(s: Transfer, h: Handle, steps: seq<StoreStep>)
    requires Follows(s, h) && PossibleRun(s, h, steps)
    ensures var s' := RunSteps(s, h, steps);
            && Follows(s', h) && s'.size == s.size
            && (steps != [] && steps[|steps| - 1].Reads? && 0 < steps[|steps| - 1].n && s'.t.Live(h) ==>
                  var p := s'.t.inflight[h.operator].progress; 0 < p.bytes <= p.total)
  {
    if steps != [] {
      BytesFollowTheFile(s, h, steps[..|steps| - 1]);
      StepFollows(RunSteps(s, h, steps[..|steps| - 1]), h, steps[|steps| - 1]);
    }
  }

  /** Only a seek can show more than the total: as long as none goes past the end of the file, the bytes
      shown never do. */
  lemma {:induction false} NeverPastTotal(s: Transfer, h: Handle, steps: seq<StoreStep>)
    requires Follows(s, h) && PossibleRun(s, h, steps) && s.pos <= s.size
    requires forall k :: 0 <= k < |steps| && steps[k].Seeks? ==> steps[k].to <= s.size
    ensures var s' := RunSteps(s, h, steps);
            && s'.pos <= s'.size == s.size
            && (s'.t.Live(h) ==> var p := s'.t.inflight[h.operator].progress; 0 <= p.bytes <= p.total)
  {
    BytesFollowTheFile(s, h, steps);
    if steps != [] {
      NeverPastTotal(s, h, steps[..|steps| - 1]);
    }
  }
}
