/** The score store under concurrent use, and the offline rescore (scoring/store.go, portal/score.go,
    portal/submit.go, cmd/rescore/main.go). */
module ScoreRuns {
  import opened Streams
  import opened Scoring
  import Records

  // ---------- interleavings of locked store steps ----------

  /** What a request or a rescore run holds between two of its store calls. */
  datatype Held = Nothing | Read(result: Result) | Snapshot(previous: map<string, Result>)

  datatype System = System(store: map<string, Result>, held: map<nat, Held>) {
    function Holds(p: nat): Held {
      if p in held then held[p] else Nothing
    }
  }

  /** One locked call, by process `p`. A call that reports failure either did or did not happen, so
      every mix of failures is a run too. */
  datatype Action =
    | SubmitSet(r: Result)                          // ServeHTTP
    | ScoreGet(p: nat, id: string)                  // AdminScoreHandler, first half
    | ScoreSet(p: nat, mark: int)                   // AdminScoreHandler, second half
    | Delete(id: string)                            // AdminDeleteSubmissionHandler
    | RescoreRead(p: nat)                           // rescore: ByID
    | RescoreSet(p: nat, after: Result)             // rescore: Set

  /** A record the automatic checks just produced. */
  ghost predicate Automatic(r: Result) {
    r.scored && Sane(r) && r.Pending()
  }

  /** What the code's own guards let happen. */
  ghost predicate Enabled(s: System, a: Action) {
    match a
    case SubmitSet(r) => Sane(r) && r.Pending()
    case ScoreGet(p, id) => true
    case ScoreSet(p, mark) => s.Holds(p).Read? && s.Holds(p).result.scored && 0 <= mark <= 25
    case Delete(id) => true
    case RescoreRead(p) => true
    case RescoreSet(p, after) => s.Holds(p).Snapshot? && Automatic(after)
  }

  function WithMark(after: Result, previous: map<string, Result>): Result {
    if after.id in previous then after.(incidentResponse := previous[after.id].incidentResponse) else after
  }

  ghost function Act(s: System, a: Action): System
    requires Enabled(s, a)
  {
    match a
    case SubmitSet(r) => s.(store := s.store[r.id := r])
    case ScoreGet(p, id) =>
      s.(held := s.held[p := if id in s.store && s.store[id].scored then Read(s.store[id]) else Nothing])
    case ScoreSet(p, mark) =>
      var r := s.Holds(p).result.(incidentResponse := Some(mark));
      s.(store := s.store[r.id := r])
    case Delete(id) => s.(store := s.store - {id})
    case RescoreRead(p) => s.(held := s.held[p := Snapshot(s.store)])
    case RescoreSet(p, after) =>
      var r := WithMark(after, s.Holds(p).previous);
      s.(store := s.store[r.id := r])
  }

  ghost predicate SaneMap(m: map<string, Result>) {
    forall id :: id in m ==> m[id].id == id && Sane(m[id])
  }

  ghost predicate Inv(s: System) {
    && SaneMap(s.store)
    && forall p :: p in s.held ==>
         match s.held[p]
         case Nothing => true
         case Read(r) => Sane(r)
         case Snapshot(m) => SaneMap(m)
  }

  lemma ActKeepsInv(s: System, a: Action)
    requires Inv(s) && Enabled(s, a)
    ensures Inv(Act(s, a))
  {
  }

  const EMPTY := System(map[], map[])

  /** `states` is a run of `actions` from the empty store. */
  ghost predicate IsRun(states: seq<System>, actions: seq<Action>) {
    && |states| == |actions| + 1 && states[0] == EMPTY
    && forall k :: 0 <= k < |actions| ==> Enabled(states[k], actions[k]) && states[k + 1] == Act(states[k], actions[k])
  }

  lemma {:induction false} RunsKeepInv(states: seq<System>, actions: seq<Action>, n: nat)
    requires IsRun(states, actions) && n <= |actions|
    ensures Inv(states[n])
  {
    if n > 0 {
      RunsKeepInv(states, actions, n - 1);
      assert states[n - 1 + 1] == Act(states[n - 1], actions[n - 1]);
      ActKeepsInv(states[n - 1], actions[n - 1]);
    }
  }

  /** In every interleaving of submissions, manual scoring, deletes and rescores, a stored mark implies
      an automatic score, and every scored total lies in 38..100. */
  lemma StoredScoresAreSound(states: seq<System>, actions: seq<Action>, id: string)
    requires IsRun(states, actions) && id in states[|actions|].store
    ensures var r := states[|actions|].store[id];
            && r.id == id && (!r.Pending() ==> r.scored)
            && (r.scored ==> 38 <= r.TotalScore() <= 100) && (!r.scored ==> r.TotalScore() == 0)
  {
    RunsKeepInv(states, actions, |actions|);
    SaneBounds(states[|actions|].store[id]);
  }

  /** One of the first `n` steps stored the automatic fields of `r`: a submission or a rescore. */
  ghost predicate FromChecks(actions: seq<Action>, n: nat, r: Result) {
    exists w :: 0 <= w < n <= |actions| && (
      || actions[w] == SubmitSet(r.(incidentResponse := None))
      || (actions[w].RescoreSet? && actions[w].after == r.(incidentResponse := None)))
  }

  lemma FromChecksLater(actions: seq<Action>, n: nat, r: Result)
    requires FromChecks(actions, n, r) && n < |actions|
    ensures FromChecks(actions, n + 1, r)
  {
  }

  /** In every interleaving the automatic fields on record, and those a scoring request holds, are some
      that the checks produced: nothing but the mark is ever made up or mixed. */
  lemma {:induction false} FieldsComeFromChecks(states: seq<System>, actions: seq<Action>, n: nat)
    requires IsRun(states, actions) && n <= |actions|
    ensures forall id :: id in states[n].store ==> FromChecks(actions, n, states[n].store[id])
    ensures forall p: nat :: states[n].Holds(p).Read? ==> FromChecks(actions, n, states[n].Holds(p).result)
  {
    if n > 0 {
      var m := n - 1;
      var s, s', a := states[m], states[n], actions[m];
      FieldsComeFromChecks(states, actions, m);
      assert states[m + 1] == Act(s, a);
      forall id | id in s'.store
        ensures FromChecks(actions, n, s'.store[id])
      {
        if id in s.store && s'.store[id] == s.store[id] {
          FromChecksLater(actions, m, s.store[id]);
        } else if a.ScoreSet? {
          FromChecksLater(actions, m, s.Holds(a.p).result);
          assert s'.store[id].(incidentResponse := None) == s.Holds(a.p).result.(incidentResponse := None);
        } else {
          assert actions[m] == SubmitSet(s'.store[id].(incidentResponse := None))
              || (actions[m].RescoreSet? && actions[m].after == s'.store[id].(incidentResponse := None));
        }
      }
      forall p: nat | s'.Holds(p).Read?
        ensures FromChecks(actions, n, s'.Holds(p).result)
      {
        if s.Holds(p) == s'.Holds(p) {
          FromChecksLater(actions, m, s.Holds(p).result);
        } else {
          FromChecksLater(actions, m, s.store[a.id]);
        }
      }
    }
  }

  // ---------- what a process holds, and who writes a record ----------

  /** `a` is a store read by process `p`, after which `p` holds what it read. */
  predicate Reads(a: Action, p: nat) {
    (a.ScoreGet? || a.RescoreRead?) && a.p == p
  }

  /** The read at `g` is the last one by `p` before step `w`. */
  ghost predicate LastRead(actions: seq<Action>, p: nat, g: nat, w: nat) {
    g < w <= |actions| && Reads(actions[g], p) && forall k :: g < k < w ==> !Reads(actions[k], p)
  }

  lemma {:induction false} HeldSince(states: seq<System>, actions: seq<Action>, p: nat, g: nat, w: nat)
    requires IsRun(states, actions) && LastRead(actions, p, g, w)
    ensures states[w].Holds(p) == states[g + 1].Holds(p)
    decreases w
  {
    if g + 1 < w {
      HeldSince(states, actions, p, g, w - 1);
      assert states[w - 1 + 1] == Act(states[w - 1], actions[w - 1]);
    }
  }

  lemma {:induction false} SomeRead(states: seq<System>, actions: seq<Action>, p: nat, w: nat) returns (g: nat)
    requires IsRun(states, actions) && w <= |actions| && states[w].Holds(p) != Nothing
    ensures LastRead(actions, p, g, w)
  {
    assert states[w - 1 + 1] == Act(states[w - 1], actions[w - 1]);
    if Reads(actions[w - 1], p) {
      return w - 1;
    }
    g := SomeRead(states, actions, p, w - 1);
  }

  /** `a` puts a record under `id`. */
  ghost predicate Writes(s: System, a: Action, id: string) {
    match a
    case SubmitSet(r) => r.id == id
    case ScoreSet(p, _) => s.Holds(p).Read? && s.Holds(p).result.id == id
    case RescoreSet(_, after) => after.id == id
    case _ => false
  }

  lemma ActAt(s: System, a: Action, id: string)
    requires Enabled(s, a)
    ensures id in Act(s, a).store <==> Writes(s, a, id) || (id in s.store && a != Delete(id))
    ensures !Writes(s, a, id) && id in Act(s, a).store ==> Act(s, a).store[id] == s.store[id]
  {
  }

  // ---------- deleted scores ----------

  /** Step `w` writes `id`, and no delete of it follows before `n`. */
  ghost predicate WrittenLast(states: seq<System>, actions: seq<Action>, w: nat, n: nat, id: string)
    requires |states| == |actions| + 1 && n <= |actions|
  {
    w < n && Writes(states[w], actions[w], id) && forall k :: w < k < n ==> actions[k] != Delete(id)
  }

  /** After a delete the score is there exactly when it was written since and not deleted again. */
  lemma {:induction false} BackExactly(states: seq<System>, actions: seq<Action>, d: nat, n: nat, id: string)
    requires IsRun(states, actions) && d < n <= |actions| && actions[d] == Delete(id)
    ensures id in states[n].store <==> exists w :: d < w && WrittenLast(states, actions, w, n, id)
    decreases n
  {
    var m := n - 1;
    assert states[m + 1] == Act(states[m], actions[m]);
    ActAt(states[m], actions[m], id);
    if m > d {
      BackExactly(states, actions, d, m, id);
      if Writes(states[m], actions[m], id) {
        assert WrittenLast(states, actions, m, n, id);
      } else if w :| d < w && WrittenLast(states, actions, w, m, id) && actions[m] != Delete(id) {
        assert WrittenLast(states, actions, w, n, id);
      }
      if w :| d < w && WrittenLast(states, actions, w, n, id) && w < m {
        assert WrittenLast(states, actions, w, m, id);
      }
    }
  }

  ghost predicate StaysDeleted(states: seq<System>, d: nat, id: string) {
    forall n :: d < n < |states| ==> id !in states[n].store
  }

  /** Step `w` brings a record of `id` past the delete at `d`: a submission or a rescore of that id, or
      the second half of a scoring request that had read the record before the delete. */
  ghost predicate Revives(actions: seq<Action>, d: nat, w: nat, id: string) {
    d < w < |actions| &&
    match actions[w]
    case SubmitSet(r) => r.id == id
    case ScoreSet(p, _) => exists g: nat :: g < d && LastRead(actions, p, g, w) && actions[g] == ScoreGet(p, id)
    case RescoreSet(_, after) => after.id == id
    case _ => false
  }

  /** What the second half of a scoring request is about is told by its own first half. */
  lemma ScoredIdIsRead(states: seq<System>, actions: seq<Action>, g: nat, w: nat)
    requires IsRun(states, actions) && w < |actions| && actions[w].ScoreSet? && LastRead(actions, actions[w].p, g, w)
    ensures actions[g].ScoreGet? && states[w].Holds(actions[w].p).Read?
    ensures states[w].Holds(actions[w].p).result.id == actions[g].id && actions[g].id in states[g].store
  {
    assert Enabled(states[w], actions[w]) && states[g + 1] == Act(states[g], actions[g]);
    HeldSince(states, actions, actions[w].p, g, w);
    RunsKeepInv(states, actions, g);
  }

  lemma RevivingWrites(states: seq<System>, actions: seq<Action>, d: nat, w: nat, id: string)
    requires IsRun(states, actions) && Revives(actions, d, w, id)
    ensures id in states[w + 1].store
  {
    if actions[w].ScoreSet? {
      var g: nat :| g < d && LastRead(actions, actions[w].p, g, w) && actions[g] == ScoreGet(actions[w].p, id);
      ScoredIdIsRead(states, actions, g, w);
    }
    assert states[w + 1] == Act(states[w], actions[w]);
    ActAt(states[w], actions[w], id);
  }

  /** The first record back after a delete was brought there by a reviving step. */
  lemma FirstBackIsRevived(states: seq<System>, actions: seq<Action>, d: nat, w: nat, id: string)
    requires IsRun(states, actions) && d < w < |actions| && actions[d] == Delete(id) && id in states[w + 1].store
    requires forall n :: d < n <= w ==> id !in states[n].store
    ensures Revives(actions, d, w, id)
  {
    assert states[w + 1] == Act(states[w], actions[w]) && id !in states[w].store;
    ActAt(states[w], actions[w], id);
    if actions[w].ScoreSet? {
      var p := actions[w].p;
      var g := SomeRead(states, actions, p, w);
      ScoredIdIsRead(states, actions, g, w);
      assert g < d;
    }
  }

  lemma {:induction false} FirstBack(states: seq<System>, d: nat, n: nat, id: string) returns (w: nat)
    requires d < n < |states| && id in states[n].store && id !in states[d + 1].store
    ensures d < w < n && id in states[w + 1].store && forall k :: d < k <= w ==> id !in states[k].store
    decreases n
  {
    if k :| d < k < n && id in states[k].store {
      w := FirstBack(states, d, k, id);
    } else {
      w := n - 1;
    }
  }

  /** No id is submitted twice, and `id` was submitted before step `d`. */
  ghost predicate FreshIds(actions: seq<Action>, d: nat, id: string) {
    && (forall i, j :: 0 <= i < j < |actions| && actions[i].SubmitSet? && actions[j].SubmitSet? ==>
          actions[i].r.id != actions[j].r.id)
    && exists i :: 0 <= i < d < |actions| && actions[i].SubmitSet? && actions[i].r.id == id
  }

  /** A deleted score stays deleted exactly when no step after the delete revives it; with fresh ids that
      is no rescore of it and no scoring request that read it before the delete. */
  lemma StaysDeletedExactly(states: seq<System>, actions: seq<Action>, d: nat, id: string)
    requires IsRun(states, actions) && d < |actions| && actions[d] == Delete(id)
    ensures StaysDeleted(states, d, id) <==> forall w: nat :: !Revives(actions, d, w, id)
    ensures FreshIds(actions, d, id) ==> forall w: nat :: Revives(actions, d, w, id) ==> !actions[w].SubmitSet?
  {
    assert states[d + 1] == Act(states[d], actions[d]);
    if w: nat :| Revives(actions, d, w, id) {
      RevivingWrites(states, actions, d, w, id);
    }
    if !StaysDeleted(states, d, id) {
      var n :| d < n < |states| && id in states[n].store;
      var w := FirstBack(states, d, n, id);
      FirstBackIsRevived(states, actions, d, w, id);
    }
  }

  /** A score that comes back: it was read for marking before the delete and written after it. */
  lemma ScoreResurrected(r: Result, mark: int) returns (states: seq<System>, actions: seq<Action>)
    requires Automatic(r) && 0 <= mark <= 25
    ensures IsRun(states, actions) && |actions| == 4 && actions[2] == Delete(r.id)
    ensures r.id !in states[3].store && r.id in states[4].store
    ensures FreshIds(actions, 2, r.id) && actions[3].ScoreSet?
  {
    actions := [SubmitSet(r), ScoreGet(1, r.id), Delete(r.id), ScoreSet(1, mark)];
    var s1 := Act(EMPTY, actions[0]);
    var s2 := Act(s1, actions[1]);
    var s3 := Act(s2, actions[2]);
    var s4 := Act(s3, actions[3]);
    states := [EMPTY, s1, s2, s3, s4];
    assert actions[0] == SubmitSet(r);
  }

  /** And another: a rescore had read its archive before the delete and writes its score after it. */
  lemma ScoreRescoredBack(r: Result) returns (states: seq<System>, actions: seq<Action>)
    requires Automatic(r)
    ensures IsRun(states, actions) && |actions| == 4 && actions[2] == Delete(r.id)
    ensures r.id !in states[3].store && r.id in states[4].store
    ensures FreshIds(actions, 2, r.id) && actions[3].RescoreSet?
  {
    actions := [SubmitSet(r), RescoreRead(1), Delete(r.id), RescoreSet(1, r)];
    var s1 := Act(EMPTY, actions[0]);
    var s2 := Act(s1, actions[1]);
    var s3 := Act(s2, actions[2]);
    var s4 := Act(s3, actions[3]);
    states := [EMPTY, s1, s2, s3, s4];
    assert actions[0] == SubmitSet(r);
  }

  // ---------- marks under a rescore ----------

  /** The mark a store shows for `id`. */
  function MarkIn(store: map<string, Result>, id: string): Option<int> {
    if id in store then store[id].incidentResponse else None
  }

  /** The rescore's write at `b` follows its read of the scores at `a`. */
  ghost predicate RescoreOf(actions: seq<Action>, a: nat, b: nat, id: string) {
    && b < |actions| && actions[b].RescoreSet? && actions[b].after.id == id
    && LastRead(actions, actions[b].p, a, b) && actions[a].RescoreRead?
  }

  /** Step `k` writes or deletes the record of `id`. */
  ghost predicate Touches(states: seq<System>, actions: seq<Action>, k: nat, id: string) {
    k < |states| && k < |actions| && (Writes(states[k], actions[k], id) || actions[k] == Delete(id))
  }

  /** Step `w` is the last before `b` to touch it. */
  ghost predicate LastTouch(states: seq<System>, actions: seq<Action>, w: nat, b: nat, id: string) {
    Touches(states, actions, w, id) && forall k :: w < k < b ==> !Touches(states, actions, k, id)
  }

  /** A rescore's write shows the mark of the scores it read at its start, so it keeps the mark in the
      store exactly when that is still the same one. */
  lemma MarkKeptExactly(states: seq<System>, actions: seq<Action>, a: nat, b: nat, id: string)
    requires IsRun(states, actions) && RescoreOf(actions, a, b, id)
    ensures MarkIn(states[b + 1].store, id) == MarkIn(states[a].store, id)
    ensures MarkIn(states[b + 1].store, id) == MarkIn(states[b].store, id) <==>
      MarkIn(states[a].store, id) == MarkIn(states[b].store, id)
  {
    HeldSince(states, actions, actions[b].p, a, b);
    assert states[a + 1] == Act(states[a], actions[a]) && states[b + 1] == Act(states[b], actions[b]);
  }

  lemma {:induction false} UntouchedRecord(states: seq<System>, actions: seq<Action>, a: nat, b: nat, id: string)
    requires IsRun(states, actions) && a <= b <= |actions|
    requires forall k :: a <= k < b ==> !Touches(states, actions, k, id)
    ensures MarkIn(states[b].store, id) == MarkIn(states[a].store, id)
    decreases b
  {
    if a < b {
      UntouchedRecord(states, actions, a, b - 1, id);
      assert states[b - 1 + 1] == Act(states[b - 1], actions[b - 1]) && !Touches(states, actions, b - 1, id);
      ActAt(states[b - 1], actions[b - 1], id);
    }
  }

  /** The mark a writing or deleting step leaves. */
  ghost function MarkLeft(s: System, act: Action): Option<int>
    requires Enabled(s, act)
  {
    match act
    case ScoreSet(_, mark) => Some(mark)
    case RescoreSet(p, after) => MarkIn(s.Holds(p).previous, after.id)
    case _ => None
  }

  /** The caller's form: a rescore keeps the mark when nothing touches that record while it runs, and
      otherwise exactly when the last step that does leaves the mark the rescore had read. */
  lemma MarkKeptByLastTouch(states: seq<System>, actions: seq<Action>, a: nat, b: nat, id: string, w: nat)
    requires IsRun(states, actions) && RescoreOf(actions, a, b, id)
    ensures (forall k :: a < k < b ==> !Touches(states, actions, k, id)) ==>
      MarkIn(states[b + 1].store, id) == MarkIn(states[b].store, id)
    ensures a < w < b && LastTouch(states, actions, w, b, id) ==>
      (MarkIn(states[b + 1].store, id) == MarkIn(states[b].store, id) <==>
       MarkLeft(states[w], actions[w]) == MarkIn(states[a].store, id))
  {
    MarkKeptExactly(states, actions, a, b, id);
    if forall k :: a < k < b ==> !Touches(states, actions, k, id) {
      UntouchedRecord(states, actions, a, b, id);
    }
    if a < w < b && LastTouch(states, actions, w, b, id) {
      UntouchedRecord(states, actions, w + 1, b, id);
      assert states[w + 1] == Act(states[w], actions[w]);
    }
  }

  /** A mark lost to a rescore that was already running when it was entered. */
  lemma MarkLost(r: Result, mark: int) returns (states: seq<System>, actions: seq<Action>)
    requires Automatic(r) && 0 <= mark <= 25
    ensures IsRun(states, actions) && |actions| == 5
    ensures r.id in states[4].store && states[4].store[r.id].incidentResponse == Some(mark)
    ensures r.id in states[5].store && states[5].store[r.id].Pending()
  {
    actions := [SubmitSet(r), RescoreRead(1), ScoreGet(2, r.id), ScoreSet(2, mark), RescoreSet(1, r)];
    var s1 := Act(EMPTY, actions[0]);
    var s2 := Act(s1, actions[1]);
    var s3 := Act(s2, actions[2]);
    var s4 := Act(s3, actions[3]);
    var s5 := Act(s4, actions[4]);
    states := [EMPTY, s1, s2, s3, s4, s5];
  }

  // ---------- rescore ----------

  /** One submission: its id, and what the automatic checks make of its stored archive, None when it
      cannot be read. */
  datatype Rescored = Rescored(id: string, after: Option<Result>)

  ghost predicate WellFormed(es: seq<Rescored>) {
    forall k :: 0 <= k < |es| && es[k].after.Some? ==> es[k].after.value.id == es[k].id && es[k].after.value.Pending()
  }

  /** The store after the first `n` submissions, marks taken from `previous`. */
  function Applied(es: seq<Rescored>, n: nat, previous: map<string, Result>,
                   store: map<string, Result>): map<string, Result>
    requires n <= |es|
  {
    if n == 0 then store
    else
      var before := Applied(es, n - 1, previous, store);
      match es[n - 1].after
      case None => before
      case Some(after) => before[after.id := WithMark(after, previous)]
  }

  /** Submissions among the first `n` whose archive could not be read. */
  function Skipped(es: seq<Rescored>, n: nat): nat
    requires n <= |es|
  {
    if n == 0 then 0 else Skipped(es, n - 1) + if es[n - 1].after.None? then 1 else 0
  }

  predicate Changes(e: Rescored, previous: map<string, Result>) {
    e.after.Some? &&
    WithMark(e.after.value, previous).TotalScore()
      != if e.id in previous && previous[e.id].scored then previous[e.id].TotalScore() else 0
  }

  function Changed(es: seq<Rescored>, n: nat, previous: map<string, Result>): nat
    requires n <= |es|
  {
    if n == 0 then 0 else Changed(es, n - 1, previous) + if Changes(es[n - 1], previous) then 1 else 0
  }

  class Rescorer {
    var store: map<string, Result>

    /** The loop of run, after the config, the log and the scores were read. A failed Set ends the run,
        with or without its own effect. */
    method Run(es: seq<Rescored>, apply: bool, onSet: nat -> Records.Fault)
      returns (ok: bool, changed: nat, failed: nat, ghost done: nat)
      requires WellFormed(es)
      modifies this
      ensures ok <==> !apply || forall k :: 0 <= k < |es| && es[k].after.Some? ==> onSet(k).Fine?
      ensures done <= |es| && (ok ==> done == |es|)
      // the first failing Set ends the run, and what was set before it stays set
      ensures !ok ==> exists k ::
        && 0 <= k < |es| && es[k].after.Some? && !onSet(k).Fine? && done == (if onSet(k).Late? then k + 1 else k)
        && forall j :: 0 <= j < k && es[j].after.Some? ==> onSet(j).Fine?
      ensures store == if apply then Applied(es, done, old(store), old(store)) else old(store)
      ensures ok ==> failed == Skipped(es, |es|) && changed == Changed(es, |es|, old(store))
    {
      var previous := store;
      changed, failed := 0, 0;
      var i := 0;
      while i < |es|
        invariant 0 <= i <= |es| && previous == old(store)
        invariant failed == Skipped(es, i) && changed == Changed(es, i, previous)
        invariant apply ==> forall k :: 0 <= k < i && es[k].after.Some? ==> onSet(k).Fine?
        invariant store == if apply then Applied(es, i, previous, previous) else previous
      {
        if es[i].after.None? {
          failed, i := failed + 1, i + 1;
          continue;
        }
        var after := WithMark(es[i].after.value, previous);
        var hadBefore := es[i].id in previous && previous[es[i].id].scored;
        var beforeTotal := if hadBefore then previous[es[i].id].TotalScore() else 0;
        if beforeTotal != after.TotalScore() {
          changed := changed + 1;
        }
        if apply {
          if onSet(i).Refused? {
            return false, changed, failed, i;
          }
          store := store[after.id := after];
          if onSet(i).Late? {
            return false, changed, failed, i + 1;
          }
        }
        i := i + 1;
      }
      return true, changed, failed, i;
    }
  }

  /** What a rescore leaves under `id`: its last readable submission's result, else what was there. */
  function LastReadable(es: seq<Rescored>, n: nat, id: string): Option<Result>
    requires n <= |es|
  {
    if n == 0 then None
    else if es[n - 1].id == id && es[n - 1].after.Some? then es[n - 1].after
    else LastReadable(es, n - 1, id)
  }

  lemma {:induction false} AppliedAt(es: seq<Rescored>, n: nat, previous: map<string, Result>,
                                     store: map<string, Result>, id: string)
    requires n <= |es| && WellFormed(es)
    ensures var final, last := Applied(es, n, previous, store), LastReadable(es, n, id);
            && (last.Some? ==> last.value.id == id && last.value.Pending())
            && (id in final <==> last.Some? || id in store)
            && (id in final ==> final[id] == if last.Some? then WithMark(last.value, previous) else store[id])
  {
    if n > 0 {
      AppliedAt(es, n - 1, previous, store, id);
    }
  }

  /** An applied rescore keeps every mark, and leaves records without a readable archive as they were. */
  lemma RescoreKeepsMarks(es: seq<Rescored>, n: nat, store: map<string, Result>, id: string)
    requires n <= |es| && WellFormed(es) && id in store
    ensures var final := Applied(es, n, store, store);
            && id in final && final[id].incidentResponse == store[id].incidentResponse
            && (LastReadable(es, n, id).None? ==> final[id] == store[id])
  {
    AppliedAt(es, n, store, store, id);
  }

  /** What an applied rescore leaves under an id: exactly the automatic fields of its last readable
      submission, with the mark there was; without one, what was there. */
  lemma RescoreWritesChecks(es: seq<Rescored>, n: nat, store: map<string, Result>, id: string)
    requires n <= |es| && WellFormed(es)
    ensures var final, last := Applied(es, n, store, store), LastReadable(es, n, id);
            && (id in final <==> last.Some? || id in store)
            && (last.Some? ==>
                  && final[id].(incidentResponse := None) == last.value
                  && final[id].incidentResponse == MarkIn(store, id))
            && (last.None? && id in store ==> final[id] == store[id])
  {
    AppliedAt(es, n, store, store, id);
  }

  /** The total on record before the run, and the one of the new automatic fields with the old mark. */
  ghost predicate TotalDiffers(e: Rescored, previous: map<string, Result>) {
    && e.after.Some?
    && var mark := MarkIn(previous, e.id);
       e.after.value.TotalScore() + (if mark.Some? then mark.value else 0)
         != if e.id in previous && previous[e.id].scored then previous[e.id].TotalScore() else 0
  }

  lemma ChangesExactly(e: Rescored, previous: map<string, Result>)
    requires e.after.Some? ==> e.after.value.id == e.id && e.after.value.Pending()
    ensures Changes(e, previous) <==> TotalDiffers(e, previous)
  {
  }

  /** The submissions among the first `n` whose total differs. */
  ghost function Differing(es: seq<Rescored>, n: nat, previous: map<string, Result>): set<nat>
    requires n <= |es|
  {
    set k: nat | k < n && TotalDiffers(es[k], previous)
  }

  lemma DifferingOneMore(es: seq<Rescored>, m: nat, previous: map<string, Result>)
    requires m < |es|
    ensures Differing(es, m + 1, previous)
         == Differing(es, m, previous) + if TotalDiffers(es[m], previous) then {m} else {}
    ensures m !in Differing(es, m, previous)
  {
  }

  /** The first count a rescore reports: the submissions whose total differs. */
  lemma {:induction false} ChangedExactly(es: seq<Rescored>, n: nat, previous: map<string, Result>)
    requires n <= |es| && WellFormed(es)
    ensures Changed(es, n, previous) == |Differing(es, n, previous)|
  {
    if n == 0 {
      assert Differing(es, n, previous) == {};
    } else {
      ChangedExactly(es, n - 1, previous);
      ChangesExactly(es[n - 1], previous);
      DifferingOneMore(es, n - 1, previous);
    }
  }

  /** The second: those that could not be read. */
  lemma {:induction false} SkippedExactly(es: seq<Rescored>, n: nat)
    requires n <= |es|
    ensures Skipped(es, n) == |set k: nat | k < n && es[k].after.None?|
  {
    if n > 0 {
      var m := n - 1;
      SkippedExactly(es, m);
      var now, before := set k: nat | k < n && es[k].after.None?, set k: nat | k < m && es[k].after.None?;
      if es[m].after.None? {
        assert now == before + {m};
      } else {
        assert now == before;
      }
    }
  }

  /** A rescore can be interrupted anywhere and run again: the store ends up as after one whole run. In
      particular an applied rescore is idempotent. */
  lemma RescoreCanResume(es: seq<Rescored>, n: nat, store: map<string, Result>)
    requires n <= |es| && WellFormed(es)
    ensures var partly := Applied(es, n, store, store);
            Applied(es, |es|, partly, partly) == Applied(es, |es|, store, store)
  {
    var partly := Applied(es, n, store, store);
    var again, whole := Applied(es, |es|, partly, partly), Applied(es, |es|, store, store);
    forall id
      ensures id in again <==> id in whole
      ensures id in again ==> again[id] == whole[id]
    {
      AppliedAt(es, n, store, store, id);
      AppliedAt(es, |es|, partly, partly, id);
      AppliedAt(es, |es|, store, store, id);
      if LastReadable(es, n, id).Some? {
        StillReadable(es, n, |es|, id);
      }
    }
  }

  /** The record there is already is the one a rescore would write. */
  ghost predicate AlreadyStored(e: Rescored, store: map<string, Result>) {
    && e.after.Some? && e.id in store && e.after.value.id == e.id && store[e.id].scored
    && store[e.id] == WithMark(e.after.value, store)
  }

  lemma {:induction false} NothingToRescore(es: seq<Rescored>, n: nat, store: map<string, Result>)
    requires n <= |es| && forall k :: 0 <= k < |es| && es[k].after.Some? ==> AlreadyStored(es[k], store)
    ensures Applied(es, n, store, store) == store && Changed(es, n, store) == 0
  {
    if n > 0 {
      NothingToRescore(es, n - 1, store);
    }
  }

  lemma {:induction false} StillReadable(es: seq<Rescored>, n: nat, m: nat, id: string)
    requires n <= m <= |es| && LastReadable(es, n, id).Some?
    ensures LastReadable(es, m, id).Some?
    decreases m - n
  {
    if n < m {
      StillReadable(es, n, m - 1, id);
    }
  }
}
