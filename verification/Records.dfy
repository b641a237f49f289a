/** The portal's three stores (archives, scores, submissions log) and the admin operations on them
    (portal/log.go, portal/delete.go, portal/score.go, scoring/store.go). */
module Records {
  import opened Streams
  import opened Scoring
  import opened Archive
  import Windowed

  datatype LogEntry = LogEntry(id: string, moniker: string, operator: string, filename: string,
                               submittedAt: int, sentryEnabled: bool, scan: Option<Windowed.Coverage>)

  datatype StoreState = StoreState(archives: map<string, Tar>, scores: map<string, Result>, log: seq<LogEntry>)

  /** The log without the entries of `id`, the others in order. */
  function Without(log: seq<LogEntry>, id: string): seq<LogEntry> {
    if log == [] then []
    else
      var last := log[|log| - 1];
      Without(log[..|log| - 1], id) + if last.id == id then [] else [last]
  }

  lemma {:induction false} WithoutMembers(log: seq<LogEntry>, id: string)
    ensures forall e :: e in Without(log, id) <==> e in log && e.id != id
  {
    if log != [] {
      WithoutMembers(log[..|log| - 1], id);
      assert log == log[..|log| - 1] + [log[|log| - 1]];
    }
  }

  /** `kept` is what `log` keeps without the entries of `id`: `at` says where each kept entry stood, in
      order, and whatever stood elsewhere was an entry of `id`. */
  ghost predicate KeepsOrder(log: seq<LogEntry>, kept: seq<LogEntry>, id: string, at: seq<nat>) {
    && |at| == |kept|
    && (forall k :: 0 <= k < |at| ==> at[k] < |log| && log[at[k]] == kept[k] && kept[k].id != id)
    && (forall j, k :: 0 <= j < k < |at| ==> at[j] < at[k])
    && (forall i {:trigger i in at} :: 0 <= i < |log| ==> (i in at <==> log[i].id != id))
  }

  lemma {:induction false} WithoutKeepsOrder(log: seq<LogEntry>, id: string) returns (at: seq<nat>)
    ensures KeepsOrder(log, Without(log, id), id, at)
  {
    at := [];
    if log != [] {
      var n := |log| - 1;
      var init := WithoutKeepsOrder(log[..n], id);
      at := init + if log[n].id == id then [] else [n];
      forall i | 0 <= i < |log|
        ensures i in at <==> log[i].id != id
      {
        assert i < n ==> log[..n][i] == log[i] && (i in init <==> log[i].id != id);
        assert n !in init;
      }
    }
  }

  ghost predicate Kept(log: seq<LogEntry>, kept: seq<LogEntry>, id: string) {
    exists at :: KeepsOrder(log, kept, id, at)
  }

  /** Every other entry, and in the same order. */
  lemma WithoutIsKept(log: seq<LogEntry>, id: string)
    ensures Kept(log, Without(log, id), id)
  {
    var at := WithoutKeepsOrder(log, id);
  }

  lemma WithoutOneMore(log: seq<LogEntry>, i: nat, id: string)
    requires i < |log|
    ensures Without(log[..i + 1], id) == Without(log[..i], id) + if log[i].id == id then [] else [log[i]]
    ensures log[..i + 1] == log[..i] + [log[i]]
  {
    assert log[..i + 1][..i] == log[..i];
  }

  /** The first entry of `id` from position `i` on. */
  function FirstFrom(log: seq<LogEntry>, i: nat, id: string): (e: Option<LogEntry>)
    requires i <= |log|
    ensures e.Some? ==> e.value in log && e.value.id == id
    ensures e.Some? ==>
      exists k :: i <= k < |log| && log[k] == e.value && forall j :: i <= j < k ==> log[j].id != id
    ensures e.None? ==> forall k :: i <= k < |log| ==> log[k].id != id
    decreases |log| - i
  {
    if i == |log| then None else if log[i].id == id then Some(log[i]) else FirstFrom(log, i + 1, id)
  }

  function FirstOf(log: seq<LogEntry>, id: string): Option<LogEntry> {
    FirstFrom(log, 0, id)
  }

  /** FileLog.Delete's pass over the entries. */
  method Filter(log: seq<LogEntry>, id: string) returns (remaining: seq<LogEntry>, found: bool)
    ensures remaining == Without(log, id) && (found <==> HasId(log, id)) && (!found ==> remaining == log)
  {
    remaining, found := [], false;
    var i := 0;
    while i < |log|
      invariant 0 <= i <= |log|
      invariant remaining == Without(log[..i], id)
      invariant found <==> HasId(log[..i], id)
      invariant !found ==> remaining == log[..i]
    {
      WithoutOneMore(log, i, id);
      if log[i].id == id {
        found := true;
      } else {
        remaining := remaining + [log[i]];
      }
      i := i + 1;
    }
    assert log[..i] == log;
  }

  // HTTP statuses the handlers answer with
  const OK := 200
  const NO_CONTENT := 204
  const BAD_REQUEST := 400
  const NOT_FOUND := 404
  const CONFLICT := 409
  const SERVER_ERROR := 500
  const BAD_GATEWAY := 502

  /** How a store operation goes: well, refused without effect, or reported as failed although it took
      effect, as a rewrite is when only the directory sync after its rename fails. */
  datatype Fault = Fine | Refused | Late

  datatype SaveFault = SaveFine | SaveRefused | SaveLeaves(part: Tar)

  class Stores {
    var archives: map<string, Tar>
    var scores: map<string, Result>
    var log: seq<LogEntry>

    ghost function S(): StoreState
      reads this
    {
      StoreState(archives, scores, log)
    }

    /** Exclusive create. A failed save may leave a broken file behind. */
    method SaveArchive(filename: string, t: Tar, f: SaveFault) returns (ok: bool)
      modifies this`archives
      ensures ok <==> filename !in old(archives) && f.SaveFine?
      ensures archives == if filename in old(archives) || f.SaveRefused? then old(archives)
                          else old(archives)[filename := if f.SaveFine? then t else f.part]
    {
      if filename in archives || f.SaveRefused? {
        return false;
      }
      archives := archives[filename := if f.SaveFine? then t else f.part];
      return f.SaveFine?;
    }

    method DeleteArchive(filename: string, f: Fault) returns (ok: bool)
      modifies this`archives
      ensures ok == f.Fine? && archives == if f.Refused? then old(archives) else old(archives) - {filename}
    {
      if !f.Refused? {
        archives := archives - {filename};
      }
      return f.Fine?;
    }

    method SetScore(r: Result, f: Fault) returns (ok: bool)
      modifies this`scores
      ensures ok == f.Fine? && scores == if f.Refused? then old(scores) else old(scores)[r.id := r]
    {
      if !f.Refused? {
        scores := scores[r.id := r];
      }
      return f.Fine?;
    }

    /** Store.Delete: without a record there is nothing to rewrite, and nothing to fail after reading. */
    method DeleteScore(id: string, f: Fault) returns (ok: bool)
      modifies this`scores
      ensures ok <==> f.Fine? || (f.Late? && id !in old(scores))
      ensures scores == if f.Refused? then old(scores) else old(scores) - {id}
    {
      if f.Refused? {
        return false;
      }
      if id !in scores {
        return true;
      }
      scores := scores - {id};
      return f.Fine?;
    }

    method Record(e: LogEntry, fault: bool) returns (ok: bool)
      modifies this`log
      ensures ok == !fault && log == if ok then old(log) + [e] else old(log)
    {
      if !fault {
        log := log + [e];
      }
      return !fault;
    }

    /** FileLog.Delete: rewrites the log only when it found something to leave out. */
    method DeleteEntry(id: string, f: Fault) returns (ok: bool)
      modifies this`log
      ensures ok <==> f.Fine? || (f.Late? && !HasId(old(log), id))
      ensures log == if f.Refused? then old(log) else Without(old(log), id)
    {
      if f.Refused? {
        return false;
      }
      var remaining, found := Filter(log, id);
      if !found {
        return true;
      }
      log := remaining;
      return f.Fine?;
    }

    /** The handlers' search for an entry. */
    method Lookup(id: string) returns (e: Option<LogEntry>)
      ensures e == FirstOf(log, id)
    {
      var i := 0;
      while i < |log|
        invariant 0 <= i <= |log| && FirstFrom(log, i, id) == FirstOf(log, id)
      {
        if log[i].id == id {
          return Some(log[i]);
        }
        i := i + 1;
      }
      return None;
    }

    /** AdminDeleteSubmissionHandler: archive, score, log entry, in that order, stopping at the first
        failure. */
    method AdminDelete(id: string, readable: bool, onArchive: Fault, onScore: Fault, onLog: Fault) returns (status: int)
      modifies this
      ensures DeleteAttempt(old(S()), S(), id, status)
      // the status tells the first thing that went wrong
      ensures status == if id == "" then 400
                        else if !readable then 500
                        else if !HasId(old(log), id) then 404
                        else if !onArchive.Fine? then 502
                        else if onScore.Refused? || (onScore.Late? && id in old(scores)) then 500
                        else if !onLog.Fine? then 500
                        else 204
      ensures onArchive.Refused? ==> S() == old(S())
    {
      NothingDone(S(), id, BAD_REQUEST);
      NothingDone(S(), id, SERVER_ERROR);
      if id == "" {
        return BAD_REQUEST;
      }
      if !readable {
        return SERVER_ERROR;
      }
      var found := Lookup(id);
      if found.None? {
        return NOT_FOUND;
      }
      var e := found.value;
      var ok := DeleteArchive(e.filename, onArchive);
      assert S() == Deleted(old(S()), e, 0) || S() == Deleted(old(S()), e, 1);
      if !ok {
        return BAD_GATEWAY;
      }
      ok := DeleteScore(id, onScore);
      assert S() == Deleted(old(S()), e, 1) || S() == Deleted(old(S()), e, 2);
      if !ok {
        return SERVER_ERROR;
      }
      ok := DeleteEntry(id, onLog);
      assert S() == Deleted(old(S()), e, 2) || S() == Deleted(old(S()), e, 3);
      if !ok {
        return SERVER_ERROR;
      }
      assert S() == Deleted(old(S()), e, 3);
      return NO_CONTENT;
    }

    /** AdminScoreHandler, after the body was decoded; None is a missing score. A mark is added to the
        automatic total and replaces the mark before it; nothing else changes. */
    method AdminScore(id: string, mark: Option<int>, readable: bool, scoresReadable: bool, f: Fault)
      returns (status: int)
      modifies this`scores
      ensures status == if id == "" || mark.None? || !(0 <= mark.value <= 25) then 400
                        else if !readable then 500
                        else if !HasId(log, id) then 404
                        else if !scoresReadable then 500
                        else if !(id in old(scores) && old(scores)[id].scored) then 409
                        else if !f.Fine? then 500
                        else 200
      ensures var written := && id != "" && mark.Some? && 0 <= mark.value <= 25 && readable && HasId(log, id)
                             && scoresReadable && id in old(scores) && old(scores)[id].scored && !f.Refused?;
              if !written then scores == old(scores)
              else
                && id in scores && scores == old(scores)[id := scores[id]]
                && scores[id].id == id && scores[id].incidentResponse == mark
                && scores[id].(id := old(scores)[id].id, incidentResponse := old(scores)[id].incidentResponse)
                     == old(scores)[id]
                && scores[id].TotalScore() == old(scores)[id].(incidentResponse := None).TotalScore() + mark.value
    {
      if id == "" || mark.None? || mark.value < 0 || mark.value > 25 {
        return BAD_REQUEST;
      }
      if !readable {
        return SERVER_ERROR;
      }
      var found := Lookup(id);
      if found.None? {
        return NOT_FOUND;
      }
      if !scoresReadable {
        return SERVER_ERROR;
      }
      if id !in scores || !scores[id].scored {
        return CONFLICT;
      }
      var ok := SetScore(scores[id].(id := id, incidentResponse := mark), f);
      return if ok then OK else SERVER_ERROR;
    }
  }

  // ---------- deletion ----------

  /** `s` with the first `stage` of the three deletions of `e` done. */
  function Deleted(s: StoreState, e: LogEntry, stage: nat): StoreState {
    StoreState(if stage >= 1 then s.archives - {e.filename} else s.archives,
          if stage >= 2 then s.scores - {e.id} else s.scores,
          if stage >= 3 then Without(s.log, e.id) else s.log)
  }

  ghost predicate DeleteAttempt(s: StoreState, s': StoreState, id: string, status: int) {
    match FirstOf(s.log, id)
    case None => s' == s && status != 204
    case Some(e) =>
      && status != 404
      && exists stage :: 0 <= stage <= 3 && s' == Deleted(s, e, stage) && (status == 204 ==> stage == 3)
  }

  lemma NothingDone(s: StoreState, id: string, status: int)
    requires status != 204 && status != 404
    ensures DeleteAttempt(s, s, id, status)
  {
    if FirstOf(s.log, id).Some? {
      assert s == Deleted(s, FirstOf(s.log, id).value, 0);
    }
  }

  ghost predicate DistinctIds(log: seq<LogEntry>) {
    forall i, j :: 0 <= i < j < |log| ==> log[i].id != log[j].id
  }

  /** Some entry was stored under this file name. */
  ghost predicate HasFile(log: seq<LogEntry>, filename: string) {
    exists e :: e in log && e.filename == filename
  }

  ghost predicate HasId(log: seq<LogEntry>, id: string) {
    exists e :: e in log && e.id == id
  }

  /** A delete stopped anywhere takes the log entry from no archive and from no score that it leaves
      behind. That includes stores in which others have none, as after a failed append. */
  lemma DeleteLeavesNoOrphans(s: StoreState, s': StoreState, id: string, status: int)
    requires DistinctIds(s.log) && DeleteAttempt(s, s', id, status)
    ensures forall f :: f in s'.archives && HasFile(s.log, f) ==> HasFile(s'.log, f)
    ensures forall i :: i in s'.scores && HasId(s.log, i) ==> HasId(s'.log, i)
  {
    if FirstOf(s.log, id).Some? {
      var e := FirstOf(s.log, id).value;
      var stage :| 0 <= stage <= 3 && s' == Deleted(s, e, stage);
      WithoutMembers(s.log, e.id);
      forall f | f in s'.archives && HasFile(s.log, f)
        ensures HasFile(s'.log, f)
      {
        var x :| x in s.log && x.filename == f;
        if stage == 3 && x.id == e.id {
          SameIdSameEntry(s.log, x, e);
        }
        assert x in s'.log;
      }
      forall i | i in s'.scores && HasId(s.log, i)
        ensures HasId(s'.log, i)
      {
        var x :| x in s.log && x.id == i;
        assert x in s'.log;
      }
    }
  }

  lemma SameIdSameEntry(log: seq<LogEntry>, x: LogEntry, y: LogEntry)
    requires DistinctIds(log) && x in log && y in log && x.id == y.id
    ensures x == y
  {
    var i :| 0 <= i < |log| && log[i] == x;
    var j :| 0 <= j < |log| && log[j] == y;
  }

  /** Doing the first `b` deletions after the first `a` is doing the first max(a, b). */
  lemma DeletedTwice(s: StoreState, e: LogEntry, a: nat, b: nat)
    requires a < 3
    ensures Deleted(Deleted(s, e, a), e, b) == Deleted(s, e, if a < b then b else a)
  {
    assert s.archives - {e.filename} - {e.filename} == s.archives - {e.filename};
    assert s.scores - {e.id} - {e.id} == s.scores - {e.id};
  }

  /** One more attempt, from a state in which `stage` deletions of `e` are done. */
  lemma OneMoreAttempt(s: StoreState, t: StoreState, t': StoreState, id: string, status: int, e: LogEntry, stage: nat)
    returns (stage': nat)
    requires FirstOf(s.log, id) == Some(e) && stage <= 3 && t == Deleted(s, e, stage)
      && DeleteAttempt(t, t', id, status)
    ensures stage' <= 3 && t' == Deleted(s, e, stage')
    ensures status == 204 || status == 404 ==> stage' == 3
  {
    if stage == 3 {
      WithoutMembers(s.log, e.id);
      assert FirstOf(t.log, id) == None;
      return 3;
    }
    assert t.log == s.log;
    var next :| 0 <= next <= 3 && t' == Deleted(t, e, next) && (status == 204 ==> next == 3);
    DeletedTwice(s, e, stage, next);
    stage' := if stage < next then next else stage;
  }

  /** Through any number of attempts the state is that of some stage of the deletions. */
  lemma {:induction false} RetriesOnlyDelete(ss: seq<StoreState>, statuses: seq<int>, n: nat, id: string, e: LogEntry)
    returns (stage: nat)
    requires n <= |statuses| && |ss| == |statuses| + 1 && FirstOf(ss[0].log, id) == Some(e)
    requires forall k :: 0 <= k < |statuses| ==> DeleteAttempt(ss[k], ss[k + 1], id, statuses[k])
    ensures stage <= 3 && ss[n] == Deleted(ss[0], e, stage)
    ensures n > 0 && (statuses[n - 1] == 204 || statuses[n - 1] == 404) ==> stage == 3
  {
    if n == 0 {
      return 0;
    }
    stage := RetriesOnlyDelete(ss, statuses, n - 1, id, e);
    assert DeleteAttempt(ss[n - 1], ss[n - 1 + 1], id, statuses[n - 1]);
    stage := OneMoreAttempt(ss[0], ss[n - 1], ss[n], id, statuses[n - 1], e, stage);
  }

  /** `s'` is `s` without the archive, the score and the entry of `e`, and with everything else: every
      other entry in order, every other score and archive. Another submission loses its archive exactly
      when it was stored under the same filename. */
  ghost predicate RemovesExactly(s: StoreState, s': StoreState, e: LogEntry) {
    && s'.archives == s.archives - {e.filename} && s'.scores == s.scores - {e.id}
    && Kept(s.log, s'.log, e.id)
    && (forall x :: x in s'.log && x.filename in s.archives ==>
          (x.filename in s'.archives <==> x.filename != e.filename))
  }

  lemma AllThreeDeleted(s: StoreState, e: LogEntry)
    ensures RemovesExactly(s, Deleted(s, e, 3), e)
  {
    WithoutIsKept(s.log, e.id);
  }

  /** Retrying a delete until it succeeds, or until the entry is no longer found, removes archive, score
      and entry, and nothing else. */
  lemma RetriedDeleteRemovesExactly(ss: seq<StoreState>, statuses: seq<int>, id: string, e: LogEntry)
    requires |ss| == |statuses| + 1 && |statuses| > 0 && FirstOf(ss[0].log, id) == Some(e)
    requires forall k :: 0 <= k < |statuses| ==> DeleteAttempt(ss[k], ss[k + 1], id, statuses[k])
    requires statuses[|statuses| - 1] == 204 || statuses[|statuses| - 1] == 404
    ensures e.id == id && RemovesExactly(ss[0], ss[|statuses|], e)
  {
    var stage := RetriesOnlyDelete(ss, statuses, |statuses|, id, e);
    AllThreeDeleted(ss[0], e);
  }
}
