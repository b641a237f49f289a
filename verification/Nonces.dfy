/** Single-use challenge nonces (auth/challenge.go). One store serves the validator and the admin
    endpoint, so a history mixes the calls of both. Times are nanoseconds. */
module Nonces {
  import opened Streams

  const NONCE_TTL := 300_000_000_000    // five minutes

  datatype Issue = Issue(operator: string, expiresAt: int)

  /** A call on the store or, through it, on the verifier. `keyOk`: the operator's public key was
      found and the signature over the challenge transaction checks out. */
  datatype NonceEvent =
    | Issued(nonce: string, operator: string, now: int)
    | Tried(nonce: string, operator: string, now: int, keyOk: bool)

  function Step(entries: map<string, Issue>, e: NonceEvent): map<string, Issue> {
    match e
    case Issued(nonce, operator, now) => entries[nonce := Issue(operator, now + NONCE_TTL)]
    case Tried(nonce, _, _, _) => entries - {nonce}
  }

  function After(history: seq<NonceEvent>): map<string, Issue> {
    if history == [] then map[] else Step(After(history[..|history| - 1]), history[|history| - 1])
  }

  class NonceStore {
    var entries: map<string, Issue>
    ghost var history: seq<NonceEvent>

    ghost predicate Valid()
      reads this
    {
      entries == After(history)
    }

    constructor ()
      ensures Valid() && history == []
    {
      entries, history := map[], [];
    }

    /** `nonce` is what the random source returned. */
    method IssueNonce(nonce: string, operator: string, now: int)
      requires Valid()
      modifies this
      ensures Valid() && history == old(history) + [Issued(nonce, operator, now)]
    {
      entries := entries[nonce := Issue(operator, now + NONCE_TTL)];
      history := history + [Issued(nonce, operator, now)];
      assert history[..|history| - 1] == old(history);
    }

    method Consume(operator: string, nonce: string, now: int) returns (ok: bool)
      modifies this`entries
      ensures entries == old(entries) - {nonce}
      ensures ok <==>
        && nonce in old(entries) && now <= old(entries)[nonce].expiresAt
        && old(entries)[nonce].operator == operator
    {
      if nonce !in entries {
        return false;
      }
      var entry := entries[nonce];
      entries := entries - {nonce};
      if now > entry.expiresAt {
        return false;
      }
      return entry.operator == operator;
    }

    /** VerifyChallenge: the nonce is consumed before anything else is looked at. */
    method VerifyChallenge(operator: string, nonce: string, now: int, keyOk: bool) returns (ok: bool)
      requires Valid()
      modifies this
      ensures Valid() && history == old(history) + [Tried(nonce, operator, now, keyOk)]
      ensures ok <==> Succeeds(history, |history| - 1)
    {
      history := history + [Tried(nonce, operator, now, keyOk)];
      assert history[..|history| - 1] == old(history);
      var current := Consume(operator, nonce, now);
      if !current {
        return false;
      }
      return keyOk;
    }
  }

  /** The k-th call is a verification that succeeds. */
  predicate Succeeds(history: seq<NonceEvent>, k: nat)
    requires k < |history|
  {
    var e, entries := history[k], After(history[..k]);
    && e.Tried? && e.nonce in entries && e.now <= entries[e.nonce].expiresAt
    && entries[e.nonce].operator == e.operator && e.keyOk
  }

  // ---------- read off the history ----------

  /** The last call before the n-th that named this nonce. */
  function LastAbout(history: seq<NonceEvent>, n: nat, nonce: string): Option<nat>
    requires n <= |history|
  {
    if n == 0 then None
    else if history[n - 1].nonce == nonce then Some(n - 1)
    else LastAbout(history, n - 1, nonce)
  }

  lemma {:induction false} StoreHoldsUntriedNonces(history: seq<NonceEvent>, n: nat, nonce: string)
    requires n <= |history|
    ensures var entries, last := After(history[..n]), LastAbout(history, n, nonce);
            && (last.Some? ==> last.value < n && history[last.value].nonce == nonce
                               && forall m :: last.value < m < n ==> history[m].nonce != nonce)
            && (last.None? ==> forall m :: 0 <= m < n ==> history[m].nonce != nonce)
            && (nonce in entries <==> last.Some? && history[last.value].Issued?)
            && (nonce in entries ==>
                  var e := history[last.value]; entries[nonce] == Issue(e.operator, e.now + NONCE_TTL))
  {
    if n > 0 {
      StoreHoldsUntriedNonces(history, n - 1, nonce);
      assert history[..n][..n - 1] == history[..n - 1];
    }
  }

  /** A verification succeeds exactly when the last thing that happened to its nonce was being issued
      to the same operator, no longer than five minutes ago, and the signature is right. Any try,
      whatever its outcome, burns the nonce. */
  lemma SucceedsExactly(history: seq<NonceEvent>, k: nat)
    requires k < |history|
    ensures Succeeds(history, k) <==>
      var e := history[k];
      && e.Tried? && e.keyOk
      && exists m :: 0 <= m < k && history[m].Issued? && history[m].nonce == e.nonce
                     && history[m].operator == e.operator && e.now <= history[m].now + 300_000_000_000
                     && forall j :: m < j < k ==> history[j].nonce != e.nonce
  {
    StoreHoldsUntriedNonces(history, k, history[k].nonce);
  }

  /** No nonce was issued twice. */
  ghost predicate FreshNonces(history: seq<NonceEvent>) {
    forall i, j :: 0 <= i < j < |history| && history[i].Issued? && history[j].Issued? ==>
      history[i].nonce != history[j].nonce
  }

  /** With fresh nonces any try made with an issued nonce, failed or not, is the last that can succeed. */
  lemma TryBurnsNonce(history: seq<NonceEvent>, i: nat, j: nat)
    requires FreshNonces(history) && i < j < |history| && history[i].Tried? && history[i].nonce == history[j].nonce
    requires exists m :: 0 <= m < i && history[m].Issued? && history[m].nonce == history[i].nonce
    ensures !Succeeds(history, j)
  {
    SucceedsExactly(history, j);
  }

  /** In every run with fresh nonces at most one verification per nonce succeeds, across both endpoints. */
  lemma SucceedsAtMostOnce(history: seq<NonceEvent>, i: nat, j: nat)
    requires FreshNonces(history) && i < j < |history| && history[i].nonce == history[j].nonce
    requires Succeeds(history, i)
    ensures !Succeeds(history, j)
  {
    SucceedsExactly(history, i);
    TryBurnsNonce(history, i, j);
  }
}
