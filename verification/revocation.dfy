/** The in-memory store of revoked sessions: entries are purged when they are asked about after
    their expiry. Times are nanoseconds. */
module Revocation {
  import opened Wrappers

  /** A call, and the instant it reads from the clock. */
  datatype Event = Revoke(jti: string, at: int, ttl: nat) | Ask(jti: string, at: int)

  function Expiry(at: int, ttl: nat): int {
    if ttl == 0 then at else at + ttl
  }

  // --- The full log ---

  /** Expiry of the latest revocation of `jti` in `log`. */
  function LatestExpiry(log: seq<Event>, jti: string): Option<int> {
    if log == [] then None
    else
      var e := log[|log| - 1];
      if e.Revoke? && e.jti == jti then Some(Expiry(e.at, e.ttl)) else LatestExpiry(log[..|log| - 1], jti)
  }

  /** Is `jti` revoked at `now`, by its latest revocation? */
  predicate Revoked(log: seq<Event>, jti: string, now: int) {
    var e := LatestExpiry(log, jti);
    e.Some? && now < e.value
  }

  // --- The purged map ---

  /** The stored map after a call. */
  function StoredIn(inner: map<string, int>, e: Event): map<string, int> {
    match e
    case Revoke(jti, at, ttl) => inner[jti := Expiry(at, ttl)]
    case Ask(jti, now) => if jti in inner && !(inner[jti] > now) then inner - {jti} else inner
  }

  /** The stored map after all calls of `log`. */
  function StoredAfter(log: seq<Event>): map<string, int> {
    if log == [] then map[] else StoredIn(StoredAfter(log[..|log| - 1]), log[|log| - 1])
  }

  predicate Live(inner: map<string, int>, jti: string, now: int) {
    jti in inner && inner[jti] > now
  }

  // --- What a purge hides ---

  /** Call `i` of the log asked about `jti` when its latest revocation had expired, and `jti` was
      not revoked again since. */
  ghost predicate PurgedBy(log: seq<Event>, jti: string, i: nat) {
    && i < |log| && log[i].Ask? && log[i].jti == jti
    && (var e := LatestExpiry(log[..i], jti); e.Some? && e.value <= log[i].at)
    && forall k | i < k < |log| :: !(log[k].Revoke? && log[k].jti == jti)
  }

  ghost predicate Purged(log: seq<Event>, jti: string) {
    exists i: nat :: PurgedBy(log, jti, i)
  }

  /** Only a revocation changes the latest expiry. */
  lemma {:induction false} ExpiryStays(log: seq<Event>, jti: string, i: nat)
    requires i <= |log|
    requires forall k | i <= k < |log| :: !(log[k].Revoke? && log[k].jti == jti)
    ensures LatestExpiry(log, jti) == LatestExpiry(log[..i], jti)
    decreases |log|
  {
    if i < |log| {
      var front := log[..|log| - 1];
      ExpiryStays(front, jti, i);
      assert front[..i] == log[..i];
    } else {
      assert log[..i] == log;
    }
  }

  /** One more call purges `jti` if it asks about it too late, keeps a purge unless it revokes. */
  lemma PurgedNext(log: seq<Event>, e: Event, jti: string)
    ensures Purged(log + [e], jti) <==>
            if e.jti != jti then Purged(log, jti)
            else e.Ask? && (Purged(log, jti) || (LatestExpiry(log, jti).Some? && LatestExpiry(log, jti).value <= e.at))
  {
    var more := log + [e];
    assert more[..|log|] == log;
    forall i: nat | i < |log| ensures more[..i] == log[..i] {
    }
    forall i: nat | PurgedBy(more, jti, i) ensures i == |log| || PurgedBy(log, jti, i) {
      assert i < |log| ==> forall k | i < k < |log| :: log[k] == more[k];
    }
    forall i: nat | PurgedBy(log, jti, i) && !(e.Revoke? && e.jti == jti) ensures PurgedBy(more, jti, i) {
    }
    if e.Ask? && e.jti == jti && LatestExpiry(log, jti).Some? && LatestExpiry(log, jti).value <= e.at {
      assert PurgedBy(more, jti, |log|);
    }
    assert e.Revoke? && e.jti == jti ==> forall i: nat :: !PurgedBy(more, jti, i) by {
      assert more[|log|] == e;
    }
  }

  /** What is stored for `jti` is its latest expiry, unless that was purged. */
  ghost predicate Faithful(inner: map<string, int>, log: seq<Event>, jti: string) {
    && (jti in inner <==> LatestExpiry(log, jti).Some? && !Purged(log, jti))
    && (jti in inner ==> inner[jti] == LatestExpiry(log, jti).value)
  }

  lemma {:induction false} StoredIsFaithful(log: seq<Event>, jti: string)
    ensures Faithful(StoredAfter(log), log, jti)
  {
    if log != [] {
      var front, e := log[..|log| - 1], log[|log| - 1];
      StoredIsFaithful(front, jti);
      assert log == front + [e];
      PurgedNext(front, e, jti);
    }
  }

  // --- Is a purge seen? ---

  /** Every ask of the log was answered as the full log before it would answer. */
  ghost predicate AnswersAgree(log: seq<Event>) {
    forall n | 0 <= n < |log| && log[n].Ask? :: AnswerAgrees(log[..n], log[n])
  }

  ghost predicate AnswerAgrees(before: seq<Event>, ask: Event)
    requires ask.Ask?
  {
    Live(StoredAfter(before), ask.jti, ask.at) == Revoked(before, ask.jti, ask.at)
  }

  /** Ask `i` came at or after the expiry of the latest revocation of its jti, and ask `n`, with
      no revocation between, read a clock before that expiry. */
  ghost predicate TooLateThenEarly(log: seq<Event>, i: nat, n: nat) {
    && i < n < |log| && log[n].Ask? && PurgedBy(log[..n], log[n].jti, i)
    && Revoked(log[..n], log[n].jti, log[n].at)
  }

  ghost predicate SomePurgeIsSeen(log: seq<Event>) {
    exists i: nat, n: nat :: TooLateThenEarly(log, i, n)
  }

  lemma PurgedHasExpiry(log: seq<Event>, jti: string, i: nat)
    requires PurgedBy(log, jti, i)
    ensures LatestExpiry(log, jti).Some? && LatestExpiry(log, jti).value <= log[i].at
  {
    ExpiryStays(log, jti, i);
  }

  /** One answer is wrong exactly when its jti was purged and the clock is before the expiry. */
  lemma AnswerAgreesIff(log: seq<Event>, ask: Event)
    requires ask.Ask?
    ensures AnswerAgrees(log, ask) <==> !(Purged(log, ask.jti) && Revoked(log, ask.jti, ask.at))
  {
    StoredIsFaithful(log, ask.jti);
  }

  /** An ask that sees a purge is answered wrongly, and its clock is behind that of an earlier
      ask. */
  lemma SeenPurge(log: seq<Event>, i: nat, n: nat)
    requires TooLateThenEarly(log, i, n)
    ensures !AnswerAgrees(log[..n], log[n])
    ensures log[i].Ask? && log[n].at < log[i].at
  {
    AnswerAgreesIff(log[..n], log[n]);
    PurgedHasExpiry(log[..n], log[n].jti, i);
    assert log[..n][i] == log[i];
  }

  /** Over any calls, on any clock: the purged map answers as the full log exactly when no ask
      that came at or after an expiry is followed, with no new revocation between, by an ask of
      the same jti before that expiry. */
  lemma PurgeIsUnseenIff(log: seq<Event>)
    ensures AnswersAgree(log) <==> !SomePurgeIsSeen(log)
  {
    hide PurgedBy;
    forall i: nat, n: nat | TooLateThenEarly(log, i, n) ensures !AnswerAgrees(log[..n], log[n]) {
      SeenPurge(log, i, n);
    }
    forall n | 0 <= n < |log| && log[n].Ask? && !AnswerAgrees(log[..n], log[n]) ensures SomePurgeIsSeen(log) {
      AnswerAgreesIff(log[..n], log[n]);
      var i: nat :| PurgedBy(log[..n], log[n].jti, i);
      PurgedIndex(log[..n], log[n].jti, i);
      assert TooLateThenEarly(log, i, n);
    }
  }

  lemma PurgedIndex(log: seq<Event>, jti: string, i: nat)
    requires PurgedBy(log, jti, i)
    ensures i < |log| && log[i].Ask?
  {
  }

  /** The clock the asks read does not go back. The instants that revocations read need not be in
      order. */
  ghost predicate AsksForward(log: seq<Event>) {
    forall i, j | 0 <= i < j < |log| && log[i].Ask? && log[j].Ask? :: log[i].at <= log[j].at
  }

  /** On a clock that does not go back, a purge is never seen: a session is answered as revoked
      exactly until the expiry of its latest revocation. */
  lemma PurgeIsUnseen(log: seq<Event>)
    requires AsksForward(log)
    ensures AnswersAgree(log)
  {
    hide PurgedBy;
    PurgeIsUnseenIff(log);
    forall i: nat, n: nat | TooLateThenEarly(log, i, n) ensures log[i].Ask? && log[n].at < log[i].at {
      SeenPurge(log, i, n);
    }
  }

  /** The answer to one more ask on such a clock. */
  lemma ForwardAnswer(log: seq<Event>, ask: Event)
    requires ask.Ask? && AsksForward(log + [ask])
    ensures !(Purged(log, ask.jti) && Revoked(log, ask.jti, ask.at))
  {
    var more := log + [ask];
    assert more[..|log|] == log && more[|log|] == ask;
    PurgeIsUnseen(more);
    AnswerAgreesIff(log, ask);
  }

  /** A revocation that no later one follows gives the latest expiry. */
  lemma LatestIs(log: seq<Event>, jti: string, i: nat)
    requires i < |log| && log[i].Revoke? && log[i].jti == jti
    requires forall k | i < k < |log| :: log[k].Revoke? ==> log[k].jti != jti
    ensures LatestExpiry(log, jti) == Some(log[i].at + log[i].ttl)
  {
    ExpiryStays(log, jti, i + 1);
    assert log[..i + 1][..i] == log[..i];
  }

  lemma {:induction false} SomeLatest(log: seq<Event>, jti: string) returns (i: nat)
    requires LatestExpiry(log, jti).Some?
    ensures i < |log| && log[i].Revoke? && log[i].jti == jti
    ensures forall k | i < k < |log| :: log[k].Revoke? ==> log[k].jti != jti
  {
    var n := |log| - 1;
    if log[n].Revoke? && log[n].jti == jti {
      i := n;
    } else {
      i := SomeLatest(log[..n], jti);
      assert forall k | i < k < n :: log[..n][k] == log[k];
    }
  }

  /** A session is revoked exactly while its latest revocation lasts. */
  lemma RevokedIff(log: seq<Event>, jti: string, now: int)
    ensures Revoked(log, jti, now) <==>
            exists i :: 0 <= i < |log| && log[i].Revoke? && log[i].jti == jti && now < log[i].at + log[i].ttl
                        && forall k | i < k < |log| :: log[k].Revoke? ==> log[k].jti != jti
  {
    hide LatestExpiry;
    if LatestExpiry(log, jti).Some? {
      var i := SomeLatest(log, jti);
      LatestIs(log, jti, i);
    }
    forall i | 0 <= i < |log| && log[i].Revoke? && log[i].jti == jti && now < log[i].at + log[i].ttl
               && forall k | i < k < |log| :: log[k].Revoke? ==> log[k].jti != jti
      ensures Revoked(log, jti, now)
    {
      LatestIs(log, jti, i);
    }
  }

  class InMemoryRevocationStore {
    var inner: map<string, int>
    ghost var log: seq<Event>

    ghost predicate Valid()
      reads this
    {
      inner == StoredAfter(log)
    }

    constructor ()
      ensures Valid() && log == []
    {
      inner, log := map[], [];
    }

    method Revoke(jti: string, ttl: nat, now: int)
      requires Valid()
      modifies this
      ensures Valid() && log == old(log) + [Event.Revoke(jti, now, ttl)]
      ensures jti in inner && inner[jti] == now + ttl && inner - {jti} == old(inner) - {jti}
    {
      var expiry := if ttl == 0 then now else now + ttl;
      inner := inner[jti := expiry];
      log := log + [Event.Revoke(jti, now, ttl)];
      assert log[..|log| - 1] == old(log);
    }

    /** Answers by the full log, unless a purge is seen. On a clock that does not go back it never
        is: then a session is revoked exactly while its latest revocation lasts. Nothing is removed
        but an expired entry of `jti`. */
    method IsRevoked(jti: string, now: int) returns (revoked: bool)
      requires Valid()
      modifies this
      ensures Valid() && log == old(log) + [Ask(jti, now)]
      ensures revoked <==> Revoked(old(log), jti, now) && !Purged(old(log), jti)
      ensures AsksForward(log) ==>
                (revoked <==>
                 exists i :: 0 <= i < |old(log)| && old(log)[i].Revoke? && old(log)[i].jti == jti && now < old(log)[i].at + old(log)[i].ttl
                             && forall k | i < k < |old(log)| :: old(log)[k].Revoke? ==> old(log)[k].jti != jti)
      ensures inner == if jti in old(inner) && !revoked then old(inner) - {jti} else old(inner)
    {
      hide Purged, LatestExpiry, AsksForward;
      StoredIsFaithful(log, jti);
      RevokedIff(log, jti, now);
      log := log + [Ask(jti, now)];
      assert log[..|log| - 1] == old(log);
      if jti in inner {
        var expiry := inner[jti];
        if expiry > now {
          revoked := true;
        } else {
          inner := inner - {jti};
          revoked := false;
        }
      } else {
        revoked := false;
      }
      if AsksForward(log) {
        ForwardAnswer(old(log), Ask(jti, now));
      }
    }
  }
}
