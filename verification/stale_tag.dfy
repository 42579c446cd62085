/** The tag of a row that was deleted and created again: a stale precondition that the service
    accepts. */
module StaleTag {
  import opened AuthModel
  import opened CommitLog
  import opened Etag
  import opened Linearization
  import opened Preconditions
  import opened Protocol
  import opened Samples
  import opened SettingModel
  import opened SettingsRules
  import opened SettingsTable
  import opened StalePatch
  import opened Wrappers

  /** `answer` was given for commit `c` of the run, with the tag of version 1. */
  ghost predicate Told(s: State, c: nat, answer: SettingSnapshot)
    requires CommitsOwned(s)
  {
    && c < |s.log| && Committer(s, c).decided.Some?
    && AnswerOf(s, c) == Success(Some(answer)) && answer.version == 1
  }

  /** A client creates a row with `v1` and is told version 1; then the row is deleted and created
      again with `v2`, by others. */
  lemma Recreated(base: ClockBase, service: string, key: SettingKey, a: Authority, v1: SettingValue, v2: SettingValue, now: int)
    returns (s: State, c: nat, answer: SettingSnapshot)
    requires a.ScopeOwnership().user != Some("")
    ensures Reachable(s) && CommitsOwned(s) && s.base == base
    ensures Told(s, c, answer) && answer.value == v1
    ensures s.log[c].id == OwnedIdentity(key, a.ScopeOwnership())
    ensures s.table == Fresh(base, Put(key, a, v2, None, now), v2, now)
  {
    hide Execute, Reachable, AnswerOf;
    var op := Put(key, a, v1, None, now);
    var s0 := StartAt(base, service, map[]);
    var s1 := CreateAlone(s0, 0, op);
    OnNoRow(base, map[], op);
    assert Fresh(base, op, v1, now) == Fresh(base, Delete(key, a, 1), v1, now);
    s := DeleteAndCreate(s1, key, a, v1, v2, now);
    ReachableOwned(s);
    c := CommitOfSuccess(s, 0);
    answer := s.requests[0].phase.outcome.value.value;
  }

  lemma ReachableOwned(s: State)
    requires Reachable(s)
    ensures CommitsOwned(s)
  {
    ReachableInv(s);
  }

  /** The commit of a request that was told of success. */
  lemma CommitOfSuccess(s: State, r: nat) returns (c: nat)
    requires Reachable(s) && CommitsOwned(s) && r in s.requests
    requires s.requests[r].phase.Finished? && s.requests[r].phase.outcome.Success?
    ensures c < |s.log| && s.log[c].req == r && s.log[c].id == s.requests[r].op.Id()
    ensures Committer(s, c).decided.Some? && AnswerOf(s, c) == s.requests[r].phase.outcome
  {
    hide Inv, AnswerOf;
    ReachableInv(s);
    c := SuccessIsCommit(s, r);
    CommitFacts(s, c);
  }

  /** Whatever the values, any request with the tag of the first row is accepted on the second. */
  lemma StaleTagAccepted(base: ClockBase, service: string, key: SettingKey, a: Authority, v1: SettingValue, v2: SettingValue, now: int, op: Op)
    returns (s: State, c: nat, answer: SettingSnapshot)
    requires a.ScopeOwnership().user != Some("")
    requires op.Id() == OwnedIdentity(key, a.ScopeOwnership()) && op.Target().user != Some("") && Carries(op, EtagOf(1))
    ensures Reachable(s) && CommitsOwned(s) && s.base == base && Told(s, c, answer) && answer.value == v1 && answer.version == 1
    ensures s.log[c].id == op.Id() && op.Id() in s.table && s.table[op.Id()].value == v2 && s.table[op.Id()].version == 1
    ensures Execute(base, s.table, op).0 == Accepted(base, op, v2, 1)
    ensures v1 != v2 ==> !Untouched(s.log, op.Id(), c + 1, |s.log|)
  {
    hide Execute, Reachable, Accepted, EtagOf, IfMatch;
    s, c, answer := Recreated(base, service, key, a, v1, v2, now);
    FreshFacts(base, Put(key, a, v2, None, now), v2, now);
    TagOnRow(base, s.table, op, 1);
    EchoedTag(s, c, answer, op);
  }

  /** A stale PUT at an input: a client that was told `{}` at tag "1" overwrites `{"b":true}`,
      which it has never seen, and is answered with success. */
  lemma StalePut() returns (s: State, c: nat, answer: SettingSnapshot, op: Op)
    ensures Reachable(s) && CommitsOwned(s) && Told(s, c, answer) && answer.value == Empty()
    ensures op.Put? && op.ifMatch == IfMatch(Some(EtagOf(answer.version))) && op.Id() == s.log[c].id
    ensures op.Id() in s.table && s.table[op.Id()].value == Flag()
    ensures !Untouched(s.log, op.Id(), c + 1, |s.log|)
    ensures var after := Execute(s.base, s.table, op);
            after.0.Success? && op.Id() in after.1 && after.1[op.Id()].value == Empty()
  {
    hide EtagOf, IfMatch, Reachable, ValidKey, Empty, Flag, Accepted, Told, Fresh;
    OneCharKey('k');
    FlagIsNotEmpty();
    var a := SampleAuthority();
    op := Put(['k'], a, Empty(), IfMatch(Some(EtagOf(1))), 0);
    s, c, answer := StaleTagAccepted(ClockBase(0, 0), "svc", ['k'], a, Empty(), Flag(), 0, op);
    EtagRoundTrip(1);
    PutAccepted(s, op);
  }

  /** A stale DELETE at an input: the same client removes the new row. */
  lemma StaleDelete() returns (s: State, c: nat, answer: SettingSnapshot, op: Op)
    ensures Reachable(s) && CommitsOwned(s) && Told(s, c, answer) && answer.value == Empty()
    ensures op.Delete? && Some(op.expected) == IfMatch(Some(EtagOf(answer.version))) && op.Id() == s.log[c].id
    ensures op.Id() in s.table && s.table[op.Id()].value == Flag()
    ensures !Untouched(s.log, op.Id(), c + 1, |s.log|)
    ensures Execute(s.base, s.table, op) == (Success(None), s.table - {op.Id()})
  {
    hide EtagOf, IfMatch, Reachable, ValidKey, Empty, Flag, Accepted, Told, Fresh;
    OneCharKey('k');
    FlagIsNotEmpty();
    var a := SampleAuthority();
    EtagRoundTrip(1);
    op := Delete(['k'], a, 1);
    s, c, answer := StaleTagAccepted(ClockBase(0, 0), "svc", ['k'], a, Empty(), Flag(), 0, op);
    DeleteAccepted(s, op);
  }

  lemma PutAccepted(s: State, op: Op)
    requires Reachable(s) && op.Put? && op.Id() in s.table && op.Target().user != Some("")
    requires op.ifMatch == Some(1) && s.table[op.Id()].version == 1
    ensures var after := Execute(s.base, s.table, op);
            after.0.Success? && op.Id() in after.1 && after.1[op.Id()].value == op.value
  {
    hide Execute, Reachable;
    ReachableTableOk(s);
    PutOnRow(s.base, s.table, op);
  }

  lemma DeleteAccepted(s: State, op: Op)
    requires Reachable(s) && op.Delete? && op.Id() in s.table && op.Target().user != Some("")
    requires op.expected == 1 && s.table[op.Id()].version == 1
    ensures Execute(s.base, s.table, op) == (Success(None), s.table - {op.Id()})
  {
    hide Execute, Reachable;
    ReachableTableOk(s);
    DeleteOnRow(s.base, s.table, op);
  }
}
