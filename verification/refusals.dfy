/** Requests that the service refuses: which refusals are what the request, run alone at some
    moment between its first look at the table and its last, would have been answered. */
module Refusals {
  import opened CommitLog
  import opened Conflicts
  import opened Linearization
  import opened Preconditions
  import opened Protocol
  import opened SettingModel
  import opened SettingsRules
  import opened SettingsTable
  import opened StalePatch
  import opened Wrappers

  /** The service, and not a database failure, refused the request. */
  ghost predicate Refused(q: Request) {
    && q.phase.Finished? && q.phase.outcome.Failure?
    && (q.attempt.Overflow? || (q.phase.outcome.error != Unavailable && q.phase.outcome.error != Internal))
  }

  /** The length of the log when the request last looked at the table. */
  function LastLook(q: Request): nat {
    match q.attempt
    case NotTried => q.foundAt
    case Won(at) => at
    case Overflow(at) => at
    case Lost(at) => if q.decided.Some? && q.decided.value.Insert? then at else q.checkedAt
  }

  /** Run alone after `m` commits, the request would have been answered as it was. */
  ghost predicate AnsweredAt(s: State, q: Request, m: nat)
    requires q.phase.Finished?
  {
    q.foundAt <= m <= LastLook(q) && m <= |s.log| && Execute(s.base, At(s.init, s.log, m), q.op).0 == q.phase.outcome
  }

  ghost predicate IsSequential(s: State, q: Request)
    requires q.phase.Finished?
  {
    exists m: nat :: AnsweredAt(s, q, m)
  }

  /** After `m` commits, while the request was looking, its row was there at another version than
      it expected. */
  ghost predicate OtherVersionAt(s: State, q: Request, m: nat) {
    && q.foundAt <= m <= LastLook(q) && m <= |s.log| && q.decided.Some? && !q.decided.value.Insert?
    && q.op.Id() in At(s.init, s.log, m) && At(s.init, s.log, m)[q.op.Id()].version != q.decided.value.expected
  }

  ghost predicate SawOtherVersion(s: State, q: Request) {
    exists m: nat :: OtherVersionAt(s, q, m)
  }

  /** After `m` commits, while the request was looking, nobody of the tenant had the key. */
  ghost predicate NobodyAt(s: State, q: Request, m: nat) {
    && q.foundAt <= m <= LastLook(q) && m <= |s.log|
    && !AnyRow(At(s.init, s.log, m), q.op.authority.tenant, q.op.key)
  }

  ghost predicate SawNobody(s: State, q: Request) {
    exists m: nat :: NobodyAt(s, q, m)
  }

  // --- When the sequential specification gives an error ---

  /** The operation carries `expected` as its version. */
  ghost predicate Expects(op: Op, expected: U64) {
    match op
    case Put(_, _, _, ifMatch, _) => ifMatch == Some(expected)
    case Patch(_, _, _, e, _) => e == expected
    case Delete(_, _, e) => e == expected
  }

  /** Every error that the sequential specification gives to an operation that expects a
      version, and when. A conflict is never one of them. */
  lemma ErrorsOf(base: ClockBase, t: Table, op: Op, expected: U64)
    requires TableOk(t) && op.Target().user != Some("") && Expects(op, expected)
    ensures Execute(base, t, op).0 == Failure(VersionConflict) <==> op.Id() in t && t[op.Id()].version != expected
    ensures Execute(base, t, op).0 == Failure(NotFound) <==> !op.Put? && !AnyRow(t, op.authority.tenant, op.key)
  {
    hide Execute;
    if op.Id() in t {
      match op
      case Put(_, _, _, _, _) => PutOnRow(base, t, op);
      case Patch(_, _, _, _, _) => PatchOnRow(base, t, op);
      case Delete(_, _, _) => DeleteOnRow(base, t, op);
    } else {
      OnNoRow(base, t, op);
    }
  }

  lemma NeverConflict(base: ClockBase, t: Table, op: Op)
    requires TableOk(t) && op.Target().user != Some("")
    ensures Execute(base, t, op).0 != Failure(Conflict)
  {
    hide Execute;
    if op.Id() in t {
      match op
      case Put(_, _, _, _, _) => PutOnRow(base, t, op);
      case Patch(_, _, _, _, _) => PatchOnRow(base, t, op);
      case Delete(_, _, _) => DeleteOnRow(base, t, op);
    } else {
      OnNoRow(base, t, op);
    }
  }

  /** An update that overflows now would have overflowed when it was decided. */
  lemma OverflowsAtOnce(base: ClockBase, t0: Table, t: Table, op: Op, plan: Plan)
    requires TableOk(t0) && TableOk(t) && DecideTable(base, t0, op) == Success(plan)
    requires Statement(base, t, plan).Overflowed?
    ensures Execute(base, t0, op) == (Failure(Internal), t0)
  {
    hide DecideTable, IntoDomain;
    if !plan.Insert? {
      WriteDecided(base, t0, op, plan);
      CastIsLowBits(plan.expected);
      OverflowAgain(base, t0, t, plan, op.Id());
      assert Execute(base, t0, op) == Carry(base, t0, plan);
    }
  }

  lemma OverflowAgain(base: ClockBase, t0: Table, t: Table, plan: Plan, id: Identity)
    requires !plan.Insert? && Statement(base, t, plan).Overflowed? && AsI32(plan.expected) == plan.expected <= MAX_I32
    requires plan.Update? ==> OwnedIdentity(plan.next.key, plan.next.ownership) == id
    requires id in t0 && t0[id].version == plan.expected
    ensures Statement(base, t0, plan).Overflowed?
  {
    hide AsI32, ClockBase.ToMillis;
  }

  // --- Refusals ---

  /** What a request that decided expects. */
  lemma DecidedExpects(base: ClockBase, t: Table, op: Op, plan: Plan)
    requires TableOk(t) && DecideTable(base, t, op) == Success(plan) && !plan.Insert?
    ensures Expects(op, plan.expected)
  {
    hide DecideTable;
    WriteDecided(base, t, op, plan);
  }

  /** A request refused when it looked for its row was answered for that moment. */
  lemma RefusedAtFind(s: State, r: nat)
    requires Inv(s) && r in s.requests && Refused(s.requests[r]) && s.requests[r].decided.None?
    ensures AnsweredAt(s, s.requests[r], s.requests[r].foundAt)
  {
    hide DecideTable, AnyRow;
    RefusalFacts(s.base, s.init, s.log, r, s.requests[r]);
  }

  /** What the invariant says of a refused request. */
  lemma RefusalFacts(base: ClockBase, init: Table, log: seq<Commit>, r: nat, q: Request)
    requires RequestOk(base, init, log, r, q) && Refused(q)
    ensures q.foundAt <= LastLook(q) <= |log|
    ensures q.decided.None? ==> q.attempt.NotTried? && DecideTable(base, At(init, log, q.foundAt), q.op) == Failure(q.phase.outcome.error)
    ensures q.decided.Some? ==> q.attempt.Lost? || q.attempt.Overflow?
    ensures q.attempt.Overflow? ==> q.decided.Some? && q.phase.outcome.error == Internal
  {
    hide DecideTable, Statement, StillExists, Replay, Answer;
  }

  /** A request whose write overflowed was answered for the moment of its find. */
  lemma RefusedByOverflow(s: State, r: nat)
    requires Inv(s) && r in s.requests && Refused(s.requests[r]) && s.requests[r].attempt.Overflow?
    ensures AnsweredAt(s, s.requests[r], s.requests[r].foundAt)
  {
    hide DecideTable, Execute, Statement;
    var q := s.requests[r];
    RefusalFacts(s.base, s.init, s.log, r, q);
    DecidedThen(s, r);
    TablesOk(s.init, s.log, q.attempt.at);
    OverflowThen(s, r);
    OverflowsAtOnce(s.base, At(s.init, s.log, q.foundAt), At(s.init, s.log, q.attempt.at), q.op, q.decided.value);
  }

  lemma OverflowThen(s: State, r: nat)
    requires Inv(s) && r in s.requests && s.requests[r].attempt.Overflow?
    ensures var q := s.requests[r];
            && q.decided.Some? && q.attempt.at <= |s.log|
            && Statement(s.base, At(s.init, s.log, q.attempt.at), q.decided.value).Overflowed?
  {
    hide Statement, DecideTable, Replay;
    assert RequestOk(s.base, s.init, s.log, r, s.requests[r]);
  }

  /** A create that lost is told of a conflict, which no request run alone is ever told. */
  lemma ConflictIsNotSequential(s: State, r: nat)
    requires Inv(s) && r in s.requests && Refused(s.requests[r])
    requires s.requests[r].phase.outcome == Failure(Conflict) && s.requests[r].op.Target().user != Some("")
    ensures !IsSequential(s, s.requests[r])
  {
    hide Execute;
    var q := s.requests[r];
    forall m: nat | m <= |s.log| ensures Execute(s.base, At(s.init, s.log, m), q.op).0 != Failure(Conflict) {
      TablesOk(s.init, s.log, m);
      NeverConflict(s.base, At(s.init, s.log, m), q.op);
    }
  }

  /** A change that lost, for its version or because the row was gone. */
  lemma LostChangeIff(s: State, r: nat)
    requires Inv(s) && r in s.requests && Refused(s.requests[r]) && s.requests[r].attempt.Lost?
    requires s.requests[r].decided.Some? && !s.requests[r].decided.value.Insert?
    requires s.requests[r].op.Target().user != Some("")
    ensures var q := s.requests[r];
            if q.phase.outcome == Failure(VersionConflict) then IsSequential(s, q) <==> SawOtherVersion(s, q)
            else q.phase.outcome == Failure(NotFound) && (IsSequential(s, q) <==> !q.op.Put? && SawNobody(s, q))
  {
    hide Inv, Execute, DecideTable, Statement, StillExists, AnyRow, Expects;
    var q := s.requests[r];
    InvLogOk(s);
    RefusedThen(s, r);
    DecidedThen(s, r);
    DecidedExpects(s.base, At(s.init, s.log, q.foundAt), q.op, q.decided.value);
    InitTableOk(s);
    forall m: nat | m <= |s.log|
      ensures Execute(s.base, At(s.init, s.log, m), q.op).0 == Failure(VersionConflict) <==>
              q.op.Id() in At(s.init, s.log, m) && At(s.init, s.log, m)[q.op.Id()].version != q.decided.value.expected
      ensures Execute(s.base, At(s.init, s.log, m), q.op).0 == Failure(NotFound) <==>
              !q.op.Put? && !AnyRow(At(s.init, s.log, m), q.op.authority.tenant, q.op.key)
    {
      TablesOk(s.init, s.log, m);
      ErrorsOf(s.base, At(s.init, s.log, m), q.op, q.decided.value.expected);
    }
    forall m: nat | OtherVersionAt(s, q, m) && q.phase.outcome == Failure(VersionConflict) ensures AnsweredAt(s, q, m) {
    }
    forall m: nat | NobodyAt(s, q, m) && !q.op.Put? && q.phase.outcome == Failure(NotFound) ensures AnsweredAt(s, q, m) {
    }
    forall m: nat | AnsweredAt(s, q, m)
      ensures if q.phase.outcome == Failure(VersionConflict) then OtherVersionAt(s, q, m) else !q.op.Put? && NobodyAt(s, q, m)
    {
    }
  }

  lemma InitTableOk(s: State)
    requires Inv(s)
    ensures TableOk(s.init)
  {
  }

  /** Which refusals are sequential answers at some moment of the request: all that are decided at
      the find, and overflows; of those decided by a lost write, no conflict of a create, a
      version conflict exactly when the row was at some moment there at another version, and a
      not-found exactly when nobody of the tenant had the key at some moment, and never for a
      put. */
  lemma RefusalIsSequentialIff(s: State, r: nat)
    requires Reachable(s) && r in s.requests && Refused(s.requests[r]) && s.requests[r].op.Target().user != Some("")
    ensures var q := s.requests[r];
            IsSequential(s, q) <==>
            if q.decided.None? || q.attempt.Overflow? then true
            else if q.decided.value.Insert? then false
            else if q.phase.outcome == Failure(VersionConflict) then SawOtherVersion(s, q)
            else !q.op.Put? && SawNobody(s, q)
  {
    hide Inv, Execute, DecideTable, AnsweredAt, SawOtherVersion, SawNobody;
    ReachableInv(s);
    var q := s.requests[r];
    RefusalCases(s, r);
    if q.decided.None? {
      RefusedAtFind(s, r);
    } else if q.attempt.Overflow? {
      RefusedByOverflow(s, r);
    } else if q.decided.value.Insert? {
      ConflictIsNotSequential(s, r);
    } else {
      LostChangeIff(s, r);
    }
  }

  lemma RefusalCases(s: State, r: nat)
    requires Inv(s) && r in s.requests && Refused(s.requests[r])
    ensures var q := s.requests[r];
            && (q.decided.Some? ==> q.attempt.Lost? || q.attempt.Overflow?)
            && (q.decided.Some? && q.decided.value.Insert? && q.attempt.Lost? ==> q.phase.outcome == Failure(Conflict))
  {
    hide DecideTable, Statement, StillExists, Replay, Answer;
    assert RequestOk(s.base, s.init, s.log, r, s.requests[r]);
    RefusalFacts(s.base, s.init, s.log, r, s.requests[r]);
  }

  /** A row that is not deleted and not the same any more is at another version. */
  lemma VersionMoved(init: Table, log: seq<Commit>, id: Identity, lo: nat, hi: nat)
    requires LogOk(init, log) && lo <= hi <= |log| && NoDelete(log, id, lo, hi)
    requires id in At(init, log, lo) && (id in At(init, log, hi) ==> At(init, log, hi)[id] != At(init, log, lo)[id])
    ensures id in At(init, log, hi) && At(init, log, hi)[id].version != At(init, log, lo)[id].version
  {
    hide LogOk, Replay;
    VersionsCount(init, log, id, lo, hi);
    if At(init, log, hi)[id].version == At(init, log, lo)[id].version {
      SameVersionSameRow(init, log, id, lo, hi);
    }
  }

  lemma LostSeesOther(s: State, r: nat)
    requires Inv(s) && r in s.requests && Refused(s.requests[r])
    requires s.requests[r].phase.outcome == Failure(VersionConflict) && s.requests[r].decided.Some?
    requires LastLook(s.requests[r]) <= |s.log| ==>
               NoDelete(s.log, s.requests[r].op.Id(), s.requests[r].foundAt, LastLook(s.requests[r]))
    ensures !s.requests[r].decided.value.Insert? && !s.requests[r].attempt.Overflow?
    ensures OtherVersionAt(s, s.requests[r], s.requests[r].attempt.at)
  {
    hide Inv, Execute, DecideTable, Statement, StillExists, Replay, LogOk;
    InvLogOk(s);
    var q := s.requests[r];
    RefusedThen(s, r);
    LostThen(s, r);
    DecidedThen(s, r);
    var t0, t := At(s.init, s.log, q.foundAt), At(s.init, s.log, q.attempt.at);
    WriteDecided(s.base, t0, q.op, q.decided.value);
    ChangeMissed(s.base, t0, t, q.op, q.decided.value);
    VersionMoved(s.init, s.log, q.op.Id(), q.foundAt, q.attempt.at);
  }

  /** A version conflict is a sequential answer whenever nobody deletes the row while the request
      is looking. */
  lemma ConflictIsSequential(s: State, r: nat)
    requires Reachable(s) && r in s.requests && Refused(s.requests[r]) && s.requests[r].op.Target().user != Some("")
    requires s.requests[r].phase.outcome == Failure(VersionConflict) && s.requests[r].decided.Some?
    requires LastLook(s.requests[r]) <= |s.log| ==>
               NoDelete(s.log, s.requests[r].op.Id(), s.requests[r].foundAt, LastLook(s.requests[r]))
    ensures IsSequential(s, s.requests[r])
  {
    hide Inv, NoDelete, SawNobody, IsSequential, LastLook, Reachable, Replay;
    ReachableInv(s);
    LostSeesOther(s, r);
    assert SawOtherVersion(s, s.requests[r]);
    RefusalIsSequentialIff(s, r);
  }

  /** A refusal that is not sequential, for every put: it sees no row, another put creates the row,
      and it is told of a conflict. */
  lemma LostCreate(base: ClockBase, service: string, op: Op) returns (s: State)
    requires op.Put? && op.Target().user != Some("")
    ensures Reachable(s) && 0 in s.requests && s.requests[0].op == op
    ensures s.requests[0].phase == Finished(Failure(Conflict)) && !IsSequential(s, s.requests[0])
  {
    hide Reachable, Execute, IsSequential, Inv;
    var plan := Insert(SettingSnapshot(op.key, op.value, op.Target(), 1, op.now));
    assert DecideTable(base, map[], op) == Success(plan);
    var s0 := StartAt(base, service, map[]);
    assert IsFindOrder(map[], op.authority.tenant, op.key, []);
    var s1 := BeginAndFind(s0, 0, op, []);
    var s2 := CreateAlone(s1, 1, op);
    assert Statement(base, s2.table, plan).Missed?;
    s := MissAndCheck(s2, 0, plan);
    ReachableInv(s);
    ConflictIsNotSequential(s, 0);
  }
}
