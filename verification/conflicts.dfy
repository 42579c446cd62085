/** Who is to blame for a refused write, and how many of the competing writes win. */
module Conflicts {
  import opened CommitLog
  import opened Linearization
  import opened Protocol
  import opened SettingModel
  import opened SettingsRules
  import opened SettingsTable
  import opened Wrappers

  // --- Blame ---

  /** The moment a request decided. */
  lemma DecidedThen(s: State, r: nat)
    requires Inv(s) && r in s.requests && s.requests[r].decided.Some?
    ensures var q := s.requests[r];
            && q.foundAt <= |s.log|
            && TableOk(At(s.init, s.log, q.foundAt))
            && DecideTable(s.base, At(s.init, s.log, q.foundAt), q.op) == Success(q.decided.value)
  {
    assert RequestOk(s.base, s.init, s.log, r, s.requests[r]);
    TablesOk(s.init, s.log, s.requests[r].foundAt);
  }

  /** The moment a conditional write matched nothing. */
  lemma LostThen(s: State, r: nat)
    requires Inv(s) && r in s.requests && s.requests[r].attempt.Lost?
    ensures var q := s.requests[r];
            && q.decided.Some? && q.foundAt <= q.attempt.at <= |s.log|
            && TableOk(At(s.init, s.log, q.attempt.at))
            && Statement(s.base, At(s.init, s.log, q.attempt.at), q.decided.value).Missed?
  {
    assert RequestOk(s.base, s.init, s.log, r, s.requests[r]);
    TablesOk(s.init, s.log, s.requests[r].attempt.at);
  }

  lemma CreateMissed(base: ClockBase, t0: Table, t: Table, op: Op, plan: Plan)
    requires TableOk(t0) && op.Target().user != Some("") && plan.Insert?
    requires DecideTable(base, t0, op) == Success(plan)
    requires Statement(base, t, plan).Missed?
    ensures op.Id() !in t0 && op.Id() in t
  {
    InsertDecided(base, t0, op, plan);
    OwnedFacts(base, t0, op);
    assert InsertStmt(base, t, plan.next).Missed?;
  }

  lemma ChangeMissed(base: ClockBase, t0: Table, t: Table, op: Op, plan: Plan)
    requires TableOk(t0) && !plan.Insert?
    requires DecideTable(base, t0, op) == Success(plan)
    requires Statement(base, t, plan).Missed?
    ensures op.Id() in t0 && (op.Id() in t ==> t[op.Id()] != t0[op.Id()])
  {
    WriteDecided(base, t0, op, plan);
    assert AsI32(plan.expected) == plan.expected;
    if plan.Update? {
      assert UpdateStmt(base, t, plan.next, plan.expected).Missed?;
    } else {
      assert DeleteStmt(t, plan.key, plan.owner, plan.expected).Missed?;
    }
  }

  /** A conditional write that matched nothing lost to another request, which committed to the
      same row between this request's find and its write. */
  lemma LostToAnother(s: State, r: nat) returns (c: nat)
    requires Reachable(s) && r in s.requests && s.requests[r].attempt.Lost?
    requires s.requests[r].op.Target().user != Some("")
    ensures var q := s.requests[r];
            && q.foundAt <= c < q.attempt.at <= |s.log|
            && s.log[c].id == q.op.Id() && s.log[c].req != r
  {
    ReachableInv(s);
    var q := s.requests[r];
    LostThen(s, r);
    DecidedThen(s, r);
    if q.decided.value.Insert? {
      CreateMissed(s.base, At(s.init, s.log, q.foundAt), At(s.init, s.log, q.attempt.at), q.op, q.decided.value);
    } else {
      ChangeMissed(s.base, At(s.init, s.log, q.foundAt), At(s.init, s.log, q.attempt.at), q.op, q.decided.value);
    }
    if Untouched(s.log, q.op.Id(), q.foundAt, q.attempt.at) {
      RowFrame(s.init, s.log, q.op.Id(), q.foundAt, q.attempt.at);
    }
    c := FirstTouch(s.log, q.op.Id(), q.foundAt, q.attempt.at);
  }

  /** A create refused as a conflict lost to another create. */
  lemma ConflictMeansInserted(s: State, r: nat) returns (c: nat)
    requires Reachable(s) && r in s.requests && s.requests[r].attempt.Lost?
    requires s.requests[r].op.Target().user != Some("")
    requires s.requests[r].phase == Finished(Failure(Conflict))
    ensures var q := s.requests[r];
            && q.foundAt <= c < q.attempt.at <= |s.log| && s.log[c].req != r
            && s.log[c].id == q.op.Id() && q.op.Id() !in At(s.init, s.log, c)
  {
    hide Inv, DecideTable, Statement;
    ReachableInv(s);
    var q := s.requests[r];
    LostThen(s, r);
    DecidedThen(s, r);
    RefusedThen(s, r);
    CreateMissed(s.base, At(s.init, s.log, q.foundAt), At(s.init, s.log, q.attempt.at), q.op, q.decided.value);
    c := Appeared(s.init, s.log, q.op.Id(), q.foundAt, q.attempt.at);
    NotAWinner(s, r, c);
  }

  /** How a request that had decided on a plan can end in a given error. */
  lemma RefusedThen(s: State, r: nat)
    requires Inv(s) && r in s.requests && s.requests[r].decided.Some?
    requires s.requests[r].phase.Finished? && s.requests[r].phase.outcome.Failure?
    requires s.requests[r].phase.outcome.error != Unavailable && s.requests[r].phase.outcome.error != Internal
    ensures var q, e := s.requests[r], s.requests[r].phase.outcome.error;
            && q.attempt.Lost?
            && (q.decided.value.Insert? ==> e == Conflict)
            && (!q.decided.value.Insert? ==>
                  && q.attempt.at <= q.checkedAt <= |s.log|
                  && e == MissError(q.decided.value, StillExists(At(s.init, s.log, q.checkedAt), q.decided.value)))
  {
    assert RequestOk(s.base, s.init, s.log, r, s.requests[r]);
  }

  /** The row a plan asks about after a miss is the row of its request. */
  lemma StillExistsIsRow(base: ClockBase, t0: Table, t: Table, op: Op, plan: Plan)
    requires TableOk(t0) && !plan.Insert?
    requires DecideTable(base, t0, op) == Success(plan)
    ensures op.Id() in t0 && (StillExists(t, plan) <==> op.Id() in t)
  {
    WriteDecided(base, t0, op, plan);
    if plan.Update? {
      assert OwnedIdentity(plan.next.key, plan.next.ownership) == op.Id();
    } else {
      assert OwnedIdentity(plan.key, plan.owner) == op.Id();
    }
  }

  /** A request that passed its checks and then ends in not-found had its row deleted. */
  lemma NotFoundMeansDeleted(s: State, r: nat) returns (c: nat)
    requires Reachable(s) && r in s.requests && s.requests[r].decided.Some?
    requires s.requests[r].phase == Finished(Failure(NotFound))
    ensures var q := s.requests[r];
            && q.foundAt <= c < q.checkedAt <= |s.log|
            && s.log[c].id == q.op.Id() && s.log[c].effect.Deleted?
  {
    ReachableInv(s);
    var q := s.requests[r];
    RefusedThen(s, r);
    LostThen(s, r);
    DecidedThen(s, r);
    StillExistsIsRow(s.base, At(s.init, s.log, q.foundAt), At(s.init, s.log, q.checkedAt), q.op, q.decided.value);
    c := Disappeared(s.init, s.log, q.op.Id(), q.foundAt, q.checkedAt);
  }

  /** The version the service compares with always fits the column: the cast of the expected
      version never changes it. */
  lemma CastLossless(base: ClockBase, t: Table, op: Op, plan: Plan)
    requires TableOk(t) && DecideTable(base, t, op) == Success(plan) && !plan.Insert?
    ensures AsI32(plan.expected) == plan.expected
  {
    WriteDecided(base, t, op, plan);
  }

  // --- Winners ---

  /** The request was not stopped by a database failure. */
  ghost predicate Served(q: Request) {
    && q.phase.Finished?
    && (q.phase.outcome.Failure? ==> q.phase.outcome.error != Unavailable && q.phase.outcome.error != Internal)
  }

  /** Request `r` saw no row and decided to create it. */
  ghost predicate SawNone(s: State, id: Identity, r: nat) {
    && r in s.requests && s.requests[r].op.Id() == id
    && s.requests[r].decided.Some? && s.requests[r].decided.value.Insert?
  }

  /** Request `r` passed the check of its precondition at version `v` of the row. */
  ghost predicate SawVersion(s: State, id: Identity, v: nat, r: nat) {
    && r in s.requests && s.requests[r].op.Id() == id
    && s.requests[r].decided.Some? && !s.requests[r].decided.value.Insert?
    && s.requests[r].decided.value.expected == v
  }

  /** Exactly one of the requests of `who` succeeded; every other was answered with `error`. */
  ghost predicate ExactlyOneWins(s: State, who: set<nat>, error: SettingsError) {
    exists w :: w in who && OnlyWinner(s, who, w, error)
  }

  ghost predicate OnlyWinner(s: State, who: set<nat>, w: nat, error: SettingsError) {
    forall r | r in who ::
      && r in s.requests && s.requests[r].phase.Finished?
      && (if r == w then s.requests[r].phase.outcome.Success? else s.requests[r].phase.outcome == Failure(error))
  }

  /** A served request that had decided on a plan either committed or was refused. */
  lemma ServedCases(s: State, r: nat)
    requires Inv(s) && r in s.requests && Served(s.requests[r]) && s.requests[r].decided.Some?
    ensures var q := s.requests[r];
            if q.phase.outcome.Success? then
              q.attempt.Won? && q.attempt.at < |s.log| && s.log[q.attempt.at].req == r && s.log[q.attempt.at].id == q.op.Id()
            else q.attempt.Lost?
  {
    var q := s.requests[r];
    if q.phase.outcome.Success? {
      assert RequestOk(s.base, s.init, s.log, r, q);
      CommitFacts(s, q.attempt.at);
    } else {
      RefusedThen(s, r);
    }
  }

  /** Commit `c` creates the row. */
  ghost predicate Birth(s: State, id: Identity, lo: nat, c: nat) {
    lo <= c < |s.log| && s.log[c].id == id && id !in At(s.init, s.log, c)
  }

  /** A request that found no row before `lo` created it after: a row of the same identity was
      created and deleted again in between. */
  ghost predicate StaleCreator(s: State, id: Identity, lo: nat, w: nat) {
    SawNone(s, id, w) && s.requests[w].foundAt < lo && s.requests[w].attempt.Won? && lo <= s.requests[w].attempt.at
  }

  ghost predicate SomeStaleCreator(s: State, id: Identity, lo: nat) {
    exists w: nat :: StaleCreator(s, id, lo, w)
  }

  /** A request that saw no row created it, and of the requests of `who` it alone succeeded; every
      other was told of a conflict. */
  ghost predicate CreatedRow(s: State, id: Identity, lo: nat, who: set<nat>, w: nat) {
    && SawNone(s, id, w) && s.requests[w].attempt.Won? && Birth(s, id, lo, s.requests[w].attempt.at)
    && OnlyWinner(s, who, w, Conflict)
  }

  /** Of the requests that saw no row since `lo`, in a run that does not delete it from then on,
      at most one wins and every other is told of a conflict. Exactly one of them does, unless a
      request that saw no row earlier takes it from them. */
  lemma OneCreateWins(s: State, id: Identity, lo: nat, who: set<nat>) returns (w: nat)
    requires Reachable(s) && lo <= |s.log| && NoDelete(s.log, id, lo, |s.log|)
    requires who != {} && forall r | r in s.requests :: r in who <==> SawNone(s, id, r) && lo <= s.requests[r].foundAt
    requires forall r | r in who :: r in s.requests && Served(s.requests[r]) && s.requests[r].op.Target().user != Some("")
    ensures CreatedRow(s, id, lo, who, w)
    ensures ExactlyOneWins(s, who, Conflict) <==> !SomeStaleCreator(s, id, lo)
  {
    hide Inv, Reachable, Served;
    ReachableInv(s);
    var r0 :| r0 in who;
    assert SawNone(s, id, r0);
    var birth := RowWasCreated(s, id, lo, r0);
    w := s.log[birth].req;
    BirthIsCreate(s, id, birth);
    forall r | r in who
      ensures r in s.requests && s.requests[r].phase.Finished?
      ensures if r == w then s.requests[r].phase.outcome.Success? else s.requests[r].phase.outcome == Failure(Conflict)
    {
      ServedIsFinished(s.requests[r]);
      CreateOutcome(s, id, lo, birth, r);
    }
    forall x: nat | StaleCreator(s, id, lo, x) ensures x == w {
      CreatorIsFirst(s, id, lo, birth, x);
    }
    if w in who {
      assert OnlyWinner(s, who, w, Conflict);
    } else {
      assert StaleCreator(s, id, lo, w);
    }
  }

  /** The row that a served request saw missing was created after, by it or by another. */
  lemma RowWasCreated(s: State, id: Identity, lo: nat, r: nat) returns (c: nat)
    requires Reachable(s) && SawNone(s, id, r) && Served(s.requests[r]) && lo <= s.requests[r].foundAt
    requires s.requests[r].op.Target().user != Some("")
    ensures Birth(s, id, lo, c)
  {
    ReachableInv(s);
    ServedCases(s, r);
    if s.requests[r].attempt.Won? {
      c := s.requests[r].attempt.at;
      CreateWasFirst(s, r);
      CommitFacts(s, c);
    } else {
      RefusedThen(s, r);
      c := ConflictMeansInserted(s, r);
    }
  }

  /** Only one request creates the row. */
  lemma CreatorIsFirst(s: State, id: Identity, lo: nat, birth: nat, x: nat)
    requires Inv(s) && lo <= |s.log| && NoDelete(s.log, id, lo, |s.log|) && Birth(s, id, lo, birth)
    requires SawNone(s, id, x) && s.requests[x].attempt.Won? && lo <= s.requests[x].attempt.at
    ensures x == s.log[birth].req
  {
    CreateWasFirst(s, x);
    InvLogOk(s);
    OneBirth(s.init, s.log, id, lo, birth, s.requests[x].attempt.at);
  }

  /** How a request that saw no row ends, when the row was created by commit `birth`. */
  lemma CreateOutcome(s: State, id: Identity, lo: nat, birth: nat, r: nat)
    requires Inv(s) && lo <= |s.log| && NoDelete(s.log, id, lo, |s.log|) && Birth(s, id, lo, birth)
    requires SawNone(s, id, r) && Served(s.requests[r]) && lo <= s.requests[r].foundAt
    ensures if r == s.log[birth].req then s.requests[r].phase.outcome.Success?
            else s.requests[r].phase.outcome == Failure(Conflict)
  {
    ServedCases(s, r);
    if s.requests[r].phase.outcome.Success? {
      CreateWasFirst(s, r);
      CommitFacts(s, s.requests[r].attempt.at);
      CreatorIsFirst(s, id, lo, birth, r);
    } else {
      RefusedThen(s, r);
      NotAWinner(s, r, birth);
    }
  }

  lemma CreateWasFirst(s: State, r: nat)
    requires Inv(s) && r in s.requests && s.requests[r].attempt.Won?
    requires s.requests[r].decided.Some? && s.requests[r].decided.value.Insert?
    ensures var c := s.requests[r].attempt.at;
            c < |s.log| && s.log[c].req == r && s.log[c].id == s.requests[r].op.Id() && s.log[c].id !in At(s.init, s.log, c)
  {
    var q := s.requests[r];
    assert RequestOk(s.base, s.init, s.log, r, q);
    var c := q.attempt.at;
    CommitFacts(s, c);
    InsertMatched(s.base, At(s.init, s.log, q.foundAt), At(s.init, s.log, c), q.op, q.decided.value);
  }

  lemma BirthIsCreate(s: State, id: Identity, c: nat)
    requires Inv(s) && c < |s.log| && s.log[c].id == id && id !in At(s.init, s.log, c)
    ensures s.log[c].req in s.requests && SawNone(s, id, s.log[c].req)
    ensures s.requests[s.log[c].req].attempt == Won(c)
  {
    CommitFacts(s, c);
    var q := Committer(s, c);
    if !q.decided.value.Insert? {
      RowMatched(s.base, At(s.init, s.log, q.foundAt), At(s.init, s.log, c), q.op, q.decided.value);
    }
  }

  /** A request that found version `v` before `lo` committed on it after: its row was deleted and
      created again in between, and had come to version `v` again. */
  ghost predicate StaleWinner(s: State, id: Identity, v: nat, lo: nat, w: nat) {
    SawVersion(s, id, v, w) && s.requests[w].foundAt < lo && s.requests[w].attempt.Won? && lo <= s.requests[w].attempt.at
  }

  ghost predicate SomeStaleWinner(s: State, id: Identity, v: nat, lo: nat) {
    exists w: nat :: StaleWinner(s, id, v, lo, w)
  }

  /** A request took the row from version `v` to the next, and of the requests of `who` it alone
      succeeded; every other was answered with a version conflict. */
  ghost predicate TookVersion(s: State, id: Identity, v: nat, lo: nat, who: set<nat>, w: nat) {
    && SawVersion(s, id, v, w) && s.requests[w].attempt.Won? && Bump(s, id, v, lo, s.requests[w].attempt.at)
    && OnlyWinner(s, who, w, VersionConflict)
  }

  /** Of the requests that passed the check at version `v` since `lo`, in a run that does not
      delete the row from then on, at most one wins and every other is told of the version
      conflict. Exactly one of them does, unless a request that found the same version of an
      earlier row takes it from them. */
  lemma OneUpdateWins(s: State, id: Identity, v: nat, lo: nat, who: set<nat>) returns (w: nat)
    requires Reachable(s) && lo <= |s.log| && NoDelete(s.log, id, lo, |s.log|)
    requires who != {} && forall r | r in s.requests :: r in who <==> SawVersion(s, id, v, r) && lo <= s.requests[r].foundAt
    requires forall r | r in who :: r in s.requests && Served(s.requests[r])
    ensures TookVersion(s, id, v, lo, who, w)
    ensures ExactlyOneWins(s, who, VersionConflict) <==> !SomeStaleWinner(s, id, v, lo)
  {
    hide Inv, Reachable, Served;
    ReachableInv(s);
    var r0 :| r0 in who;
    assert SawVersion(s, id, v, r0);
    var bump := VersionWasTaken(s, id, v, lo, r0);
    w := s.log[bump].req;
    UpdateOutcome(s, id, v, lo, bump, r0);
    BumpIsUpdate(s, id, v, bump);
    forall r | r in who
      ensures r in s.requests && s.requests[r].phase.Finished?
      ensures if r == w then s.requests[r].phase.outcome.Success? else s.requests[r].phase.outcome == Failure(VersionConflict)
    {
      ServedIsFinished(s.requests[r]);
      UpdateOutcome(s, id, v, lo, bump, r);
    }
    forall x: nat | StaleWinner(s, id, v, lo, x) ensures x == w {
      StaleWinnerTook(s, id, v, lo, bump, x);
    }
    if w in who {
      assert OnlyWinner(s, who, w, VersionConflict);
    } else {
      assert StaleWinner(s, id, v, lo, w);
    }
  }

  lemma ServedIsFinished(q: Request)
    requires Served(q)
    ensures q.phase.Finished?
  {
  }

  /** Only one request takes a version. */
  lemma StaleWinnerTook(s: State, id: Identity, v: nat, lo: nat, bump: nat, x: nat)
    requires Inv(s) && lo <= |s.log| && NoDelete(s.log, id, lo, |s.log|) && Bump(s, id, v, lo, bump)
    requires StaleWinner(s, id, v, lo, x)
    ensures x == s.log[bump].req
  {
    WinnerBumps(s, id, v, lo, x);
    InvLogOk(s);
    OneBump(s.init, s.log, id, lo, bump, s.requests[x].attempt.at);
  }

  lemma InvLogOk(s: State)
    requires Inv(s)
    ensures LogOk(s.init, s.log)
  {
  }

  /** A request that found version `v` and committed took the row to the next version. */
  lemma WinnerBumps(s: State, id: Identity, v: nat, lo: nat, r: nat)
    requires Inv(s) && lo <= |s.log| && NoDelete(s.log, id, lo, |s.log|)
    requires SawVersion(s, id, v, r) && s.requests[r].attempt.Won? && lo <= s.requests[r].attempt.at
    ensures Bump(s, id, v, lo, s.requests[r].attempt.at) && s.log[s.requests[r].attempt.at].req == r
  {
    var q := s.requests[r];
    var c := q.attempt.at;
    assert RequestOk(s.base, s.init, s.log, r, q);
    WonIsOwn(s.base, s.init, s.log, r, q);
    CommitFacts(s, c);
    assert Committer(s, c) == q;
    RowMatched(s.base, At(s.init, s.log, q.foundAt), At(s.init, s.log, c), q.op, q.decided.value);
    assert CommitOkAt(s.init, s.log, c);
  }

  /** How a request that saw version `v` ends, when commit `bump` took that version. */
  lemma UpdateOutcome(s: State, id: Identity, v: nat, lo: nat, bump: nat, r: nat)
    requires Inv(s) && lo <= |s.log| && NoDelete(s.log, id, lo, |s.log|) && Bump(s, id, v, lo, bump)
    requires SawVersion(s, id, v, r) && Served(s.requests[r]) && lo <= s.requests[r].foundAt
    ensures 1 <= v
    ensures if r == s.log[bump].req then s.requests[r].phase.outcome.Success?
            else s.requests[r].phase.outcome == Failure(VersionConflict)
  {
    DecidedThen(s, r);
    WriteDecided(s.base, At(s.init, s.log, s.requests[r].foundAt), s.requests[r].op, s.requests[r].decided.value);
    if s.requests[r].phase.outcome.Success? {
      var c := VersionWasTaken(s, id, v, lo, r);
      OneBump(s.init, s.log, id, lo, bump, c);
    } else {
      StaleIsConflict(s, id, v, lo, r);
      NotAWinner(s, r, bump);
    }
  }

  lemma NotAWinner(s: State, r: nat, c: nat)
    requires Inv(s) && r in s.requests && s.requests[r].phase.Finished? && s.requests[r].phase.outcome.Failure?
    requires c < |s.log|
    ensures s.log[c].req != r
  {
    assert RequestOk(s.base, s.init, s.log, r, s.requests[r]);
  }

  /** Commit `c` takes the row from version `v` to the next. */
  ghost predicate Bump(s: State, id: Identity, v: nat, lo: nat, c: nat) {
    lo <= c < |s.log| && s.log[c].id == id && s.log[c].effect.Upserted? && s.log[c].effect.row.version == v + 1
  }

  lemma VersionWasTaken(s: State, id: Identity, v: nat, lo: nat, r: nat) returns (c: nat)
    requires Inv(s) && SawVersion(s, id, v, r) && Served(s.requests[r])
    requires lo <= s.requests[r].foundAt && lo <= |s.log| && NoDelete(s.log, id, lo, |s.log|)
    ensures Bump(s, id, v, lo, c)
    ensures s.requests[r].phase.outcome.Success? ==> s.log[c].req == r
  {
    var q := s.requests[r];
    ServedCases(s, r);
    DecidedThen(s, r);
    WriteDecided(s.base, At(s.init, s.log, q.foundAt), q.op, q.decided.value);
    if q.phase.outcome.Success? {
      c := q.attempt.at;
      CommitFacts(s, c);
      assert Committer(s, c) == q;
      RowMatched(s.base, At(s.init, s.log, q.foundAt), At(s.init, s.log, c), q.op, q.decided.value);
    } else {
      LostThen(s, r);
      ChangeMissed(s.base, At(s.init, s.log, q.foundAt), At(s.init, s.log, q.attempt.at), q.op, q.decided.value);
      if Untouched(s.log, id, q.foundAt, q.attempt.at) {
        RowFrame(s.init, s.log, id, q.foundAt, q.attempt.at);
      }
      c := FirstTouch(s.log, id, q.foundAt, q.attempt.at);
      RowFrame(s.init, s.log, id, q.foundAt, c);
    }
    assert CommitOkAt(s.init, s.log, c);
  }

  lemma BumpIsUpdate(s: State, id: Identity, v: nat, c: nat)
    requires Inv(s) && Bump(s, id, v, 0, c) && 1 <= v
    ensures s.log[c].req in s.requests && SawVersion(s, id, v, s.log[c].req)
    ensures s.requests[s.log[c].req].attempt == Won(c)
  {
    CommitFacts(s, c);
    var q := Committer(s, c);
    assert CommitOkAt(s.init, s.log, c);
    if q.decided.value.Insert? {
      InsertMatched(s.base, At(s.init, s.log, q.foundAt), At(s.init, s.log, c), q.op, q.decided.value);
    } else {
      RowMatched(s.base, At(s.init, s.log, q.foundAt), At(s.init, s.log, c), q.op, q.decided.value);
    }
  }

  lemma StaleIsConflict(s: State, id: Identity, v: nat, lo: nat, r: nat)
    requires Inv(s) && SawVersion(s, id, v, r) && Served(s.requests[r]) && s.requests[r].phase.outcome.Failure?
    requires lo <= s.requests[r].foundAt && lo <= |s.log| && NoDelete(s.log, id, lo, |s.log|)
    ensures s.requests[r].phase.outcome == Failure(VersionConflict)
  {
    var q := s.requests[r];
    RefusedThen(s, r);
    LostThen(s, r);
    DecidedThen(s, r);
    StillExistsIsRow(s.base, At(s.init, s.log, q.foundAt), At(s.init, s.log, q.checkedAt), q.op, q.decided.value);
    VersionsCount(s.init, s.log, id, q.foundAt, q.checkedAt);
  }
}
