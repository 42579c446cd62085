/** Concurrent requests over one shared table. Each SQL statement is one atomic step; the steps
    of any number of requests interleave arbitrarily. */
module Protocol {
  import opened Notification
  import opened SettingModel
  import opened SettingsRules
  import opened SettingsTable
  import opened Wrappers

  // --- The commit log ---

  datatype Effect = Upserted(row: Row) | Deleted(row: Row)

  /** One write that took effect, and the request that made it. */
  datatype Commit = Commit(req: nat, id: Identity, effect: Effect)

  function Applied(t: Table, c: Commit): Table {
    match c.effect
    case Upserted(row) => t[c.id := row]
    case Deleted(_) => t - {c.id}
  }

  /** The table after the commits of `log`. */
  function Replay(t: Table, log: seq<Commit>): Table {
    if log == [] then t else Applied(Replay(t, log[..|log| - 1]), log[|log| - 1])
  }

  /** The table just before commit `i`; for `i == |log|`, after all of them. */
  function At(init: Table, log: seq<Commit>, i: nat): Table
    requires i <= |log|
  {
    Replay(init, log[..i])
  }

  // --- Requests ---

  /** Where a request stands. `Writing` and `Checking` carry the conditional write decided on. */
  datatype Phase =
    | Finding
    | Writing(plan: Plan)
    | Checking(plan: Plan)
    | Notifying(answer: Option<SettingSnapshot>)
    | Finished(outcome: Outcome)

  /** How the conditional write went, with the length of the log at that moment. */
  datatype Attempt = NotTried | Lost(at: nat) | Overflow(at: nat) | Won(at: nat)

  /** A request: its phase, and for the proofs a history that no step reads. */
  datatype Request = Request(op: Op, phase: Phase, decided: Option<Plan>, foundAt: nat, attempt: Attempt, checkedAt: nat)

  datatype Notice = Notice(req: nat, change: ConfigChange)

  datatype State = State(
    base: ClockBase, service: string, init: Table,
    table: Table, requests: map<nat, Request>, log: seq<Commit>, sent: seq<Notice>)

  // --- Steps ---

  /** `Find` carries the order in which the find statement listed the rows; `Fail` is the
      database being unavailable, or another database error, at the next statement. */
  datatype Action =
    | Begin(r: nat, op: Op)
    | Find(r: nat, ids: seq<Identity>)
    | Write(r: nat)
    | Check(r: nat)
    | Notify(r: nat)
    | Fail(r: nat, error: SettingsError)

  ghost predicate Enabled(s: State, a: Action) {
    if a.Begin? then a.r !in s.requests
    else
      && a.r in s.requests
      && var q := s.requests[a.r];
         match a
         case Find(_, ids) => q.phase.Finding? && IsFindOrder(s.table, q.op.authority.tenant, q.op.key, ids)
         case Write(_) => q.phase.Writing?
         case Check(_) => q.phase.Checking?
         case Notify(_) => q.phase.Notifying?
         case Fail(_, e) => (q.phase.Finding? || q.phase.Writing? || q.phase.Checking?) && (e == Unavailable || e == Internal)
  }

  function Found(s: State, q: Request, decision: Result<Plan, SettingsError>): Request {
    match decision
    case Success(plan) => q.(phase := Writing(plan), decided := Some(plan), foundAt := |s.log|)
    case Failure(e) => q.(phase := Finished(Failure(e)), foundAt := |s.log|)
  }

  function CommitOf(r: nat, plan: Plan, row: Row): Commit {
    Commit(r, IdentityOf(row), if plan.Remove? then Deleted(row) else Upserted(row))
  }

  function Written(s: State, r: nat, q: Request, plan: Plan): State {
    match Statement(s.base, s.table, plan)
    case Wrote(row, t') =>
      var phase := match Answer(s.base, plan, row)
                   case Success(answer) => Notifying(answer)
                   case Failure(e) => Finished(Failure(e));
      s.(table := t', log := s.log + [CommitOf(r, plan, row)],
         requests := s.requests[r := q.(phase := phase, attempt := Won(|s.log|))])
    case Missed =>
      var phase := if plan.Insert? then Finished(Failure(Conflict)) else Checking(plan);
      s.(requests := s.requests[r := q.(phase := phase, attempt := Lost(|s.log|))])
    case Overflowed =>
      s.(requests := s.requests[r := q.(phase := Finished(Failure(Internal)), attempt := Overflow(|s.log|))])
  }

  ghost function Next(s: State, a: Action): State
    requires Enabled(s, a)
  {
    match a
    case Begin(r, op) => s.(requests := s.requests[r := Request(op, Finding, None, 0, NotTried, 0)])
    case Find(r, ids) =>
      var q := s.requests[r];
      s.(requests := s.requests[r := Found(s, q, Decide(q.op, DecodeAll(s.base, RowsOf(s.table, ids))))])
    case Write(r) => Written(s, r, s.requests[r], s.requests[r].phase.plan)
    case Check(r) =>
      var q := s.requests[r];
      var error := MissError(q.phase.plan, StillExists(s.table, q.phase.plan));
      s.(requests := s.requests[r := q.(phase := Finished(Failure(error)), checkedAt := |s.log|)])
    case Notify(r) =>
      var q := s.requests[r];
      s.(sent := s.sent + [Notice(r, ChangeFor(s.service, q.op, q.phase.answer))],
         requests := s.requests[r := q.(phase := Finished(Success(q.phase.answer)))])
    case Fail(r, e) =>
      s.(requests := s.requests[r := s.requests[r].(phase := Finished(Failure(e)))])
  }

  ghost predicate Initial(s: State) {
    TableOk(s.init) && s.table == s.init && s.requests == map[] && s.log == [] && s.sent == []
  }

  /** The steps `acts` lead from `s` to `s'`. */
  ghost predicate Steps(s: State, acts: seq<Action>, s': State)
    decreases |acts|
  {
    if acts == [] then s == s'
    else Enabled(s, acts[0]) && Steps(Next(s, acts[0]), acts[1..], s')
  }

  // --- What every run keeps ---

  /** Each commit is legal where it stands: a new row starts at version 1, a changed row is one
      version up, and only a present row is deleted. */
  ghost predicate CommitOk(t: Table, c: Commit) {
    match c.effect
    case Upserted(row) =>
      && IdentityOf(row) == c.id && RowOk(row)
      && row.version == (if c.id in t then t[c.id].version + 1 else 1)
    case Deleted(row) => c.id in t && t[c.id] == row
  }

  ghost predicate CommitOkAt(init: Table, log: seq<Commit>, i: nat) {
    i < |log| && CommitOk(At(init, log, i), log[i])
  }

  ghost predicate LogOk(init: Table, log: seq<Commit>) {
    forall i | 0 <= i < |log| :: CommitOkAt(init, log, i)
  }

  /** What the history of a request says about the log. */
  ghost predicate HistoryOk(base: ClockBase, init: Table, log: seq<Commit>, r: nat, q: Request) {
    && (q.decided.Some? ==>
          q.foundAt <= |log| && DecideTable(base, At(init, log, q.foundAt), q.op) == Success(q.decided.value))
    && match q.attempt
       case NotTried => true
       case Lost(at) =>
         && q.decided.Some? && q.foundAt <= at <= |log|
         && Statement(base, At(init, log, at), q.decided.value).Missed?
       case Overflow(at) =>
         && q.decided.Some? && q.foundAt <= at <= |log|
         && Statement(base, At(init, log, at), q.decided.value).Overflowed?
       case Won(at) =>
         && q.decided.Some? && q.foundAt <= at < |log|
         && var w := Statement(base, At(init, log, at), q.decided.value);
            w.Wrote? && log[at] == CommitOf(r, q.decided.value, w.row)
  }

  /** What the phase of a request says about its history. */
  ghost predicate PhaseOk(base: ClockBase, init: Table, log: seq<Commit>, q: Request) {
    match q.phase
    case Finding => q.decided.None? && q.attempt.NotTried?
    case Writing(plan) => q.decided == Some(plan) && q.attempt.NotTried?
    case Checking(plan) => q.decided == Some(plan) && q.attempt.Lost? && !plan.Insert?
    case Notifying(answer) => AnswersCommit(base, log, q, answer)
    case Finished(Success(answer)) => AnswersCommit(base, log, q, answer)
    case Finished(Failure(e)) =>
      && !q.attempt.Won?
      && (q.attempt.Overflow? ==> e == Internal)
      && (q.attempt.Lost? && q.decided.Some? ==>
            if q.decided.value.Insert? then e == Conflict
            else
              || e == Unavailable || e == Internal
              || (q.attempt.at <= q.checkedAt <= |log|
                  && e == MissError(q.decided.value, StillExists(At(init, log, q.checkedAt), q.decided.value))))
      && (q.attempt.NotTried? && q.decided.Some? ==> e == Unavailable || e == Internal)
      && (q.decided.None? ==>
            || e == Unavailable || e == Internal
            || (q.foundAt <= |log| && DecideTable(base, At(init, log, q.foundAt), q.op) == Failure(e)))
  }

  /** The request committed, and `answer` is what that commit answers. */
  ghost predicate AnswersCommit(base: ClockBase, log: seq<Commit>, q: Request, answer: Option<SettingSnapshot>) {
    && q.attempt.Won? && q.decided.Some? && q.attempt.at < |log|
    && Answer(base, q.decided.value, log[q.attempt.at].effect.row) == Success(answer)
  }

  ghost predicate RequestOk(base: ClockBase, init: Table, log: seq<Commit>, r: nat, q: Request) {
    HistoryOk(base, init, log, r, q) && PhaseOk(base, init, log, q)
  }

  /** Every commit is the one commit of its request. */
  ghost predicate CommitsOwned(s: State) {
    forall i | 0 <= i < |s.log| ::
      s.log[i].req in s.requests && s.requests[s.log[i].req].attempt == Won(i)
  }

  ghost predicate NoticesOk(s: State) {
    forall j | 0 <= j < |s.sent| :: NoticeOk(s, s.sent[j])
  }

  /** The notice was sent for a request that succeeded, and says so. */
  ghost predicate NoticeOk(s: State, n: Notice) {
    && n.req in s.requests
    && var q := s.requests[n.req];
       q.phase.Finished? && q.phase.outcome.Success?
       && n.change == ChangeFor(s.service, q.op, q.phase.outcome.value)
  }

  ghost predicate OneNoticeEach(s: State) {
    forall j, k | 0 <= j < k < |s.sent| :: s.sent[j].req != s.sent[k].req
  }

  ghost predicate SuccessesNotified(s: State) {
    forall r | r in s.requests && s.requests[r].phase.Finished? && s.requests[r].phase.outcome.Success? :: HasNotice(s, r)
  }

  ghost predicate HasNotice(s: State, r: nat) {
    exists j :: 0 <= j < |s.sent| && s.sent[j].req == r
  }

  ghost predicate SentOk(s: State) {
    NoticesOk(s) && OneNoticeEach(s) && SuccessesNotified(s)
  }

  ghost predicate RequestsOk(s: State) {
    forall r | r in s.requests :: RequestOk(s.base, s.init, s.log, r, s.requests[r])
  }

  ghost predicate Inv(s: State) {
    && TableOk(s.init) && TableOk(s.table)
    && s.table == At(s.init, s.log, |s.log|)
    && LogOk(s.init, s.log)
    && RequestsOk(s)
    && CommitsOwned(s)
    && SentOk(s)
  }

  // --- Preservation ---

  /** A longer log has the same past. */
  lemma PastKept(init: Table, log: seq<Commit>, c: Commit, i: nat)
    requires i <= |log|
    ensures At(init, log + [c], i) == At(init, log, i)
  {
    assert (log + [c])[..i] == log[..i];
  }

  lemma RequestKept(base: ClockBase, init: Table, log: seq<Commit>, c: Commit, r: nat, q: Request)
    requires RequestOk(base, init, log, r, q)
    ensures RequestOk(base, init, log + [c], r, q)
  {
    if q.decided.Some? {
      PastKept(init, log, c, q.foundAt);
      match q.attempt
      case NotTried =>
      case Lost(at) =>
        PastKept(init, log, c, at);
        if q.checkedAt <= |log| { PastKept(init, log, c, q.checkedAt); }
      case Overflow(at) => PastKept(init, log, c, at);
      case Won(at) => PastKept(init, log, c, at);
    } else if q.foundAt <= |log| {
      PastKept(init, log, c, q.foundAt);
    }
  }

  lemma LogExtended(init: Table, log: seq<Commit>, c: Commit)
    requires LogOk(init, log)
    requires CommitOk(At(init, log, |log|), c)
    ensures LogOk(init, log + [c])
    ensures At(init, log + [c], |log| + 1) == Applied(At(init, log, |log|), c)
  {
    forall i | 0 <= i < |log + [c]| ensures CommitOkAt(init, log + [c], i) {
      PastKept(init, log, c, i);
      assert i < |log| ==> CommitOkAt(init, log, i);
    }
    assert (log + [c])[..|log| + 1] == log + [c];
    assert (log + [c])[..|log|] == log == log[..|log|];
  }

  /** A legal commit leaves a well-formed table. */
  lemma CommitKeepsTable(t: Table, c: Commit)
    requires TableOk(t) && CommitOk(t, c)
    ensures TableOk(Applied(t, c))
  {
    hide RowOk;
  }

  lemma StatementIsCommit(base: ClockBase, t: Table, r: nat, plan: Plan)
    requires TableOk(t)
    requires Statement(base, t, plan).Wrote?
    ensures var w := Statement(base, t, plan);
            && CommitOk(t, CommitOf(r, plan, w.row))
            && w.table == Applied(t, CommitOf(r, plan, w.row))
            && RowOk(w.row)
  {
    hide AsI32, InsertStmt, UpdateStmt, DeleteStmt, TableOk, RowOk;
    match plan
    case Insert(next) => InsertWrites(base, t, next);
    case Update(_, next, expected) => UpdateWrites(base, t, next, expected);
    case Remove(_, key, owner, expected) => DeleteWrites(t, key, owner, expected);
  }

  /** A write that matches is a legal commit of the row it answers with. */
  lemma WriteIsCommit(base: ClockBase, t: Table, r: nat, plan: Plan)
    requires TableOk(t)
    requires Statement(base, t, plan).Wrote?
    ensures var w := Statement(base, t, plan);
            && CommitOk(t, CommitOf(r, plan, w.row))
            && w.table == Applied(t, CommitOf(r, plan, w.row))
            && TableOk(w.table)
            && RowOk(w.row) && Answer(base, plan, w.row).Success?
  {
    hide Statement, TableOk, CommitOk, RowOk, IntoDomain;
    var w := Statement(base, t, plan);
    StatementIsCommit(base, t, r, plan);
    CommitKeepsTable(t, CommitOf(r, plan, w.row));
    DecodeOk(base, w.row);
  }

  lemma SameLogStep(s: State, s': State, r: nat)
    requires Inv(s)
    requires s'.base == s.base && s'.init == s.init && s'.table == s.table && s'.log == s.log
    requires r in s'.requests && s'.requests == s.requests[r := s'.requests[r]]
    requires RequestOk(s.base, s.init, s.log, r, s'.requests[r])
    requires r in s.requests && s.requests[r].attempt.Won? ==> s'.requests[r].attempt == s.requests[r].attempt
    requires SentOk(s')
    ensures Inv(s')
  {
  }

  lemma SentKept(s: State, s': State, r: nat)
    requires SentOk(s)
    requires s'.sent == s.sent && s'.service == s.service
    requires r in s'.requests && s'.requests == s.requests[r := s'.requests[r]]
    requires r in s.requests ==> !s.requests[r].phase.Finished?
    requires !(s'.requests[r].phase.Finished? && s'.requests[r].phase.outcome.Success?)
    ensures SentOk(s')
  {
    forall j | 0 <= j < |s'.sent| ensures NoticeOk(s', s'.sent[j]) {
      assert NoticeOk(s, s.sent[j]);
    }
    forall p | p in s'.requests && s'.requests[p].phase.Finished? && s'.requests[p].phase.outcome.Success?
      ensures HasNotice(s', p)
    {
      assert HasNotice(s, p);
    }
  }

  lemma OwnershipExtended(s: State, s': State, r: nat)
    requires CommitsOwned(s)
    requires |s'.log| == |s.log| + 1 && s'.log[..|s.log|] == s.log && s'.log[|s.log|].req == r
    requires r in s'.requests && s'.requests == s.requests[r := s'.requests[r]]
    requires s'.requests[r].attempt == Won(|s.log|)
    requires r in s.requests && s.requests[r].attempt.NotTried?
    ensures CommitsOwned(s')
  {
    forall i | 0 <= i < |s'.log|
      ensures s'.log[i].req in s'.requests && s'.requests[s'.log[i].req].attempt == Won(i)
    {
      if i < |s.log| {
        assert s'.log[i] == s.log[i];
      }
    }
  }

  /** The state after a write that matched. */
  lemma WroteState(s: State, r: nat)
    requires TableOk(s.table) && Enabled(s, Write(r))
    requires Statement(s.base, s.table, s.requests[r].phase.plan).Wrote?
    ensures var s', q := Next(s, Write(r)), s.requests[r];
            var w := Statement(s.base, s.table, q.phase.plan);
            var answer := Answer(s.base, q.phase.plan, w.row);
            && CommitOk(s.table, CommitOf(r, q.phase.plan, w.row))
            && w.table == Applied(s.table, CommitOf(r, q.phase.plan, w.row))
            && TableOk(w.table)
            && answer.Success?
            && s' == s.(table := w.table, log := s.log + [CommitOf(r, q.phase.plan, w.row)],
                        requests := s.requests[r := q.(phase := Notifying(answer.value), attempt := Won(|s.log|))])
  {
    WriteIsCommit(s.base, s.table, r, s.requests[r].phase.plan);
  }

  lemma WinnerOk(base: ClockBase, init: Table, log: seq<Commit>, r: nat, q: Request)
    requires RequestOk(base, init, log, r, q) && q.phase.Writing?
    requires TableOk(At(init, log, |log|))
    requires Statement(base, At(init, log, |log|), q.phase.plan).Wrote?
    ensures var w := Statement(base, At(init, log, |log|), q.phase.plan);
            var answer := Answer(base, q.phase.plan, w.row);
            && answer.Success?
            && RequestOk(base, init, log + [CommitOf(r, q.phase.plan, w.row)], r,
                         q.(phase := Notifying(answer.value), attempt := Won(|log|)))
  {
    WriteIsCommit(base, At(init, log, |log|), r, q.phase.plan);
    var c := CommitOf(r, q.phase.plan, Statement(base, At(init, log, |log|), q.phase.plan).row);
    PastKept(init, log, c, |log|);
    PastKept(init, log, c, q.foundAt);
  }

  lemma RequestsExtended(s: State, s': State, r: nat, c: Commit)
    requires RequestsOk(s)
    requires s'.base == s.base && s'.init == s.init && s'.log == s.log + [c]
    requires r in s'.requests && s'.requests == s.requests[r := s'.requests[r]]
    requires RequestOk(s.base, s.init, s'.log, r, s'.requests[r])
    ensures RequestsOk(s')
  {
    forall p | p in s'.requests ensures RequestOk(s.base, s.init, s'.log, p, s'.requests[p]) {
      if p != r {
        RequestKept(s.base, s.init, s.log, c, p, s.requests[p]);
      }
    }
  }

  lemma WonKeepsInv(s: State, r: nat)
    requires Inv(s) && Enabled(s, Write(r))
    requires Statement(s.base, s.table, s.requests[r].phase.plan).Wrote?
    ensures Inv(Next(s, Write(r)))
  {
    WroteState(s, r);
    var s' := Next(s, Write(r));
    var c := s'.log[|s.log|];
    assert RequestOk(s.base, s.init, s.log, r, s.requests[r]);
    WinnerOk(s.base, s.init, s.log, r, s.requests[r]);
    RequestsExtended(s, s', r, c);
    OwnershipExtended(s, s', r);
    SentKept(s, s', r);
    LogExtended(s.init, s.log, c);
  }

  /** A write that matched nothing leaves its request with a lost attempt. */
  lemma LoserOk(base: ClockBase, init: Table, log: seq<Commit>, r: nat, q: Request, q': Request)
    requires RequestOk(base, init, log, r, q) && q.phase.Writing?
    requires var w := Statement(base, At(init, log, |log|), q.phase.plan);
             || (w.Missed? && q' == q.(phase := if q.phase.plan.Insert? then Finished(Failure(Conflict)) else Checking(q.phase.plan), attempt := Lost(|log|)))
             || (w.Overflowed? && q' == q.(phase := Finished(Failure(Internal)), attempt := Overflow(|log|)))
    ensures RequestOk(base, init, log, r, q')
  {
  }

  lemma LostKeepsInv(s: State, r: nat)
    requires Inv(s) && Enabled(s, Write(r))
    requires !Statement(s.base, s.table, s.requests[r].phase.plan).Wrote?
    ensures Inv(Next(s, Write(r)))
  {
    var s' := Next(s, Write(r));
    assert RequestOk(s.base, s.init, s.log, r, s.requests[r]);
    LoserOk(s.base, s.init, s.log, r, s.requests[r], s'.requests[r]);
    SentKept(s, s', r);
    SameLogStep(s, s', r);
  }

  lemma WriteKeepsInv(s: State, r: nat)
    requires Inv(s) && Enabled(s, Write(r))
    ensures Inv(Next(s, Write(r)))
  {
    if Statement(s.base, s.table, s.requests[r].phase.plan).Wrote? {
      WonKeepsInv(s, r);
    } else {
      LostKeepsInv(s, r);
    }
  }

  lemma NotifySent(s: State, r: nat)
    requires SentOk(s) && Enabled(s, Notify(r))
    ensures SentOk(Next(s, Notify(r)))
  {
    hide ChangeFor;
    var s' := Next(s, Notify(r));
    forall j | 0 <= j < |s.sent| ensures s.sent[j].req != r && NoticeOk(s', s.sent[j]) {
      assert NoticeOk(s, s.sent[j]);
    }
    forall p | p in s'.requests && s'.requests[p].phase.Finished? && s'.requests[p].phase.outcome.Success?
      ensures HasNotice(s', p)
    {
      if p == r {
        assert s'.sent[|s.sent|].req == r;
      } else {
        assert HasNotice(s, p);
        var j :| 0 <= j < |s.sent| && s.sent[j].req == p;
        assert s'.sent[j].req == p;
      }
    }
  }

  lemma NotifyKeepsInv(s: State, r: nat)
    requires Inv(s) && Enabled(s, Notify(r))
    ensures Inv(Next(s, Notify(r)))
  {
    NotifySent(s, r);
    var s' := Next(s, Notify(r));
    assert RequestOk(s.base, s.init, s.log, r, s'.requests[r]);
    SameLogStep(s, s', r);
  }

  lemma FindKeepsInv(s: State, r: nat, ids: seq<Identity>)
    requires Inv(s) && Enabled(s, Find(r, ids))
    ensures Inv(Next(s, Find(r, ids)))
  {
    hide DecideTable, Decide, DecodeAll, Replay, Statement, StillExists, Answer;
    var s' := Next(s, Find(r, ids));
    ScanIsLookup(s.base, s.table, s.requests[r].op, ids);
    assert RequestOk(s.base, s.init, s.log, r, s.requests[r]);
    assert RequestOk(s.base, s.init, s.log, r, s'.requests[r]);
    SentKept(s, s', r);
    SameLogStep(s, s', r);
  }

  lemma OtherStepKeepsInv(s: State, a: Action)
    requires Inv(s) && Enabled(s, a)
    requires a.Begin? || a.Check? || a.Fail?
    ensures Inv(Next(s, a))
  {
    var s' := Next(s, a);
    OtherStepOk(s, a);
    SentKept(s, s', a.r);
    SameLogStep(s, s', a.r);
  }

  lemma OtherStepOk(s: State, a: Action)
    requires RequestsOk(s) && Enabled(s, a) && s.table == At(s.init, s.log, |s.log|)
    requires a.Begin? || a.Check? || a.Fail?
    ensures RequestOk(s.base, s.init, s.log, a.r, Next(s, a).requests[a.r])
  {
    if !a.Begin? {
      assert RequestOk(s.base, s.init, s.log, a.r, s.requests[a.r]);
    }
  }

  lemma StepKeepsInv(s: State, a: Action)
    requires Inv(s) && Enabled(s, a)
    ensures Inv(Next(s, a))
  {
    match a
    case Write(r) => WriteKeepsInv(s, r);
    case Notify(r) => NotifyKeepsInv(s, r);
    case Find(r, ids) => FindKeepsInv(s, r, ids);
    case _ => OtherStepKeepsInv(s, a);
  }

  /** Every state of every run satisfies the invariant. */
  lemma {:induction false} RunKeepsInv(s: State, acts: seq<Action>, s': State)
    requires Inv(s) && Steps(s, acts, s')
    ensures Inv(s')
    decreases |acts|
  {
    if acts != [] {
      StepKeepsInv(s, acts[0]);
      RunKeepsInv(Next(s, acts[0]), acts[1..], s');
    }
  }

  lemma InitialInv(s: State)
    requires Initial(s)
    ensures Inv(s)
  {
    assert s.log[..0] == [];
  }

  /** `s` is a state of some run. */
  ghost predicate Reachable(s: State) {
    exists s0, acts :: Initial(s0) && Steps(s0, acts, s)
  }

  lemma ReachableInv(s: State)
    requires Reachable(s)
    ensures Inv(s)
  {
    var s0, acts :| Initial(s0) && Steps(s0, acts, s);
    InitialInv(s0);
    RunKeepsInv(s0, acts, s);
  }
}
