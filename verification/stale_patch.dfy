/** Requests run alone, and the one schedule that defeats a PATCH: its row is deleted and
    created again under it, so that its stale version matches. */
module StalePatch {
  import opened AuthModel
  import opened Linearization
  import opened MergePatch
  import opened Protocol
  import opened Samples
  import opened SettingModel
  import opened SettingsRules
  import opened SettingsTable
  import opened Wrappers

  lemma {:induction false} StepsThen(s: State, acts: seq<Action>, m: State, a: Action)
    requires Steps(s, acts, m) && Enabled(m, a)
    ensures Steps(s, acts + [a], Next(m, a))
    decreases |acts|
  {
    if acts == [] {
      assert Steps(Next(m, a), [], Next(m, a));
      assert (acts + [a])[1..] == [];
    } else {
      StepsThen(Next(s, acts[0]), acts[1..], m, a);
      assert (acts + [a])[1..] == acts[1..] + [a];
    }
  }

  /** One more step of a run is a run. */
  lemma ReachableThen(s: State, a: Action)
    requires Reachable(s) && Enabled(s, a)
    ensures Reachable(Next(s, a))
  {
    var s0, acts :| Initial(s0) && Steps(s0, acts, s);
    StepsThen(s0, acts, s, a);
  }

  /** `s'` is `s` with only the request `r` taken further. */
  ghost predicate OnlyMoved(s: State, s': State, r: nat) {
    && s'.base == s.base && s'.init == s.init && s'.service == s.service
    && r in s'.requests && s'.requests == s.requests[r := s'.requests[r]]
  }

  lemma MovedTwice(s: State, m: State, s': State, r: nat)
    requires OnlyMoved(s, m, r) && OnlyMoved(m, s', r)
    ensures OnlyMoved(s, s', r)
  {
  }

  lemma ReachableTableOk(s: State)
    requires Reachable(s)
    ensures TableOk(s.table)
  {
    ReachableInv(s);
  }

  lemma FindMoves(s: State, r: nat, ids: seq<Identity>)
    requires TableOk(s.table) && Enabled(s, Find(r, ids))
    ensures OnlyMoved(s, Next(s, Find(r, ids)), r)
    ensures Next(s, Find(r, ids)).requests[r] == Found(s, s.requests[r], DecideTable(s.base, s.table, s.requests[r].op))
  {
    ScanIsLookup(s.base, s.table, s.requests[r].op, ids);
  }

  /** Begin and find: what a new request decides is what the table says. */
  lemma BeginAndFind(s: State, r: nat, op: Op, ids: seq<Identity>) returns (s': State)
    requires Reachable(s) && r !in s.requests
    requires IsFindOrder(s.table, op.authority.tenant, op.key, ids)
    ensures Reachable(s') && OnlyMoved(s, s', r) && s'.table == s.table && s'.log == s.log
    ensures s'.requests[r] == Found(s, Request(op, Finding, None, 0, NotTried, 0), DecideTable(s.base, s.table, op))
  {
    hide DecideTable, Reachable, IsFindOrder, TableOk;
    ReachableTableOk(s);
    var m := Next(s, Begin(r, op));
    ReachableThen(s, Begin(r, op));
    FindMoves(m, r, ids);
    s' := Next(m, Find(r, ids));
    ReachableThen(m, Find(r, ids));
    MovedTwice(s, m, s', r);
  }

  lemma WriteMoves(s: State, r: nat, plan: Plan)
    requires TableOk(s.table) && r in s.requests && s.requests[r].phase == Writing(plan)
    requires Statement(s.base, s.table, plan).Wrote?
    ensures var m, answer := Next(s, Write(r)), Answer(s.base, plan, Statement(s.base, s.table, plan).row);
            && OnlyMoved(s, m, r) && m.requests[r].op == s.requests[r].op && answer.Success? && m.requests[r].phase == Notifying(answer.value)
            && m.table == Statement(s.base, s.table, plan).table
  {
    WroteState(s, r);
  }

  lemma WriteAndNotify(s: State, r: nat, plan: Plan) returns (s': State)
    requires Reachable(s) && r in s.requests && s.requests[r].phase == Writing(plan)
    requires Statement(s.base, s.table, plan).Wrote?
    ensures Reachable(s') && OnlyMoved(s, s', r) && s'.requests[r].op == s.requests[r].op
    ensures s'.requests[r].phase == Finished(Answer(s.base, plan, Statement(s.base, s.table, plan).row))
    ensures s'.table == Statement(s.base, s.table, plan).table
  {
    hide Statement, Reachable, Answer;
    ReachableTableOk(s);
    WriteMoves(s, r, plan);
    var m := Next(s, Write(r));
    ReachableThen(s, Write(r));
    s' := Next(m, Notify(r));
    ReachableThen(m, Notify(r));
    MovedTwice(s, m, s', r);
  }

  lemma MissAndCheck(s: State, r: nat, plan: Plan) returns (s': State)
    requires Reachable(s) && r in s.requests && s.requests[r].phase == Writing(plan)
    requires Statement(s.base, s.table, plan).Missed?
    ensures Reachable(s') && OnlyMoved(s, s', r) && s'.table == s.table && s'.requests[r].op == s.requests[r].op
    ensures s'.requests[r].phase == Finished(Failure(MissError(plan, StillExists(s.table, plan))))
  {
    hide Statement, StillExists, Reachable;
    s' := Next(s, Write(r));
    ReachableThen(s, Write(r));
    if !plan.Insert? {
      var m := s';
      assert m.requests[r].phase == Checking(plan);
      s' := Next(m, Check(r));
      ReachableThen(m, Check(r));
    }
  }

  /** From a decided plan to the end, nothing interrupting: the plan carried out. */
  lemma CarryToEnd(s: State, r: nat, plan: Plan) returns (s': State)
    requires Reachable(s) && r in s.requests && s.requests[r].phase == Writing(plan)
    ensures Reachable(s') && OnlyMoved(s, s', r) && s'.requests[r].op == s.requests[r].op
    ensures s'.requests[r].phase == Finished(Carry(s.base, s.table, plan).0)
    ensures s'.table == Carry(s.base, s.table, plan).1
  {
    hide Statement, StillExists, Reachable, Answer;
    match Statement(s.base, s.table, plan)
    case Wrote(_, _) =>
      s' := WriteAndNotify(s, r, plan);
    case Missed =>
      s' := MissAndCheck(s, r, plan);
    case Overflowed =>
      s' := Next(s, Write(r));
      ReachableThen(s, Write(r));
  }

  /** A request that nothing interrupts does exactly what the sequential specification says:
      same outcome, same table. */
  lemma RunAlone(s: State, r: nat, op: Op, ids: seq<Identity>) returns (s': State)
    requires Reachable(s) && r !in s.requests
    requires IsFindOrder(s.table, op.authority.tenant, op.key, ids)
    ensures Reachable(s') && OnlyMoved(s, s', r) && s'.requests[r].op == op
    ensures s'.requests[r].phase == Finished(Execute(s.base, s.table, op).0)
    ensures s'.table == Execute(s.base, s.table, op).1
  {
    hide DecideTable, Carry, Reachable, IsFindOrder;
    var m := BeginAndFind(s, r, op, ids);
    match DecideTable(s.base, s.table, op)
    case Failure(_) =>
      s' := m;
    case Success(plan) =>
      assert m.requests[r].phase == Writing(plan);
      s' := CarryToEnd(m, r, plan);
      MovedTwice(s, m, s', r);
  }

  // --- The schedule ---

  /** A table with the one row of `op`, new, holding `v`. */
  function Fresh(base: ClockBase, op: Op, v: SettingValue, now: int): Table {
    map[op.Id() := ToRow(base, SettingSnapshot(op.key, v, op.Target(), 1, now), 1)]
  }

  lemma FreshFacts(base: ClockBase, op: Op, v: SettingValue, now: int)
    requires op.Target().user != Some("")
    ensures TableOk(Fresh(base, op, v, now))
    ensures IsFindOrder(Fresh(base, op, v, now), op.authority.tenant, op.key, [op.Id()])
    ensures Owned(base, Fresh(base, op, v, now), op) ==
            Some(SettingSnapshot(op.key, v, op.Target(), 1, base.Clamp(now)))
    ensures AnyRow(Fresh(base, op, v, now), op.authority.tenant, op.key)
  {
    var s := SettingSnapshot(op.key, v, op.Target(), 1, now);
    StoredAggregateIff(base, s, 1);
    assert IdentityOf(ToRow(base, s, 1)) == op.Id();
    assert DecodedOwnership(ToRow(base, s, 1)) == op.Target();
    assert op.Id() in Fresh(base, op, v, now);
  }

  lemma DeleteDecides(base: ClockBase, t: Table, op: Op, cur: SettingSnapshot)
    requires op.Delete? && Owned(base, t, op) == Some(cur) && cur.version == op.expected
    requires AnyRow(t, op.authority.tenant, op.key)
    ensures DecideTable(base, t, op) == Success(Remove(cur, op.key, cur.ownership, op.expected))
  {
  }

  lemma RemoveCarried(base: ClockBase, t: Table, plan: Plan, id: Identity)
    requires plan.Remove? && id == OwnedIdentity(plan.key, plan.owner)
    requires id in t && t[id].version == 1 && plan.expected == 1
    ensures Carry(base, t, plan) == (Success(None), t - {id})
  {
    assert DeleteStmt(t, plan.key, plan.owner, plan.expected) == Wrote(t[id], t - {id});
  }

  lemma DeleteEmpties(base: ClockBase, op: Op, v: SettingValue, now: int)
    requires op.Delete? && op.Target().user != Some("") && op.expected == 1
    ensures Execute(base, Fresh(base, op, v, now), op) == (Success(None), map[])
  {
    FreshFacts(base, op, v, now);
    var t := Fresh(base, op, v, now);
    var cur := Owned(base, t, op).value;
    DeleteDecides(base, t, op, cur);
    RemoveCarried(base, t, Remove(cur, op.key, cur.ownership, op.expected), op.Id());
    assert t - {op.Id()} == map[];
  }

  lemma PutCreates(base: ClockBase, op: Op)
    requires op.Put? && op.Target().user != Some("")
    ensures Execute(base, map[], op).1 == Fresh(base, op, op.value, op.now)
  {
    assert Owned(base, map[], op) == None;
    assert Statement(base, map[], Insert(SettingSnapshot(op.key, op.value, op.Target(), 1, op.now))).Wrote?;
  }

  /** The row of `op` is deleted and created again holding `v`, by requests 1 and 2. */
  lemma DeleteAndCreate(s: State, key: SettingKey, a: Authority, v1: SettingValue, v2: SettingValue, now: int) returns (s': State)
    requires a.ScopeOwnership().user != Some("")
    requires Reachable(s) && 1 !in s.requests && 2 !in s.requests
    requires s.table == Fresh(s.base, Delete(key, a, 1), v1, now)
    ensures Reachable(s') && s'.base == s.base && s'.init == s.init
    ensures s'.table == Fresh(s.base, Put(key, a, v2, None, now), v2, now)
    ensures forall r | r in s.requests :: r in s'.requests && s'.requests[r] == s.requests[r]
  {
    var m := DeleteAlone(s, 1, Delete(key, a, 1), v1, now);
    s' := CreateAlone(m, 2, Put(key, a, v2, None, now));
  }

  lemma DeleteAlone(s: State, r: nat, op: Op, v: SettingValue, now: int) returns (s': State)
    requires op.Delete? && op.Target().user != Some("") && op.expected == 1
    requires Reachable(s) && r !in s.requests && s.table == Fresh(s.base, op, v, now)
    ensures Reachable(s') && OnlyMoved(s, s', r) && s'.table == map[]
  {
    FreshFacts(s.base, op, v, now);
    DeleteEmpties(s.base, op, v, now);
    s' := RunAlone(s, r, op, [op.Id()]);
  }

  lemma CreateAlone(s: State, r: nat, op: Op) returns (s': State)
    requires op.Put? && op.Target().user != Some("")
    requires Reachable(s) && r !in s.requests && s.table == map[]
    ensures Reachable(s') && OnlyMoved(s, s', r) && s'.table == Fresh(s.base, op, op.value, op.now)
    ensures s'.requests[r].op == op && s'.requests[r].phase == Finished(Execute(s.base, map[], op).0)
  {
    PutCreates(s.base, op);
    assert IsFindOrder(s.table, op.authority.tenant, op.key, []);
    s' := RunAlone(s, r, op, []);
  }

  /** A PATCH has found its row at version 1 holding `v1`, and is about to write. */
  lemma PatchFound(base: ClockBase, service: string, op: Op, v1: SettingValue) returns (s: State)
    requires op.Patch? && op.expected == 1 && op.Target().user != Some("") && MergeValues(v1, op.value).Success?
    ensures Reachable(s) && s.base == base
    ensures s.init == s.table == Fresh(base, op, v1, op.now)
    ensures DecideTable(base, s.table, op).Success?
    ensures var plan := DecideTable(base, s.table, op).value;
            s.requests == map[0 := Request(op, Writing(plan), Some(plan), 0, NotTried, 0)]
  {
    var t := Fresh(base, op, v1, op.now);
    FreshFacts(base, op, v1, op.now);
    PatchPlan(base, op, v1);
    var s0 := StartAt(base, service, t);
    s := BeginAndFind(s0, 0, op, [op.Id()]);
    assert s.requests == s0.requests[0 := s.requests[0]];
  }

  lemma PatchPlan(base: ClockBase, op: Op, v1: SettingValue)
    requires op.Patch? && op.expected == 1 && op.Target().user != Some("") && MergeValues(v1, op.value).Success?
    ensures var d := DecideTable(base, Fresh(base, op, v1, op.now), op);
            && d.Success? && d.value.Update? && d.value.expected == 1
            && OwnedIdentity(d.value.next.key, d.value.next.ownership) == op.Id()
  {
    FreshFacts(base, op, v1, op.now);
    PatchAgain(base, Fresh(base, op, v1, op.now), op, Owned(base, Fresh(base, op, v1, op.now), op).value);
  }

  lemma StartAt(base: ClockBase, service: string, t: Table) returns (s: State)
    requires TableOk(t)
    ensures s == State(base, service, t, t, map[], [], []) && Reachable(s)
  {
    s := State(base, service, t, t, map[], [], []);
    assert Initial(s) && Steps(s, [], s);
  }

  /** A PATCH that finds the row at version 1 holding `v1`, and writes after the row has been
      deleted and created again holding `v2`, overwrites `v2` with the merge of `v1`: the second
      write is lost, and the client is told of success. The run is no sequential run unless the
      two values merge alike. */
  lemma StalePatchOverwrites(base: ClockBase, service: string, key: SettingKey, a: Authority, v1: SettingValue, v2: SettingValue, p: SettingValue, now: int)
    returns (s: State)
    requires a.ScopeOwnership().user != Some("") && MergeValues(v1, p).Success?
    ensures Reachable(s) && CommitsOwned(s) && |s.log| > 0
    ensures Committer(s, |s.log| - 1).op == Patch(key, a, p, 1, now)
    ensures Overwrote(s, |s.log| - 1, v1, v2, p)
  {
    var op := Patch(key, a, p, 1, now);
    var s1 := PatchFound(base, service, op, v1);
    PatchPlan(base, op, v1);
    var plan := DecideTable(base, s1.table, op).value;
    assert Fresh(base, op, v1, now) == Fresh(base, Delete(key, a, 1), v1, now);
    var s3 := DeleteAndCreate(s1, key, a, v1, v2, now);
    assert Fresh(base, Put(key, a, v2, None, now), v2, now) == Fresh(base, op, v2, now);
    s := StaleWrite(s3, op, plan, v1, v2);
  }

  /** The write of a PATCH decided on `v1` at version 1, on a fresh row holding `v2`. */
  lemma StaleWrite(s3: State, op: Op, plan: Plan, v1: SettingValue, v2: SettingValue) returns (s: State)
    requires Reachable(s3) && op.Patch? && plan.Update? && plan.expected == 1
    requires OwnedIdentity(plan.next.key, plan.next.ownership) == op.Id()
    requires 0 in s3.requests && s3.requests[0] == Request(op, Writing(plan), Some(plan), 0, NotTried, 0)
    requires s3.table == Fresh(s3.base, op, v2, op.now) && s3.init == Fresh(s3.base, op, v1, op.now)
    ensures Reachable(s) && CommitsOwned(s) && |s.log| > 0
    ensures Committer(s, |s.log| - 1).op == op
    ensures Overwrote(s, |s.log| - 1, v1, v2, op.value)
  {
    assert UpdateStmt(s3.base, s3.table, plan.next, 1).Wrote?;
    s := Next(s3, Write(0));
    ReachableThen(s3, Write(0));
    StaleCommit(s3, s, v1, v2, op.value);
  }

  /** The last commit, a PATCH with `p`, replaced a row holding `v2` by the merge of `v1`, and
      is its request run alone exactly when that merge is also the merge of `v2`. */
  ghost predicate Overwrote(s: State, c: nat, v1: SettingValue, v2: SettingValue, p: SettingValue)
    requires CommitsOwned(s) && c < |s.log|
  {
    var q := Committer(s, c);
    var before := At(s.init, s.log, c);
    && q.decided.Some? && AnswerOf(s, c).Success?
    && q.op.Id() in before && before[q.op.Id()].value == v2
    && q.op.Id() in s.table && s.table[q.op.Id()].value == Merge(v1, p)
    && (Execute(s.base, before, q.op) == (AnswerOf(s, c), s.table) <==> Merge(v2, p) == Merge(v1, p))
  }

  lemma StaleCommit(s3: State, s: State, v1: SettingValue, v2: SettingValue, p: SettingValue)
    requires Reachable(s3) && Reachable(s) && Enabled(s3, Write(0)) && s == Next(s3, Write(0))
    requires s3.requests[0].op.Patch? && s3.requests[0].op.value == p && s3.requests[0].foundAt == 0
    requires Statement(s3.base, s3.table, s3.requests[0].phase.plan).Wrote?
    requires s3.requests[0].op.Id() in s3.table && s3.table[s3.requests[0].op.Id()].value == v2
    requires s3.requests[0].op.Id() in s3.init && s3.init[s3.requests[0].op.Id()].value == v1
    ensures CommitsOwned(s) && |s.log| > 0
    ensures Committer(s, |s.log| - 1).op == s3.requests[0].op
    ensures Overwrote(s, |s.log| - 1, v1, v2, p)
  {
    ReachableTableOk(s3);
    WroteState(s3, 0);
    var c := |s3.log|;
    assert |s.log| == c + 1 && s.log[c].req == 0 && s.requests[0].op == s3.requests[0].op;
    ReachableLog(s3);
    ReachableInv(s);
    LastPatch(s, c, s3.table, v1, v2);
  }

  lemma ReachableLog(s: State)
    requires Reachable(s)
    ensures s.table == Replay(s.init, s.log)
  {
    ReachableInv(s);
    assert s.log[..|s.log|] == s.log;
  }

  lemma LastPatch(s: State, c: nat, before: Table, v1: SettingValue, v2: SettingValue)
    requires Inv(s) && |s.log| == c + 1 && Committer(s, c).op.Patch? && Committer(s, c).foundAt == 0
    requires before == Replay(s.init, s.log[..c])
    requires Committer(s, c).op.Id() in before && before[Committer(s, c).op.Id()].value == v2
    requires Committer(s, c).op.Id() in s.init && s.init[Committer(s, c).op.Id()].value == v1
    ensures Overwrote(s, c, v1, v2, Committer(s, c).op.value)
  {
    hide Statement, Execute, DecideTable, Answer;
    assert s.log[..0] == [];
    assert s.log[..c + 1] == s.log;
    CommitFacts(s, c);
    PatchAloneIff(s, c);
    var q := Committer(s, c);
    PatchDecided(s.base, s.init, q.op, q.decided.value);
    UpdateLeaves(s.base, before, q.decided.value);
  }

  /** A concrete lost update: the empty patch of an empty object undoes a concurrent create of
      `{"b":true}`, and is answered with success. */
  lemma LostUpdate() returns (s: State)
    ensures Reachable(s) && CommitsOwned(s) && |s.log| > 0
    ensures var c := |s.log| - 1;
            && Committer(s, c).op.Patch? && Committer(s, c).decided.Some? && AnswerOf(s, c).Success?
            && Execute(s.base, At(s.init, s.log, c), Committer(s, c).op) != (AnswerOf(s, c), s.table)
  {
    hide Execute, AnswerOf, At, Reachable, NewValue, Merge, ValidKey, Empty, Flag;
    EmptyKeeps(Empty());
    EmptyKeeps(Flag());
    FlagIsNotEmpty();
    MergeOfValues(Empty(), Empty());
    MergeOfValues(Flag(), Empty());
    OneCharKey('k');
    s := StalePatchOverwrites(ClockBase(0, 0), "svc", ['k'], SampleAuthority(), Empty(), Flag(), Empty(), 0);
  }

  /** A merge that is accepted is the merge. */
  lemma MergeOfValues(v: SettingValue, patch: SettingValue)
    requires MergeValues(v, patch).Success?
    ensures MergeValues(v, patch).value == Merge(v, patch)
  {
  }
}
