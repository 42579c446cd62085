/** What clients and subscribers see: answers, reads after writes, and notifications. */
module Delivery {
  import opened CommitLog
  import opened Linearization
  import opened Notification
  import opened Protocol
  import opened SettingModel
  import opened SettingsRules
  import opened SettingsTable
  import opened Wrappers

  // --- Rows ---

  /** Every row of every run has a version that fits the column, and decodes to an aggregate of
      its own content that is stored back under the same identity. */
  lemma ReachableRow(s: State, id: Identity)
    requires Reachable(s) && id in s.table
    ensures var row := s.table[id];
            && IdentityOf(row) == id && 1 <= row.version <= MAX_I32 && AsI32(row.version) == row.version
            && ValidKey(row.key) && ValidValue(row.value)
            && IntoDomain(s.base, row) ==
               Success(SettingSnapshot(row.key, row.value, DecodedOwnership(row), row.version, s.base.FromMillis(row.updatedAt)))
            && OwnedIdentity(row.key, DecodedOwnership(row)) == id
  {
    ReachableInv(s);
    assert RowOk(s.table[id]);
    DecodeOk(s.base, s.table[id]);
  }

  // --- Answers ---

  /** A successful put or patch answers with the aggregate as the service computed it, its time
      clamped: the server-side version increment is the aggregate's own. */
  lemma AnswerIsAggregate(s: State, c: nat)
    requires Reachable(s) && CommitsOwned(s) && c < |s.log|
    requires Committer(s, c).op.Target().user != Some("") && !Committer(s, c).op.Delete?
    ensures var q := Committer(s, c);
            && q.decided.Some? && !q.decided.value.Remove?
            && var next := q.decided.value.next;
               AnswerOf(s, c) == Success(Some(next.(updatedAt := s.base.Clamp(next.updatedAt))))
  {
    hide Inv;
    ReachableInv(s);
    CommitFacts(s, c);
    var q := Committer(s, c);
    var t0, t := At(s.init, s.log, q.foundAt), At(s.init, s.log, c);
    if q.decided.value.Insert? {
      InsertDecided(s.base, t0, q.op, q.decided.value);
      InsertAnswer(s.base, t, q.decided.value);
    } else {
      WriteDecided(s.base, t0, q.op, q.decided.value);
      UpdateAnswer(s.base, t, q.decided.value);
    }
  }

  lemma InsertAnswer(base: ClockBase, t: Table, plan: Plan)
    requires plan.Insert? && plan.next.version == 1 && plan.next.ownership.user != Some("")
    requires Statement(base, t, plan).Wrote?
    ensures Answer(base, plan, Statement(base, t, plan).row) ==
            Success(Some(plan.next.(updatedAt := base.Clamp(plan.next.updatedAt))))
  {
    StoredAggregateIff(base, plan.next, 1);
    assert Statement(base, t, plan).row == ToRow(base, plan.next, 1);
  }

  lemma UpdateAnswer(base: ClockBase, t: Table, plan: Plan)
    requires TableOk(t) && plan.Update? && plan.next.ownership.user != Some("")
    requires plan.expected <= MAX_I32 && plan.next.version == plan.expected + 1
    requires Statement(base, t, plan).Wrote?
    ensures Answer(base, plan, Statement(base, t, plan).row) ==
            Success(Some(plan.next.(updatedAt := base.Clamp(plan.next.updatedAt))))
  {
    UpdateWrites(base, t, plan.next, plan.expected);
    var row := Statement(base, t, plan).row;
    var id := OwnedIdentity(plan.next.key, plan.next.ownership);
    DecodeOk(base, row);
    assert IdentityOf(t[id]) == id;
    assert row.value == plan.next.value && row.updatedAt == base.ToMillis(plan.next.updatedAt);
    assert row.key == plan.next.key && DecodedOwnership(row) == plan.next.ownership;
  }

  // --- Reads ---

  /** After its successful put or patch, and until someone else commits to that row, an
      authority's read returns exactly what the write answered, whatever else is committed and
      in whatever order the database lists the rows of the key. */
  lemma ReadYourWrite(s: State, c: nat, ids: seq<Identity>)
    requires Reachable(s) && CommitsOwned(s) && c < |s.log|
    requires !Committer(s, c).op.Delete? && Committer(s, c).op.Target().user != Some("")
    requires Untouched(s.log, Committer(s, c).op.Id(), c + 1, |s.log|)
    requires IsFindOrder(s.table, Committer(s, c).op.authority.tenant, Committer(s, c).op.key, ids)
    ensures Committer(s, c).decided.Some?
    ensures forall id | id in ids :: id in s.table
    ensures AnswerOf(s, c).Success? && AnswerOf(s, c).value.Some?
    ensures GetTable(s.base, s.table, ids, Committer(s, c).op.authority) == Success(AnswerOf(s, c).value.value)
  {
    ReachableInv(s);
    CommitFacts(s, c);
    AnswerIsAggregate(s, c);
    var q := Committer(s, c);
    var id := q.op.Id();
    AtNext(s.init, s.log, c);
    RowFrame(s.init, s.log, id, c + 1, |s.log|);
    assert s.table[id] == s.log[c].effect.row;
    GetIsRule(s.base, s.table, q.op.key, q.op.authority, ids);
    ScopedRowIsRead(s.base, s.table, q.op);
  }

  /** The read rule picks the row an authority writes to. */
  lemma ScopedRowIsRead(base: ClockBase, t: Table, op: Op)
    requires op.Id() in t && op.Target().user != Some("")
    ensures GetRule(base, t, op.key, op.authority) == IntoDomain(base, t[op.Id()])
  {
    assert AnyRow(t, op.authority.tenant, op.key);
  }

  // --- Notifications ---

  /** The change reports the commit: its tenant, its key, and its value and version, or for a
      delete no value and version 0. */
  ghost predicate Reports(n: ConfigChange, service: string, c: Commit) {
    && n.service == service && n.tenant == c.id.tenant && n.key == c.id.key
    && match c.effect
       case Upserted(row) => n.op == "upsert" && n.value == Some(row.value) && n.version == row.version
       case Deleted(_) => n.op == "delete" && n.value == None && n.version == 0
  }

  /** Notice `j` was sent by the request of commit `c`, and reports it. */
  ghost predicate NoticeOf(s: State, j: nat, c: nat) {
    && j < |s.sent| && c < |s.log|
    && s.sent[j].req == s.log[c].req
    && Reports(s.sent[j].change, s.service, s.log[c])
  }

  lemma AnswerReports(s: State, c: nat, answer: Option<SettingSnapshot>)
    requires Inv(s) && c < |s.log|
    requires Committer(s, c).decided.Some? && AnswerOf(s, c) == Success(answer)
    ensures Reports(ChangeFor(s.service, Committer(s, c).op, answer), s.service, s.log[c])
  {
    CommitFacts(s, c);
    assert CommitOkAt(s.init, s.log, c);
    if s.log[c].effect.Upserted? {
      DecodeOk(s.base, s.log[c].effect.row);
    }
  }

  ghost predicate HasCommit(s: State, j: nat) {
    exists c: nat :: NoticeOf(s, j, c)
  }

  lemma NoticeHasCommit(s: State, j: nat)
    requires Inv(s) && j < |s.sent|
    ensures HasCommit(s, j)
  {
    assert NoticeOk(s, s.sent[j]);
    var q := s.requests[s.sent[j].req];
    assert RequestOk(s.base, s.init, s.log, s.sent[j].req, q);
    var c := q.attempt.at;
    CommitFacts(s, c);
    AnswerReports(s, c, q.phase.outcome.value);
    assert NoticeOf(s, j, c);
  }

  /** At every moment the notices sent are about distinct commits, each reporting its own. */
  lemma NoticesInject(s: State)
    requires Reachable(s)
    ensures forall j: nat | j < |s.sent| :: HasCommit(s, j)
    ensures forall j: nat, c: nat, d: nat | NoticeOf(s, j, c) && NoticeOf(s, j, d) :: c == d
    ensures forall j: nat, k: nat, c: nat | NoticeOf(s, j, c) && NoticeOf(s, k, c) :: j == k
  {
    ReachableInv(s);
    forall j: nat | j < |s.sent| ensures HasCommit(s, j) {
      NoticeHasCommit(s, j);
    }
  }

  ghost predicate AllFinished(s: State) {
    forall r | r in s.requests :: s.requests[r].phase.Finished?
  }

  /** When every request is done, every commit has its notice: notices and commits are in
      bijection. */
  lemma CommitIsReported(s: State, c: nat) returns (j: nat)
    requires Reachable(s) && AllFinished(s) && c < |s.log|
    ensures NoticeOf(s, j, c)
  {
    ReachableInv(s);
    var r := s.log[c].req;
    FinishedCommit(s, c);
    assert HasNotice(s, r);
    j :| 0 <= j < |s.sent| && s.sent[j].req == r;
    assert NoticeOk(s, s.sent[j]);
    AnswerReports(s, c, s.requests[r].phase.outcome.value);
  }

  /** A request that is done and committed has answered its commit. */
  lemma FinishedCommit(s: State, c: nat)
    requires Inv(s) && c < |s.log| && Committer(s, c).phase.Finished?
    ensures var q := Committer(s, c);
            q.phase.outcome.Success? && q.decided.Some? && AnswerOf(s, c) == Success(q.phase.outcome.value)
  {
    assert RequestOk(s.base, s.init, s.log, s.log[c].req, Committer(s, c));
  }

  /** Notice `j`, about commit `c`, is the newest of the live row `id`: it carries exactly the
      stored value, and every other notice about a write of the row is about an earlier commit,
      with a lower version when the row was not deleted in between. */
  ghost predicate Newest(s: State, id: Identity, j: nat, c: nat) {
    && NoticeOf(s, j, c) && s.log[c].id == id && id in s.table
    && s.sent[j].change.value == Some(s.table[id].value)
    && s.sent[j].change.version == s.table[id].version
    && forall k: nat, d: nat | NoticeOf(s, k, d) && k != j :: Older(s, id, j, c, k, d)
  }

  /** If notice `k`, about commit `d`, is about a write of the row, then it is about an earlier
      one, with a lower version when the row was not deleted in between. */
  ghost predicate Older(s: State, id: Identity, j: nat, c: nat, k: nat, d: nat)
    requires NoticeOf(s, j, c) && NoticeOf(s, k, d)
  {
    s.log[d].id == id && s.log[d].effect.Upserted? ==>
      d < c && (NoDelete(s.log, id, d, c) ==> s.sent[k].change.version < s.sent[j].change.version)
  }

  /** The last commit on a live row wrote it. */
  lemma LastCommitWrote(init: Table, log: seq<Commit>, id: Identity, c: nat)
    requires c < |log| && log[c].id == id && id in At(init, log, |log|)
    requires Untouched(log, id, c + 1, |log|)
    ensures log[c].effect == Upserted(At(init, log, |log|)[id])
  {
    AtNext(init, log, c);
    RowFrame(init, log, id, c + 1, |log|);
  }

  /** When every request is done, each live row that was written in the run has a newest notice,
      even though notices may have been sent in another order than the commits. */
  lemma LiveRowsAreReported(s: State, id: Identity) returns (j: nat, c: nat)
    requires Reachable(s) && AllFinished(s)
    requires id in s.table && !Untouched(s.log, id, 0, |s.log|)
    ensures Newest(s, id, j, c)
  {
    ReachableInv(s);
    c := LastTouch(s.log, id, |s.log|);
    j := CommitIsReported(s, c);
    LastCommitWrote(s.init, s.log, id, c);
    NoticesInject(s);
    forall k: nat, d: nat | NoticeOf(s, k, d) && k != j ensures Older(s, id, j, c, k, d) {
      OlderNotice(s, id, j, c, k, d);
    }
  }

  lemma OlderNotice(s: State, id: Identity, j: nat, c: nat, k: nat, d: nat)
    requires LogOk(s.init, s.log)
    requires NoticeOf(s, j, c) && NoticeOf(s, k, d) && d != c
    requires s.log[c].id == id && s.log[c].effect.Upserted? && Untouched(s.log, id, c + 1, |s.log|)
    ensures Older(s, id, j, c, k, d)
  {
    if s.log[d].id == id && s.log[d].effect.Upserted? && NoDelete(s.log, id, d, c) {
      assert d < c;
      VersionsDistinct(s.init, s.log, id, d, c);
    }
  }
}
