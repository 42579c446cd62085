/** Every concurrent run is a sequential run of its successful requests, in commit order. */
module Linearization {
  import opened CommitLog
  import opened MergePatch
  import opened Protocol
  import opened SettingModel
  import opened SettingsRules
  import opened SettingsTable
  import opened Wrappers

  /** The request that made commit `c`. */
  ghost function Committer(s: State, c: nat): Request
    requires CommitsOwned(s) && c < |s.log|
  {
    s.requests[s.log[c].req]
  }

  /** Nobody deletes the request's row between its find and its write. */
  ghost predicate Undisturbed(s: State, c: nat)
    requires CommitsOwned(s) && c < |s.log|
  {
    NoDelete(s.log, Committer(s, c).op.Id(), Committer(s, c).foundAt, c)
  }

  /** The row found decodes to the target, and so does any row of the same identity. */
  lemma OwnedFacts(base: ClockBase, t: Table, op: Op)
    requires TableOk(t)
    ensures Owned(base, t, op).Some? <==> op.Id() in t && op.Target().user != Some("")
    ensures Owned(base, t, op).Some? ==>
              var s, row := Owned(base, t, op).value, t[op.Id()];
              && s.key == op.key && s.ownership == op.Target() && s.version == row.version
              && s.value == row.value && 1 <= row.version <= MAX_I32
              && AnyRow(t, op.authority.tenant, op.key)
  {
    if op.Id() in t {
      DecodeOk(base, t[op.Id()]);
      assert IdentityOf(t[op.Id()]) == op.Id();
    }
  }

  lemma InsertChosen(op: Op, anyRow: bool, cur: Option<SettingSnapshot>, plan: Plan)
    requires DecideOn(op, anyRow, cur) == Success(plan) && plan.Insert?
    ensures op.Put? && cur.None?
    ensures plan.next == SettingSnapshot(op.key, op.value, op.Target(), 1, op.now)
  {
  }

  lemma WriteChosen(op: Op, anyRow: bool, cur: Option<SettingSnapshot>, plan: Plan)
    requires DecideOn(op, anyRow, cur) == Success(plan) && !plan.Insert?
    ensures cur == Some(plan.found) && plan.expected == plan.found.version
    ensures plan.Remove? ==> op.Delete? && plan.key == op.key && plan.owner == plan.found.ownership && op.expected == plan.expected
    ensures plan.Update? ==>
              && !op.Delete?
              && (op.Put? ==> plan.next == plan.found.Replaced(op.value, op.now) && op.ifMatch == Some(plan.expected))
              && (op.Patch? ==> plan.found.Patched(op.value, op.now) == Success(plan.next) && op.expected == plan.expected)
  {
  }

  /** A decision to insert. */
  lemma InsertDecided(base: ClockBase, t: Table, op: Op, plan: Plan)
    requires DecideTable(base, t, op) == Success(plan) && plan.Insert?
    ensures op.Put? && Owned(base, t, op).None?
    ensures plan.next == SettingSnapshot(op.key, op.value, op.Target(), 1, op.now)
  {
    InsertChosen(op, AnyRow(t, op.authority.tenant, op.key), Owned(base, t, op), plan);
  }

  /** A decision to update or remove: the row it was made on is at the expected version. */
  lemma WriteDecided(base: ClockBase, t: Table, op: Op, plan: Plan)
    requires TableOk(t) && DecideTable(base, t, op) == Success(plan) && !plan.Insert?
    ensures op.Id() in t && Owned(base, t, op) == Some(plan.found)
    ensures 1 <= plan.expected == plan.found.version == t[op.Id()].version <= MAX_I32
    ensures op.Target().user != Some("")
    ensures plan.Remove? ==> op.Delete? && plan.key == op.key && plan.owner == op.Target() && op.expected == plan.expected
    ensures plan.Update? ==>
              && plan.next.key == op.key && plan.next.ownership == op.Target() && plan.next.updatedAt == op.now
              && (op.Put? ==> plan.next == plan.found.Replaced(op.value, op.now) && op.ifMatch == Some(plan.expected))
              && (op.Patch? ==> plan.found.Patched(op.value, op.now) == Success(plan.next) && op.expected == plan.expected)
              && !op.Delete? && plan.next.version == plan.found.version + 1
  {
    WriteChosen(op, AnyRow(t, op.authority.tenant, op.key), Owned(base, t, op), plan);
    OwnedFacts(base, t, op);
  }

  /** A matched insert found no row of its identity. */
  lemma InsertMatched(base: ClockBase, t0: Table, t: Table, op: Op, plan: Plan)
    requires TableOk(t0) && TableOk(t) && plan.Insert?
    requires DecideTable(base, t0, op) == Success(plan)
    requires Statement(base, t, plan).Wrote?
    ensures op.Id() !in t && Owned(base, t, op).None?
    ensures IdentityOf(Statement(base, t, plan).row) == op.Id()
  {
    InsertDecided(base, t0, op, plan);
    InsertWrites(base, t, plan.next);
  }

  /** A matched update or delete found the target row at the expected version. */
  lemma RowMatched(base: ClockBase, t0: Table, t: Table, op: Op, plan: Plan)
    requires TableOk(t0) && TableOk(t) && !plan.Insert?
    requires DecideTable(base, t0, op) == Success(plan)
    requires Statement(base, t, plan).Wrote?
    ensures op.Id() in t0 && op.Id() in t && plan.expected == t[op.Id()].version == t0[op.Id()].version
    ensures IdentityOf(Statement(base, t, plan).row) == op.Id()
  {
    WriteDecided(base, t0, op, plan);
    if plan.Update? {
      UpdateMatched(base, t, plan, op.Id());
    } else {
      RemoveMatched(base, t, plan, op.Id());
    }
  }

  lemma UpdateMatched(base: ClockBase, t: Table, plan: Plan, id: Identity)
    requires TableOk(t) && plan.Update? && plan.expected <= MAX_I32
    requires OwnedIdentity(plan.next.key, plan.next.ownership) == id
    requires Statement(base, t, plan).Wrote?
    ensures id in t && t[id].version == plan.expected && IdentityOf(Statement(base, t, plan).row) == id
  {
    UpdateWrites(base, t, plan.next, plan.expected);
  }

  lemma RemoveMatched(base: ClockBase, t: Table, plan: Plan, id: Identity)
    requires TableOk(t) && plan.Remove? && plan.expected <= MAX_I32
    requires OwnedIdentity(plan.key, plan.owner) == id
    requires Statement(base, t, plan).Wrote?
    ensures id in t && t[id].version == plan.expected && IdentityOf(Statement(base, t, plan).row) == id
  {
    DeleteWrites(t, plan.key, plan.owner, plan.expected);
  }

  /** ... and that row decodes to the target. */
  lemma RowMatchedOwned(base: ClockBase, t0: Table, t: Table, op: Op, plan: Plan)
    requires TableOk(t0) && TableOk(t) && !plan.Insert?
    requires DecideTable(base, t0, op) == Success(plan)
    requires Statement(base, t, plan).Wrote?
    ensures var cur := Owned(base, t, op);
            && cur.Some? && cur.value.version == plan.expected && cur.value.key == op.key
            && cur.value.ownership == op.Target() && cur.value.value == t[op.Id()].value
    ensures AnyRow(t, op.authority.tenant, op.key)
  {
    RowMatched(base, t0, t, op, plan);
    WriteDecided(base, t0, op, plan);
    OwnedFacts(base, t, op);
  }

  /** Two plans to update that write the same content to the same row do the same. */
  lemma SameUpdate(base: ClockBase, t: Table, p: Plan, q: Plan)
    requires p.Update? && q.Update? && p.expected == q.expected
    requires p.next.key == q.next.key && p.next.ownership == q.next.ownership
    requires p.next.value == q.next.value && p.next.updatedAt == q.next.updatedAt
    ensures Carry(base, t, p) == Carry(base, t, q)
  {
    hide UpdateStmt, IntoDomain;
    SameStatement(base, t, p.next, q.next, p.expected);
    assert Statement(base, t, p) == Statement(base, t, q);
  }

  lemma SameStatement(base: ClockBase, t: Table, a: SettingSnapshot, b: SettingSnapshot, expected: U64)
    requires a.key == b.key && a.ownership == b.ownership && a.value == b.value && a.updatedAt == b.updatedAt
    ensures UpdateStmt(base, t, a, expected) == UpdateStmt(base, t, b, expected)
  {
    hide AsI32, ClockBase.ToMillis;
  }

  /** A matched write of a PUT or DELETE decides and does the same at the moment of its write
      as it did at the moment of its find. */
  lemma PutOrDeleteAsDecided(base: ClockBase, t0: Table, t: Table, op: Op, plan: Plan)
    requires TableOk(t0) && TableOk(t) && !op.Patch?
    requires DecideTable(base, t0, op) == Success(plan)
    requires Statement(base, t, plan).Wrote?
    ensures Execute(base, t, op) == Carry(base, t, plan)
  {
    if plan.Insert? {
      InsertMatched(base, t0, t, op, plan);
      InsertDecided(base, t0, op, plan);
      assert DecideTable(base, t, op) == Success(plan);
    } else {
      WriteDecided(base, t0, op, plan);
      RowMatchedOwned(base, t0, t, op, plan);
      var again := DecideTable(base, t, op).value;
      if op.Put? {
        SameUpdate(base, t, plan, again);
      }
    }
  }

  /** A matched write of a PATCH does what the patch would do at that moment exactly when the
      row it replaces merges to what the row it found merges to. */
  lemma PatchAsDecidedIff(base: ClockBase, t0: Table, t: Table, op: Op, plan: Plan)
    requires TableOk(t0) && TableOk(t) && op.Patch?
    requires DecideTable(base, t0, op) == Success(plan)
    requires Statement(base, t, plan).Wrote?
    ensures plan.Update? && op.Id() in t0 && op.Id() in t
    ensures Execute(base, t, op) == Carry(base, t, plan)
            <==> Merge(t[op.Id()].value, op.value) == Merge(t0[op.Id()].value, op.value)
    ensures Execute(base, t, op).0 == Carry(base, t, plan).0
            <==> Merge(t[op.Id()].value, op.value) == Merge(t0[op.Id()].value, op.value)
  {
    PatchDecided(base, t0, op, plan);
    RowMatched(base, t0, t, op, plan);
    RowMatchedOwned(base, t0, t, op, plan);
    var cur := Owned(base, t, op).value;
    if Merge(cur.value, op.value) == plan.next.value {
      PatchedSame(base, t, op, plan, cur);
    } else {
      PatchedOther(base, t, op, plan, cur);
    }
  }

  /** A decision to patch. */
  lemma PatchDecided(base: ClockBase, t: Table, op: Op, plan: Plan)
    requires TableOk(t) && op.Patch? && DecideTable(base, t, op) == Success(plan)
    ensures plan.Update? && op.Id() in t && op.expected == plan.expected
    ensures plan.next.key == op.key && plan.next.ownership == op.Target() && plan.next.updatedAt == op.now
    ensures plan.next.value == Merge(t[op.Id()].value, op.value)
  {
    if plan.Insert? {
      InsertDecided(base, t, op, plan);
    }
    WriteDecided(base, t, op, plan);
    OwnedFacts(base, t, op);
  }

  /** The decision of a patch on a table where the row is at the expected version. */
  lemma PatchAgain(base: ClockBase, t: Table, op: Op, cur: SettingSnapshot)
    requires op.Patch? && Owned(base, t, op) == Some(cur) && cur.version == op.expected
    requires AnyRow(t, op.authority.tenant, op.key)
    ensures match MergeValues(cur.value, op.value)
            case Success(v) => DecideTable(base, t, op) == Success(Update(cur, cur.Replaced(v, op.now), op.expected))
            case Failure(e) => DecideTable(base, t, op) == Failure(e)
  {
  }

  /** An update that matched leaves the row with the value it writes, one version up. */
  lemma UpdateLeaves(base: ClockBase, t: Table, plan: Plan)
    requires plan.Update? && Statement(base, t, plan).Wrote?
    ensures var id, t' := OwnedIdentity(plan.next.key, plan.next.ownership), Carry(base, t, plan).1;
            id in t && id in t' && t'[id].value == plan.next.value && t'[id].version == t[id].version + 1
  {
    hide AsI32, IntoDomain, ClockBase.ToMillis;
  }

  /** A patch that now merges to the same value does what was decided. */
  lemma PatchedSame(base: ClockBase, t: Table, op: Op, plan: Plan, cur: SettingSnapshot)
    requires op.Patch? && plan.Update?
    requires Owned(base, t, op) == Some(cur) && cur.version == op.expected == plan.expected
    requires AnyRow(t, op.authority.tenant, op.key)
    requires plan.next.key == cur.key && plan.next.ownership == cur.ownership && plan.next.updatedAt == op.now
    requires Merge(cur.value, op.value) == plan.next.value
    ensures Execute(base, t, op) == Carry(base, t, plan)
  {
    PatchAgain(base, t, op, cur);
    SameUpdate(base, t, plan, Update(cur, cur.Replaced(plan.next.value, op.now), op.expected));
  }

  /** An update that matched answers with the value it writes. */
  lemma UpdateTells(base: ClockBase, t: Table, plan: Plan)
    requires TableOk(t) && plan.Update? && Statement(base, t, plan).Wrote?
    ensures var answer := Carry(base, t, plan).0;
            answer.Success? && answer.value.Some? && answer.value.value.value == plan.next.value
  {
    hide AsI32, IntoDomain, UpdateStmt;
    UpdateWritesValue(base, t, plan.next, plan.expected);
    assert Statement(base, t, plan) == UpdateStmt(base, t, plan.next, plan.expected);
    DecodeOk(base, UpdateStmt(base, t, plan.next, plan.expected).row);
  }

  lemma UpdateWritesValue(base: ClockBase, t: Table, next: SettingSnapshot, expected: U64)
    requires TableOk(t) && UpdateStmt(base, t, next, expected).Wrote?
    ensures RowOk(UpdateStmt(base, t, next, expected).row)
    ensures UpdateStmt(base, t, next, expected).row.value == next.value
  {
    hide AsI32, ClockBase.ToMillis;
    UpdateWrites(base, t, next, expected);
  }

  /** A patch that now merges to another value, or to none, does not: its answer is another. */
  lemma PatchedOther(base: ClockBase, t: Table, op: Op, plan: Plan, cur: SettingSnapshot)
    requires TableOk(t) && op.Patch? && plan.Update? && Statement(base, t, plan).Wrote?
    requires Owned(base, t, op) == Some(cur) && cur.version == op.expected == plan.expected
    requires AnyRow(t, op.authority.tenant, op.key)
    requires plan.next.key == cur.key && plan.next.ownership == cur.ownership
    requires Merge(cur.value, op.value) != plan.next.value
    ensures Execute(base, t, op).0 != Carry(base, t, plan).0
  {
    hide Owned, AsI32, Statement, IntoDomain, TableOk, Carry;
    PatchAgain(base, t, op, cur);
    UpdateTells(base, t, plan);
    match MergeValues(cur.value, op.value)
    case Failure(_) =>
    case Success(v) =>
      var p := Update(cur, cur.Replaced(v, op.now), op.expected);
      OtherUpdate(base, t, plan, p);
      assert Execute(base, t, op) == Carry(base, t, p);
  }

  /** Two plans to update the same row with different values answer differently. */
  lemma OtherUpdate(base: ClockBase, t: Table, p: Plan, q: Plan)
    requires TableOk(t) && p.Update? && q.Update? && p.expected == q.expected
    requires p.next.key == q.next.key && p.next.ownership == q.next.ownership
    requires p.next.value != q.next.value
    requires Statement(base, t, p).Wrote?
    ensures Carry(base, t, p).0 != Carry(base, t, q).0
  {
    hide AsI32, IntoDomain, ClockBase.ToMillis, TableOk;
    UpdateTells(base, t, p);
    assert UpdateStmt(base, t, q.next, q.expected).Wrote?;
    UpdateTells(base, t, q);
  }

  /** What the invariant says of commit `c`. */
  lemma CommitFacts(s: State, c: nat)
    requires Inv(s) && c < |s.log|
    ensures var q := Committer(s, c);
            && q.decided.Some? && q.foundAt <= c
            && TableOk(At(s.init, s.log, q.foundAt)) && TableOk(At(s.init, s.log, c))
            && DecideTable(s.base, At(s.init, s.log, q.foundAt), q.op) == Success(q.decided.value)
            && var w := Statement(s.base, At(s.init, s.log, c), q.decided.value);
               && w.Wrote? && s.log[c] == CommitOf(s.log[c].req, q.decided.value, w.row)
               && w.table == At(s.init, s.log, c + 1)
               && s.log[c].id == q.op.Id()
               && Answer(s.base, q.decided.value, w.row).Success?
  {
    var r := s.log[c].req;
    var q := Committer(s, c);
    assert RequestOk(s.base, s.init, s.log, r, q);
    TablesOk(s.init, s.log, q.foundAt);
    TablesOk(s.init, s.log, c);
    AtNext(s.init, s.log, c);
    WriteIsCommit(s.base, At(s.init, s.log, c), r, q.decided.value);
    if q.decided.value.Insert? {
      InsertMatched(s.base, At(s.init, s.log, q.foundAt), At(s.init, s.log, c), q.op, q.decided.value);
    } else {
      RowMatched(s.base, At(s.init, s.log, q.foundAt), At(s.init, s.log, c), q.op, q.decided.value);
    }
  }

  /** The answer the client of commit `c` gets. */
  ghost function AnswerOf(s: State, c: nat): Outcome
    requires CommitsOwned(s) && c < |s.log| && Committer(s, c).decided.Some?
  {
    Answer(s.base, Committer(s, c).decided.value, s.log[c].effect.row)
  }

  /** Carrying out the plan of commit `c` where it stands is what the log records. */
  lemma CarriedCommit(s: State, c: nat)
    requires Inv(s) && c < |s.log|
    ensures Committer(s, c).decided.Some? && AnswerOf(s, c).Success?
    ensures Carry(s.base, At(s.init, s.log, c), Committer(s, c).decided.value) == (AnswerOf(s, c), At(s.init, s.log, c + 1))
  {
    CommitFacts(s, c);
  }

  /** An undisturbed PATCH overwrites the very row it read. */
  lemma UndisturbedRow(s: State, c: nat)
    requires Inv(s) && c < |s.log| && Committer(s, c).op.Patch? && Undisturbed(s, c)
    ensures var q := Committer(s, c);
            var t0, t := At(s.init, s.log, q.foundAt), At(s.init, s.log, c);
            q.op.Id() in t0 && q.op.Id() in t && t0[q.op.Id()] == t[q.op.Id()]
  {
    CommitFacts(s, c);
    var q := Committer(s, c);
    var t0, t := At(s.init, s.log, q.foundAt), At(s.init, s.log, c);
    PatchDecided(s.base, t0, q.op, q.decided.value);
    RowMatched(s.base, t0, t, q.op, q.decided.value);
    SameVersionSameRow(s.init, s.log, q.op.Id(), q.foundAt, c);
  }

  /** A commit is the whole request run alone at the moment of its write. */
  lemma CommitAlone(s: State, c: nat)
    requires Inv(s) && c < |s.log|
    requires Committer(s, c).op.Patch? ==> Undisturbed(s, c)
    ensures Committer(s, c).decided.Some? && AnswerOf(s, c).Success? && RowsAlike(s, c)
    ensures Execute(s.base, At(s.init, s.log, c), Committer(s, c).op) == (AnswerOf(s, c), At(s.init, s.log, c + 1))
  {
    hide Execute, AnswerOf, Merge;
    AloneIff(s, c);
    if Committer(s, c).op.Patch? {
      CommitFacts(s, c);
      UndisturbedRow(s, c);
    }
  }

  /** If commit `c` is a PATCH, the row it overwrote and the row it had read merge with the patch
      to the same value. */
  ghost predicate RowsAlike(s: State, c: nat)
    requires CommitsOwned(s) && c < |s.log|
  {
    var q := Committer(s, c);
    q.op.Patch? ==>
      && q.foundAt <= c
      && var t0, t := At(s.init, s.log, q.foundAt), At(s.init, s.log, c);
         && q.op.Id() in t0 && q.op.Id() in t
         && Merge(t[q.op.Id()].value, q.op.value) == Merge(t0[q.op.Id()].value, q.op.value)
  }

  /** Exactly when a commit is its request run alone at its write; the answer alone tells. */
  lemma AloneIff(s: State, c: nat)
    requires Inv(s) && c < |s.log|
    ensures Committer(s, c).decided.Some? && AnswerOf(s, c).Success?
    ensures Execute(s.base, At(s.init, s.log, c), Committer(s, c).op) == (AnswerOf(s, c), At(s.init, s.log, c + 1))
            <==> RowsAlike(s, c)
    ensures Execute(s.base, At(s.init, s.log, c), Committer(s, c).op).0 == AnswerOf(s, c) <==> RowsAlike(s, c)
  {
    hide Execute, Carry, Statement, AnswerOf, Merge;
    CommitFacts(s, c);
    CarriedCommit(s, c);
    var q := Committer(s, c);
    var t0, t := At(s.init, s.log, q.foundAt), At(s.init, s.log, c);
    if q.op.Patch? {
      PatchAsDecidedIff(s.base, t0, t, q.op, q.decided.value);
    } else {
      PutOrDeleteAsDecided(s.base, t0, t, q.op, q.decided.value);
    }
  }

  /** In any run, a commit is the whole request run alone at the moment of its write: same answer,
      same table. For a PATCH this needs its row not to be deleted between its find and its
      write. */
  lemma CommitLinearizes(s: State, c: nat)
    requires Reachable(s) && CommitsOwned(s) && c < |s.log|
    requires Committer(s, c).op.Patch? ==> Undisturbed(s, c)
    ensures Committer(s, c).decided.Some? && AnswerOf(s, c).Success?
    ensures Execute(s.base, At(s.init, s.log, c), Committer(s, c).op) == (AnswerOf(s, c), At(s.init, s.log, c + 1))
  {
    hide Execute, Inv, AnswerOf;
    ReachableInv(s);
    CommitAlone(s, c);
  }

  /** What the row a PATCH overwrites has to be for it to be its request run alone. */
  lemma PatchAloneIff(s: State, c: nat)
    requires Inv(s) && c < |s.log| && Committer(s, c).op.Patch?
    ensures MergesAlike(s, c)
  {
    CommitFacts(s, c);
    CarriedCommit(s, c);
    var q := Committer(s, c);
    PatchAsDecidedIff(s.base, At(s.init, s.log, q.foundAt), At(s.init, s.log, c), q.op, q.decided.value);
  }

  /** The PATCH of commit `c` is its request run alone at its write if and only if the row it
      overwrites merges to the same value as the row it read. */
  ghost predicate MergesAlike(s: State, c: nat)
    requires CommitsOwned(s) && c < |s.log|
  {
    var q := Committer(s, c);
    && q.op.Patch? && q.decided.Some? && q.foundAt <= c
    && var t0, t := At(s.init, s.log, q.foundAt), At(s.init, s.log, c);
       && q.op.Id() in t0 && q.op.Id() in t
       && (Execute(s.base, t, q.op) == (AnswerOf(s, c), At(s.init, s.log, c + 1))
           <==> Merge(t[q.op.Id()].value, q.op.value) == Merge(t0[q.op.Id()].value, q.op.value))
  }

  /** The exact condition for a PATCH, in any run. */
  lemma PatchLinearizesIff(s: State, c: nat)
    requires Reachable(s) && CommitsOwned(s) && c < |s.log| && Committer(s, c).op.Patch?
    ensures MergesAlike(s, c)
  {
    hide MergesAlike, Inv;
    ReachableInv(s);
    PatchAloneIff(s, c);
  }

  /** A conditional write that matched hit a row nobody had touched since its find exactly when
      nobody had deleted it: otherwise the row was deleted, created again, and had come to the
      version that was expected. This holds for PUT and DELETE as for PATCH. */
  lemma FreshMatchIff(s: State, c: nat)
    requires Reachable(s) && CommitsOwned(s) && c < |s.log|
    requires Committer(s, c).decided.Some? && !Committer(s, c).decided.value.Insert?
    ensures Committer(s, c).foundAt <= c
    ensures Untouched(s.log, s.log[c].id, Committer(s, c).foundAt, c) <==> Undisturbed(s, c)
  {
    hide Inv;
    ReachableInv(s);
    ReachableLogOk(s);
    CommitFacts(s, c);
    var q := Committer(s, c);
    RowMatched(s.base, At(s.init, s.log, q.foundAt), At(s.init, s.log, c), q.op, q.decided.value);
    if Undisturbed(s, c) {
      SameVersionSameRow(s.init, s.log, q.op.Id(), q.foundAt, c);
    }
  }

  lemma ReachableLogOk(s: State)
    requires Reachable(s)
    ensures LogOk(s.init, s.log)
  {
    ReachableInv(s);
  }

  // --- The whole run ---

  /** Requests run one after the other, each to its end: their answers and the last table. */
  ghost function RunInTurn(base: ClockBase, t: Table, ops: seq<Op>): (seq<Outcome>, Table) {
    if ops == [] then ([], t)
    else
      var (answers, t1) := RunInTurn(base, t, ops[..|ops| - 1]);
      var (answer, t2) := Execute(base, t1, ops[|ops| - 1]);
      (answers + [answer], t2)
  }

  /** The operations of the first `n` commits. */
  ghost function CommittedOps(s: State, n: nat): seq<Op>
    requires CommitsOwned(s) && n <= |s.log|
  {
    seq(n, i requires 0 <= i < n => Committer(s, i).op)
  }

  /** No PATCH has its row deleted between its find and its write. */
  ghost predicate NoStalePatch(s: State)
    requires CommitsOwned(s)
  {
    forall c | 0 <= c < |s.log| :: Committer(s, c).op.Patch? ==> Undisturbed(s, c)
  }

  ghost predicate EveryRowAlike(s: State)
    requires CommitsOwned(s)
  {
    forall c | 0 <= c < |s.log| :: RowsAlike(s, c)
  }

  /** A chain of requests each run alone is the run in turn. */
  lemma {:induction false} ChainInTurn(base: ClockBase, ops: seq<Op>, answers: seq<Outcome>, tables: seq<Table>)
    requires |answers| == |ops| && |tables| == |ops| + 1
    requires forall i | 0 <= i < |ops| :: Execute(base, tables[i], ops[i]) == (answers[i], tables[i + 1])
    ensures RunInTurn(base, tables[0], ops) == (answers, tables[|ops|])
  {
    hide Execute;
    if ops != [] {
      var n := |ops| - 1;
      ChainInTurn(base, ops[..n], answers[..n], tables[..n + 1]);
      assert Execute(base, tables[n], ops[n]) == (answers[n], tables[n + 1]);
      assert answers[..n] + [answers[n]] == answers;
    }
  }

  /** The answers of the commits, in order. */
  ghost function Answers(s: State): seq<Outcome>
    requires CommitsOwned(s) && forall c | 0 <= c < |s.log| :: Committer(s, c).decided.Some?
  {
    seq(|s.log|, c requires 0 <= c < |s.log| => AnswerOf(s, c))
  }

  lemma InitialAndLast(s: State)
    requires Inv(s)
    ensures At(s.init, s.log, 0) == s.init && At(s.init, s.log, |s.log|) == s.table
  {
    assert s.log[..0] == [];
  }

  /** Requests run in turn that answer as expected are all `alike`, when from the expected table
      one that answers as expected is alike, and one that is alike also leaves the next table. */
  lemma {:induction false} InTurnAlike(base: ClockBase, ops: seq<Op>, answers: seq<Outcome>, tables: seq<Table>, alike: seq<bool>)
    requires |answers| == |alike| == |ops| && |tables| == |ops| + 1
    requires forall i | 0 <= i < |ops| :: Execute(base, tables[i], ops[i]).0 == answers[i] ==> alike[i]
    requires forall i | 0 <= i < |ops| :: alike[i] ==> Execute(base, tables[i], ops[i]) == (answers[i], tables[i + 1])
    requires RunInTurn(base, tables[0], ops).0 == answers
    ensures forall i | 0 <= i < |ops| :: alike[i]
    ensures RunInTurn(base, tables[0], ops).1 == tables[|ops|]
  {
    hide Execute;
    if ops != [] {
      var n := |ops| - 1;
      var before := RunInTurn(base, tables[0], ops[..n]);
      var last := Execute(base, before.1, ops[n]);
      InTurnLength(base, tables[0], ops[..n]);
      assert answers == before.0 + [last.0];
      assert answers[..n] == before.0 && answers[n] == last.0;
      InTurnAlike(base, ops[..n], answers[..n], tables[..n + 1], alike[..n]);
      assert before.1 == tables[n];
    }
  }

  lemma {:induction false} InTurnLength(base: ClockBase, t: Table, ops: seq<Op>)
    ensures |RunInTurn(base, t, ops).0| == |ops|
  {
    hide Execute;
    if ops != [] {
      InTurnLength(base, t, ops[..|ops| - 1]);
    }
  }

  lemma AllInTurn(s: State)
    requires Inv(s) && EveryRowAlike(s)
    ensures forall c | 0 <= c < |s.log| :: Committer(s, c).decided.Some?
    ensures RunInTurn(s.base, s.init, CommittedOps(s, |s.log|)) == (Answers(s), s.table)
  {
    hide Execute, Replay, RowsAlike;
    InitialAndLast(s);
    forall c | 0 <= c < |s.log|
      ensures Committer(s, c).decided.Some?
      ensures Execute(s.base, At(s.init, s.log, c), Committer(s, c).op) == (AnswerOf(s, c), At(s.init, s.log, c + 1))
    {
      AloneIff(s, c);
    }
    var tables := seq(|s.log| + 1, c requires 0 <= c <= |s.log| => At(s.init, s.log, c));
    ChainInTurn(s.base, CommittedOps(s, |s.log|), Answers(s), tables);
  }

  lemma AnswersInTurn(s: State)
    requires Inv(s) && CommitsOwned(s)
    requires forall c | 0 <= c < |s.log| :: Committer(s, c).decided.Some?
    requires RunInTurn(s.base, s.init, CommittedOps(s, |s.log|)).0 == Answers(s)
    ensures EveryRowAlike(s)
  {
    hide Execute, Replay, RowsAlike, AnswerOf, RunInTurn, Inv;
    InitialAndLast(s);
    forall c | 0 <= c < |s.log|
      ensures Execute(s.base, At(s.init, s.log, c), Committer(s, c).op) == (AnswerOf(s, c), At(s.init, s.log, c + 1)) <==> RowsAlike(s, c)
      ensures Execute(s.base, At(s.init, s.log, c), Committer(s, c).op).0 == AnswerOf(s, c) <==> RowsAlike(s, c)
    {
      AloneIff(s, c);
    }
    var tables := seq(|s.log| + 1, c requires 0 <= c <= |s.log| => At(s.init, s.log, c));
    var alike := seq(|s.log|, c requires 0 <= c < |s.log| => RowsAlike(s, c));
    InTurnAlike(s.base, CommittedOps(s, |s.log|), Answers(s), tables, alike);
    forall c | 0 <= c < |s.log| ensures RowsAlike(s, c) {
      assert alike[c];
    }
  }

  /** A request that succeeded did so by a commit, and was told that commit's answer. */
  lemma SuccessIsCommit(s: State, r: nat) returns (c: nat)
    requires Inv(s) && r in s.requests
    requires s.requests[r].phase.Finished? && s.requests[r].phase.outcome.Success?
    ensures c < |s.log| && s.log[c].req == r && Committer(s, c).decided.Some?
    ensures AnswerOf(s, c) == s.requests[r].phase.outcome
  {
    assert RequestOk(s.base, s.init, s.log, r, s.requests[r]);
    c := s.requests[r].attempt.at;
    WonIsOwn(s.base, s.init, s.log, r, s.requests[r]);
  }

  lemma WonIsOwn(base: ClockBase, init: Table, log: seq<Commit>, r: nat, q: Request)
    requires RequestOk(base, init, log, r, q) && q.attempt.Won?
    ensures q.attempt.at < |log| && log[q.attempt.at].req == r
  {
  }

  /** Request `r` was told the outcome its commit has in `answers`. */
  ghost predicate ToldTheTruth(s: State, r: nat, answers: seq<Outcome>)
    requires r in s.requests && s.requests[r].phase.Finished?
  {
    exists c :: 0 <= c < |s.log| && c < |answers| && s.log[c].req == r && answers[c] == s.requests[r].phase.outcome
  }

  /** Any interleaved run is, one after the other, the run of the requests that committed, in the
      order of their commits (the same answers and the same final table) if and only if every
      PATCH overwrote a row that merges as the row it had read. That is so when no PATCH has its
      row deleted under it. Every client that was told of success was told its commit's answer. */
  lemma RunLinearizes(s: State)
    requires Reachable(s)
    ensures CommitsOwned(s) && forall c | 0 <= c < |s.log| :: Committer(s, c).decided.Some?
    ensures RunInTurn(s.base, s.init, CommittedOps(s, |s.log|)) == (Answers(s), s.table) <==> EveryRowAlike(s)
    ensures RunInTurn(s.base, s.init, CommittedOps(s, |s.log|)).0 == Answers(s) <==> EveryRowAlike(s)
    ensures NoStalePatch(s) ==> EveryRowAlike(s)
    ensures forall r | r in s.requests && s.requests[r].phase.Finished? && s.requests[r].phase.outcome.Success? ::
              ToldTheTruth(s, r, Answers(s))
  {
    hide Inv, Execute, AnswerOf, RowsAlike, RunInTurn;
    ReachableInv(s);
    forall c | 0 <= c < |s.log|
      ensures Committer(s, c).decided.Some?
      ensures (Committer(s, c).op.Patch? ==> Undisturbed(s, c)) ==> RowsAlike(s, c)
    {
      AloneIff(s, c);
      if Committer(s, c).op.Patch? ==> Undisturbed(s, c) {
        CommitAlone(s, c);
      }
    }
    if EveryRowAlike(s) {
      AllInTurn(s);
    }
    if RunInTurn(s.base, s.init, CommittedOps(s, |s.log|)).0 == Answers(s) {
      AnswersInTurn(s);
    }
    forall r | r in s.requests && s.requests[r].phase.Finished? && s.requests[r].phase.outcome.Success?
      ensures ToldTheTruth(s, r, Answers(s))
    {
      var c := SuccessIsCommit(s, r);
      assert Answers(s)[c] == AnswerOf(s, c);
    }
  }

  /** A request that ends in an error never changed the table: the table is the replay of the
      commits, and none of them is its own. */
  lemma FailureLeavesNoTrace(s: State, r: nat)
    requires Reachable(s)
    requires r in s.requests && s.requests[r].phase.Finished? && s.requests[r].phase.outcome.Failure?
    ensures s.table == Replay(s.init, s.log)
    ensures forall c | 0 <= c < |s.log| :: s.log[c].req != r
  {
    ReachableInv(s);
    assert s.log[..|s.log|] == s.log;
    assert RequestOk(s.base, s.init, s.log, r, s.requests[r]);
  }
}
