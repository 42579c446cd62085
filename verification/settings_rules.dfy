/** The business rules of the settings service: what each request decides from the rows it
    finds, and the whole request run without interference. */
module SettingsRules {
  import opened AuthModel
  import opened SettingModel
  import opened SettingsTable
  import opened Wrappers

  /** A mutation with the `If-Match` version the client sent; `now` is its instant. */
  datatype Op =
    | Put(key: SettingKey, authority: Authority, value: SettingValue, ifMatch: Option<U64>, now: int)
    | Patch(key: SettingKey, authority: Authority, value: SettingValue, expected: U64, now: int)
    | Delete(key: SettingKey, authority: Authority, expected: U64)
  {
    function Target(): Ownership {
      authority.ScopeOwnership()
    }

    /** The row the request writes. */
    function Id(): Identity {
      OwnedIdentity(key, Target())
    }
  }

  /** An admin writes the row of the tenant that has no user, a user their own. */
  lemma WritesTo(op: Op)
    ensures op.Id() == Identity(op.authority.tenant, if op.authority.role.Admin? then "" else op.authority.user, op.key)
  {
  }

  /** The conditional write a request decided on. */
  datatype Plan =
    | Insert(next: SettingSnapshot)
    | Update(found: SettingSnapshot, next: SettingSnapshot, expected: U64)
    | Remove(found: SettingSnapshot, key: SettingKey, owner: Ownership, expected: U64)

  /** The aggregate a request answers with; a delete answers with nothing. */
  type Outcome = Result<Option<SettingSnapshot>, SettingsError>

  // --- Deciding from the rows found ---

  /** The first row that belongs to `target`. */
  function FirstOwned(rows: seq<SettingSnapshot>, target: Ownership): Option<SettingSnapshot> {
    if rows == [] then None
    else if rows[0].ownership == target then Some(rows[0])
    else FirstOwned(rows[1..], target)
  }

  /** The first row that `a` may read. */
  function FirstReadable(rows: seq<SettingSnapshot>, a: Authority): Option<SettingSnapshot> {
    if rows == [] then None
    else if a.CanRead(rows[0].ownership) then Some(rows[0])
    else FirstReadable(rows[1..], a)
  }

  /** The decision once the search for the target row is over; `anyRow` is whether any row of
      the tenant has the key. */
  function DecideOn(op: Op, anyRow: bool, cur: Option<SettingSnapshot>): Result<Plan, SettingsError> {
    match op
    case Put(key, _, value, ifMatch, now) =>
      if cur.Some? then
        if ifMatch.None? then Failure(VersionConflict)
        else if ifMatch.value != cur.value.version then Failure(VersionConflict)
        else Success(Update(cur.value, cur.value.Replaced(value, now), ifMatch.value))
      else Success(Insert(SettingSnapshot(key, value, op.Target(), 1, now)))
    case Patch(_, _, patch, expected, now) =>
      if !anyRow then Failure(NotFound)
      else if cur.None? then Failure(Forbidden)
      else if expected != cur.value.version then Failure(VersionConflict)
      else
        (match cur.value.Patched(patch, now)
         case Failure(e) => Failure(e)
         case Success(next) => Success(Update(cur.value, next, expected)))
    case Delete(key, _, expected) =>
      if !anyRow then Failure(NotFound)
      else if cur.None? then Failure(Forbidden)
      else if expected != cur.value.version then Failure(VersionConflict)
      else Success(Remove(cur.value, key, cur.value.ownership, expected))
  }

  /** The decision from the answer of the find statement. */
  function Decide(op: Op, found: Result<seq<SettingSnapshot>, SettingsError>): Result<Plan, SettingsError> {
    match found
    case Failure(e) => Failure(e)
    case Success(rows) => DecideOn(op, rows != [], FirstOwned(rows, op.Target()))
  }

  // --- Deciding from the table itself ---

  ghost predicate AnyRow(t: Table, tenant: string, key: string) {
    exists id :: id in t && id.tenant == tenant && id.key == key
  }

  /** The row the request writes, if it decodes to the ownership the request writes to. */
  function Owned(base: ClockBase, t: Table, op: Op): Option<SettingSnapshot> {
    if op.Id() in t && DecodedOwnership(t[op.Id()]) == op.Target() then
      match IntoDomain(base, t[op.Id()])
      case Success(s) => Some(s)
      case Failure(_) => None
    else None
  }

  ghost function DecideTable(base: ClockBase, t: Table, op: Op): Result<Plan, SettingsError> {
    DecideOn(op, AnyRow(t, op.authority.tenant, op.key), Owned(base, t, op))
  }

  lemma {:induction false} FirstOwnedAt(rows: seq<SettingSnapshot>, target: Ownership)
    ensures match FirstOwned(rows, target)
            case Some(s) => s in rows && s.ownership == target
            case None => forall s | s in rows :: s.ownership != target
  {
    if rows != [] && rows[0].ownership != target {
      FirstOwnedAt(rows[1..], target);
    }
  }

  /** What the find statement returns: one decoded row per listed identity. */
  lemma {:induction false} FoundRows(base: ClockBase, t: Table, tenant: string, key: string, ids: seq<Identity>)
    requires TableOk(t)
    requires IsFindOrder(t, tenant, key, ids)
    ensures var d := DecodeAll(base, RowsOf(t, ids));
            && d.Success? && |d.value| == |ids|
            && forall i | 0 <= i < |ids| :: ids[i] in t && IntoDomain(base, t[ids[i]]) == Success(d.value[i])
  {
    var rows := RowsOf(t, ids);
    forall r | r in rows ensures RowOk(r) {
      var i :| 0 <= i < |rows| && rows[i] == r;
      assert ids[i] in ids;
    }
    DecodeAllOk(base, rows);
    forall i | 0 <= i < |ids|
      ensures ids[i] in t && IntoDomain(base, t[ids[i]]) == Success(DecodeAll(base, rows).value[i])
    {
      assert ids[i] in ids;
      assert rows[i] == t[ids[i]];
    }
  }

  /** A decoded row belongs to the target exactly when it is the target row. */
  lemma OwnedRow(base: ClockBase, t: Table, op: Op, id: Identity, s: SettingSnapshot)
    requires TableOk(t) && id in t && id.tenant == op.authority.tenant && id.key == op.key
    requires IntoDomain(base, t[id]) == Success(s)
    ensures s.ownership == op.Target() ==> id == op.Id() && Owned(base, t, op) == Some(s)
    ensures id == op.Id() && Owned(base, t, op).Some? ==> Owned(base, t, op) == Some(s) && s.ownership == op.Target()
  {
    DecodeOk(base, t[id]);
    assert IdentityOf(t[id]) == id;
  }

  lemma AnyRowFound(base: ClockBase, t: Table, tenant: string, key: string, ids: seq<Identity>)
    requires IsFindOrder(t, tenant, key, ids)
    ensures ids != [] <==> AnyRow(t, tenant, key)
  {
    if ids != [] { assert ids[0] in ids; }
  }

  lemma {:induction false} ScanFindsOwned(base: ClockBase, t: Table, op: Op, ids: seq<Identity>, found: seq<SettingSnapshot>)
    requires TableOk(t)
    requires IsFindOrder(t, op.authority.tenant, op.key, ids)
    requires |found| == |ids|
    requires forall i | 0 <= i < |ids| :: ids[i] in t && IntoDomain(base, t[ids[i]]) == Success(found[i])
    ensures FirstOwned(found, op.Target()) == Owned(base, t, op)
  {
    FirstOwnedAt(found, op.Target());
    forall i | 0 <= i < |found|
      ensures found[i].ownership == op.Target() ==> Owned(base, t, op) == Some(found[i])
      ensures ids[i] == op.Id() && Owned(base, t, op).Some? ==>
                Owned(base, t, op) == Some(found[i]) && found[i].ownership == op.Target()
    {
      assert ids[i] in ids;
      OwnedRow(base, t, op, ids[i], found[i]);
    }
    if Owned(base, t, op).Some? {
      assert op.Id() in ids;
      var i :| 0 <= i < |ids| && ids[i] == op.Id();
      assert found[i] in found;
    }
  }

  /** Whatever the order of the rows, scanning what the find statement returns decides what
      looking up the target row decides. */
  lemma {:induction false} ScanIsLookup(base: ClockBase, t: Table, op: Op, ids: seq<Identity>)
    requires TableOk(t)
    requires IsFindOrder(t, op.authority.tenant, op.key, ids)
    ensures Decide(op, DecodeAll(base, RowsOf(t, ids))) == DecideTable(base, t, op)
  {
    FoundRows(base, t, op.authority.tenant, op.key, ids);
    var found := DecodeAll(base, RowsOf(t, ids)).value;
    AnyRowFound(base, t, op.authority.tenant, op.key, ids);
    ScanFindsOwned(base, t, op, ids, found);
  }

  // --- Writing ---

  function Statement(base: ClockBase, t: Table, plan: Plan): WriteAnswer {
    match plan
    case Insert(next) => InsertStmt(base, t, next)
    case Update(_, next, expected) => UpdateStmt(base, t, next, expected)
    case Remove(_, key, owner, expected) => DeleteStmt(t, key, owner, expected)
  }

  /** Is the row of the plan still there? Asked only after a conditional write missed. */
  predicate StillExists(t: Table, plan: Plan) {
    match plan
    case Insert(next) => ExistsStmt(t, next.key, next.ownership)
    case Update(_, next, _) => ExistsStmt(t, next.key, next.ownership)
    case Remove(_, key, owner, _) => ExistsStmt(t, key, owner)
  }

  /** The error of a conditional write that matched no row. */
  function MissError(plan: Plan, present: bool): SettingsError {
    if plan.Insert? then Conflict else if present then VersionConflict else NotFound
  }

  /** The answer to the client of a write that matched. */
  function Answer(base: ClockBase, plan: Plan, row: Row): Outcome {
    if plan.Remove? then Success(None)
    else
      match IntoDomain(base, row)
      case Success(s) => Success(Some(s))
      case Failure(e) => Failure(e)
  }

  /** A plan carried out on an undisturbed table. */
  function Carry(base: ClockBase, t: Table, plan: Plan): (Outcome, Table) {
    match Statement(base, t, plan)
    case Wrote(row, t') => (Answer(base, plan, row), t')
    case Missed => (Failure(MissError(plan, StillExists(t, plan))), t)
    case Overflowed => (Failure(Internal), t)
  }

  /** The sequential specification: a whole request run with nothing in between. */
  ghost function Execute(base: ClockBase, t: Table, op: Op): (Outcome, Table) {
    match DecideTable(base, t, op)
    case Failure(e) => (Failure(e), t)
    case Success(plan) => Carry(base, t, plan)
  }

  /** The answer of a put or patch, as an outcome. */
  function Answered(r: Result<SettingSnapshot, SettingsError>): Outcome {
    match r
    case Success(s) => Success(Some(s))
    case Failure(e) => Failure(e)
  }

  /** The answer of a delete, as an outcome. */
  function Done(r: Result<(), SettingsError>): Outcome {
    match r
    case Success(_) => Success(None)
    case Failure(e) => Failure(e)
  }

  /** The outcome and table of a request, given what its find statement returned. */
  function Concluded(base: ClockBase, t: Table, decision: Result<Plan, SettingsError>): (Outcome, Table) {
    match decision
    case Failure(e) => (Failure(e), t)
    case Success(plan) => Carry(base, t, plan)
  }

  /** A request that scans what it found, in whatever order, and carries its decision out is
      `Execute`. */
  lemma ExecuteFromFind(base: ClockBase, t: Table, op: Op, found: Decoded)
    requires TableOk(t)
    requires IsFindAnswer(base, t, op.authority.tenant, op.key, found)
    ensures Execute(base, t, op) == Concluded(base, t, Decide(op, found))
  {
    hide Carry, DecodeAll, DecideTable, Decide;
    var ids :| IsFindOrder(t, op.authority.tenant, op.key, ids) && found == DecodeAll(base, RowsOf(t, ids));
    ScanIsLookup(base, t, op, ids);
  }

  /** Carrying out a plan does not look at the row it was decided on. */
  lemma CarryIgnoresFound(base: ClockBase, t: Table, found: SettingSnapshot, next: SettingSnapshot, expected: U64)
    ensures Carry(base, t, Update(found, next, expected)) == Carry(base, t, Update(next, next, expected))
    ensures forall key, owner :: Carry(base, t, Remove(found, key, owner, expected)) == Carry(base, t, Remove(next, key, owner, expected))
  {
    var p, q := Update(found, next, expected), Update(next, next, expected);
    assert Statement(base, t, p) == Statement(base, t, q);
  }

  lemma OwnedIsOwn(base: ClockBase, t: Table, op: Op)
    requires TableOk(t)
    ensures Owned(base, t, op).Some? ==> Owned(base, t, op).value.key == op.key && Owned(base, t, op).value.ownership == op.Target()
  {
    if op.Id() in t {
      DecodeOk(base, t[op.Id()]);
      assert IdentityOf(t[op.Id()]) == op.Id();
    }
  }

  lemma PlanKind(op: Op, anyRow: bool, cur: Option<SettingSnapshot>, plan: Plan)
    requires DecideOn(op, anyRow, cur) == Success(plan)
    ensures plan.Remove? <==> op.Delete?
  {
    hide SettingSnapshot.Patched, SettingSnapshot.Replaced, Op.Target;
    match op
    case Put(_, _, _, _, _) =>
    case Patch(_, _, _, _, _) =>
    case Delete(_, _, _) =>
  }

  lemma PlanOwn(op: Op, anyRow: bool, cur: Option<SettingSnapshot>, plan: Plan)
    requires DecideOn(op, anyRow, cur) == Success(plan) && !plan.Remove?
    requires cur.Some? ==> cur.value.key == op.key && cur.value.ownership == op.Target()
    ensures plan.next.key == op.key && plan.next.ownership == op.Target()
  {
    hide MergeValues;
  }

  /** A put or patch decides to write a setting of the key it names to its own row. */
  lemma DecidedOwn(base: ClockBase, t: Table, op: Op, plan: Plan)
    requires TableOk(t) && DecideTable(base, t, op) == Success(plan)
    ensures if op.Delete? then plan.Remove?
            else !plan.Remove? && OwnedIdentity(plan.next.key, plan.next.ownership) == op.Id()
  {
    hide Owned, AnyRow, TableOk, DecideOn;
    OwnedIsOwn(base, t, op);
    PlanKind(op, AnyRow(t, op.authority.tenant, op.key), Owned(base, t, op), plan);
    if !plan.Remove? {
      PlanOwn(op, AnyRow(t, op.authority.tenant, op.key), Owned(base, t, op), plan);
    }
  }

  /** What a matched write stores is under the identity of its plan. */
  lemma StoredOwn(base: ClockBase, t: Table, plan: Plan)
    requires TableOk(t) && !plan.Remove? && Statement(base, t, plan).Wrote?
    ensures IdentityOf(Statement(base, t, plan).row) == OwnedIdentity(plan.next.key, plan.next.ownership)
    ensures RowOk(Statement(base, t, plan).row)
  {
    if plan.Insert? {
      InsertWrites(base, t, plan.next);
    } else {
      UpdateWrites(base, t, plan.next, plan.expected);
    }
  }

  /** What a put or patch answers is a setting of the key it names, in the tenant of its
      authority; a delete answers nothing. */
  lemma AnswerIsOwn(base: ClockBase, t: Table, op: Op)
    requires TableOk(t)
    ensures var answer := Execute(base, t, op).0;
            answer.Success? ==>
              if op.Delete? then answer.value.None?
              else answer.value.Some? && answer.value.value.key == op.key && answer.value.value.ownership.tenant == op.authority.tenant
  {
    hide DecideTable, Statement, IntoDomain, TableOk, RowOk;
    if DecideTable(base, t, op).Success? {
      var plan := DecideTable(base, t, op).value;
      DecidedOwn(base, t, op, plan);
      if !plan.Remove? && Statement(base, t, plan).Wrote? {
        StoredOwn(base, t, plan);
        DecodeOk(base, Statement(base, t, plan).row);
      }
    }
  }

  // --- Reading ---

  ghost function GetTable(base: ClockBase, t: Table, ids: seq<Identity>, a: Authority): Result<SettingSnapshot, SettingsError>
    requires forall id | id in ids :: id in t
  {
    GetFrom(DecodeAll(base, RowsOf(t, ids)), a)
  }

  /** The answer of a read, given what its find statement returned. */
  function GetFrom(found: Decoded, a: Authority): Result<SettingSnapshot, SettingsError> {
    match found
    case Failure(e) => Failure(e)
    case Success(rows) =>
      if rows == [] then Failure(NotFound)
      else match FirstReadable(rows, a) case Some(s) => Success(s) case None => Failure(Forbidden)
  }

  lemma {:induction false} FirstReadableAt(rows: seq<SettingSnapshot>, a: Authority, i: nat)
    requires i < |rows| && a.CanRead(rows[i].ownership)
    requires forall j | 0 <= j < i :: !a.CanRead(rows[j].ownership)
    ensures FirstReadable(rows, a) == Some(rows[i])
  {
    if i > 0 {
      FirstReadableAt(rows[1..], a, i - 1);
    }
  }

  lemma {:induction false} NoneReadable(rows: seq<SettingSnapshot>, a: Authority)
    requires forall j | 0 <= j < |rows| :: !a.CanRead(rows[j].ownership)
    ensures FirstReadable(rows, a) == None
  {
    if rows != [] {
      NoneReadable(rows[1..], a);
    }
  }

  /** The read rule: an admin sees the tenant-scoped row before their own. */
  ghost function GetRule(base: ClockBase, t: Table, key: string, a: Authority): Result<SettingSnapshot, SettingsError> {
    if !AnyRow(t, a.tenant, key) then Failure(NotFound)
    else if a.role.Admin? && Identity(a.tenant, "", key) in t then IntoDomain(base, t[Identity(a.tenant, "", key)])
    else if a.user != "" && Identity(a.tenant, a.user, key) in t then IntoDomain(base, t[Identity(a.tenant, a.user, key)])
    else Failure(Forbidden)
  }

  /** A decoded row is readable exactly when the read rule can pick it. */
  lemma ReadableRow(base: ClockBase, t: Table, key: string, a: Authority, id: Identity, s: SettingSnapshot)
    requires TableOk(t) && id in t && id.tenant == a.tenant && id.key == key
    requires IntoDomain(base, t[id]) == Success(s)
    ensures a.CanRead(s.ownership) <==> (a.role.Admin? && id.user == "") || (a.user != "" && id.user == a.user)
  {
    DecodeOk(base, t[id]);
    assert IdentityOf(t[id]) == id;
  }

  /** Only the first row the find statement lists can have a null or empty user. */
  lemma SharedRowIsFirst(t: Table, tenant: string, key: string, ids: seq<Identity>, i: nat)
    requires TableOk(t) && IsFindOrder(t, tenant, key, ids)
    requires 0 < i < |ids|
    ensures ids[i].user != ""
  {
    assert ids[0] in ids && ids[i] in ids && ids[0] != ids[i];
    assert NullsFirstLe(t[ids[0]].user, t[ids[i]].user);
  }

  /** What the scan for the first readable row sees, row by row. */
  lemma {:induction false} ReadableRows(base: ClockBase, t: Table, key: string, a: Authority, ids: seq<Identity>, found: seq<SettingSnapshot>)
    requires TableOk(t)
    requires IsFindOrder(t, a.tenant, key, ids)
    requires DecodeAll(base, RowsOf(t, ids)) == Success(found)
    ensures |found| == |ids|
    ensures forall i | 0 <= i < |ids| :: ids[i] in t && IntoDomain(base, t[ids[i]]) == Success(found[i])
    ensures forall i | 0 <= i < |ids| ::
              a.CanRead(found[i].ownership) <==> (a.role.Admin? && ids[i].user == "") || (a.user != "" && ids[i].user == a.user)
  {
    FoundRows(base, t, a.tenant, key, ids);
    forall i | 0 <= i < |ids|
      ensures a.CanRead(found[i].ownership) <==> (a.role.Admin? && ids[i].user == "") || (a.user != "" && ids[i].user == a.user)
    {
      assert ids[i] in ids;
      ReadableRow(base, t, key, a, ids[i], found[i]);
    }
  }

  /** The scan stops at the row of `id` when no row before it is readable. */
  lemma {:induction false} ScanPicks(base: ClockBase, t: Table, key: string, a: Authority, ids: seq<Identity>, i: nat)
    requires TableOk(t)
    requires IsFindOrder(t, a.tenant, key, ids)
    requires i < |ids|
    requires (a.role.Admin? && ids[i].user == "") || (a.user != "" && ids[i].user == a.user)
    requires forall j | 0 <= j < i :: !((a.role.Admin? && ids[j].user == "") || (a.user != "" && ids[j].user == a.user))
    ensures ids[i] in t && GetTable(base, t, ids, a) == IntoDomain(base, t[ids[i]])
  {
    FoundRows(base, t, a.tenant, key, ids);
    var found := DecodeAll(base, RowsOf(t, ids)).value;
    ReadableRows(base, t, key, a, ids, found);
    FirstReadableAt(found, a, i);
  }

  /** `get` answers by the read rule, because the rows without a user come first. */
  lemma {:induction false} GetIsRule(base: ClockBase, t: Table, key: string, a: Authority, ids: seq<Identity>)
    requires TableOk(t)
    requires IsFindOrder(t, a.tenant, key, ids)
    ensures GetTable(base, t, ids, a) == GetRule(base, t, key, a)
  {
    var shared, own := Identity(a.tenant, "", key), Identity(a.tenant, a.user, key);
    if a.role.Admin? && shared in t {
      assert shared in ids;
      var i :| 0 <= i < |ids| && ids[i] == shared;
      if i > 0 {
        SharedRowIsFirst(t, a.tenant, key, ids, i);
      }
      ScanPicks(base, t, key, a, ids, i);
    } else if a.user != "" && own in t {
      assert own in ids;
      var i :| 0 <= i < |ids| && ids[i] == own;
      OwnRowIsAlone(t, key, a, ids, i);
      ScanPicks(base, t, key, a, ids, i);
    } else {
      NothingReadable(base, t, key, a, ids);
    }
  }

  /** The same, from what the find statement returned. */
  lemma GetFromFind(base: ClockBase, t: Table, key: string, a: Authority, found: Decoded)
    requires TableOk(t)
    requires IsFindAnswer(base, t, a.tenant, key, found)
    ensures GetFrom(found, a) == GetRule(base, t, key, a)
  {
    hide DecodeAll, GetFrom, GetRule;
    var ids :| IsFindOrder(t, a.tenant, key, ids) && found == DecodeAll(base, RowsOf(t, ids));
    GetIsRule(base, t, key, a, ids);
  }

  lemma OwnRowIsAlone(t: Table, key: string, a: Authority, ids: seq<Identity>, i: nat)
    requires IsFindOrder(t, a.tenant, key, ids)
    requires i < |ids| && ids[i] == Identity(a.tenant, a.user, key)
    requires !(a.role.Admin? && Identity(a.tenant, "", key) in t)
    ensures forall j | 0 <= j < i :: !((a.role.Admin? && ids[j].user == "") || ids[j].user == a.user)
  {
    forall j | 0 <= j < i ensures !((a.role.Admin? && ids[j].user == "") || ids[j].user == a.user) {
      assert ids[j] in ids && ids[j] != ids[i];
      assert ids[j] == Identity(a.tenant, ids[j].user, key);
    }
  }

  lemma NothingReadable(base: ClockBase, t: Table, key: string, a: Authority, ids: seq<Identity>)
    requires TableOk(t)
    requires IsFindOrder(t, a.tenant, key, ids)
    requires !(a.role.Admin? && Identity(a.tenant, "", key) in t)
    requires !(a.user != "" && Identity(a.tenant, a.user, key) in t)
    ensures GetTable(base, t, ids, a) == if AnyRow(t, a.tenant, key) then Failure(Forbidden) else Failure(NotFound)
  {
    FoundRows(base, t, a.tenant, key, ids);
    var found := DecodeAll(base, RowsOf(t, ids)).value;
    ReadableRows(base, t, key, a, ids, found);
    forall j | 0 <= j < |ids| ensures !a.CanRead(found[j].ownership) {
      assert ids[j] in ids;
      assert ids[j] == Identity(a.tenant, ids[j].user, key);
    }
    NoneReadable(found, a);
    if ids != [] { assert ids[0] in ids; }
  }
}
