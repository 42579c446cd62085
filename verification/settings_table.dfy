/** The `settings` table: rows by identity, their mapping to the aggregate, and the effect of
    each SQL statement. */
module SettingsTable {
  import opened AuthModel
  import opened Json
  import opened SettingModel
  import opened Text
  import opened Wrappers

  const MAX_I32 := 0x7FFF_FFFF

  const TWO_TO_THE_32 := 0x1_0000_0000

  /** The cast to 32 bits: whole turns are dropped. */
  function AsI32(n: nat): int {
    if n <= MAX_I32 then n else if n < TWO_TO_THE_32 then n - TWO_TO_THE_32 else AsI32(n - TWO_TO_THE_32)
  }

  /** The cast is two's complement on the low 32 bits, and loses nothing exactly up to the
      maximum. */
  lemma {:induction false} CastIsLowBits(n: nat)
    ensures AsI32(n) == if n % 4294967296 <= 2147483647 then n % 4294967296 else n % 4294967296 - 4294967296
    ensures AsI32(n) == n <==> n <= 2147483647
  {
    if n >= TWO_TO_THE_32 {
      CastIsLowBits(n - TWO_TO_THE_32);
      assert n % TWO_TO_THE_32 == (n - TWO_TO_THE_32) % TWO_TO_THE_32;
    }
  }

  // --- Clock ---

  /** The instant (nanoseconds) and the epoch time (milliseconds) captured once per process. */
  datatype ClockBase = ClockBase(instant: int, millis: int)
  {
    function ToMillis(i: int): int {
      millis + (if i >= instant then i - instant else 0) / 1_000_000
    }

    function FromMillis(m: int): int {
      instant + (if m >= millis then m - millis else 0) * 1_000_000
    }

    /** An instant as it comes back from the table: not before the base, whole milliseconds. */
    function Clamp(i: int): int {
      FromMillis(ToMillis(i))
    }

    /** What is stored is the epoch time in whole milliseconds, of the base for an earlier instant.
        Stored milliseconds survive the trip through an instant unless they predate the base;
        clamping never moves an instant forward except to the base, loses less than a
        millisecond, and does nothing more the second time. */
    lemma MillisRoundTrip(m: int, i: int)
      ensures i >= instant ==> (ToMillis(i) - millis) * 1_000_000 <= i - instant < (ToMillis(i) - millis + 1) * 1_000_000
      ensures i < instant ==> ToMillis(i) == millis
      ensures ToMillis(FromMillis(m)) == m <==> m >= millis
      ensures i >= instant ==> Clamp(i) <= i < Clamp(i) + 1_000_000
      ensures i < instant ==> Clamp(i) == instant
      ensures Clamp(Clamp(i)) == Clamp(i)
    {
    }
  }

  // --- Rows ---

  datatype Row = Row(tenant: string, user: Option<string>, key: string, value: Value, version: int, updatedAt: int)

  /** What the unique index compares. */
  datatype Identity = Identity(tenant: string, user: string, key: string)

  function Coalesce(user: Option<string>): string {
    if user.Some? then user.value else ""
  }

  function IdentityOf(r: Row): Identity {
    Identity(r.tenant, Coalesce(r.user), r.key)
  }

  function OwnedIdentity(key: string, o: Ownership): Identity {
    Identity(o.tenant, Coalesce(o.user), key)
  }

  function ToRow(base: ClockBase, s: SettingSnapshot, version: int): Row {
    Row(s.ownership.tenant, s.ownership.user, s.key, s.value, version, base.ToMillis(s.updatedAt))
  }

  /** Ownership a row is decoded to: an empty user is no user. */
  function DecodedOwnership(r: Row): Ownership {
    Ownership(r.tenant, if r.user.Some? && r.user.value != "" then r.user else None)
  }

  function IntoDomain(base: ClockBase, r: Row): Result<SettingSnapshot, SettingsError> {
    match NewKey(r.key)
    case Failure(e) => Failure(e)
    case Success(key) =>
      match NewValue(r.value)
      case Failure(e) => Failure(e)
      case Success(value) =>
        Success(SettingSnapshot(key, value, DecodedOwnership(r), if r.version < 1 then 1 else r.version, base.FromMillis(r.updatedAt)))
  }

  /** Any row at all: a key is trimmed, and refused before a value is looked at; no version is less
      than 1. */
  lemma DecodeAny(base: ClockBase, r: Row)
    ensures !ValidKey(Trim(r.key)) ==> IntoDomain(base, r) == Failure(InvalidKey)
    ensures ValidKey(Trim(r.key)) && !ValidValue(r.value) ==> IntoDomain(base, r) == Failure(InvalidValue)
    ensures ValidKey(Trim(r.key)) && ValidValue(r.value) ==>
              && IntoDomain(base, r).Success?
              && IntoDomain(base, r).value.key == Trim(r.key) && IntoDomain(base, r).value.value == r.value
              && IntoDomain(base, r).value.version == if r.version < 1 then 1 else r.version
  {
    hide Trim, ValidValue;
  }

  /** A row that decodes to itself. */
  ghost predicate RowOk(r: Row) {
    ValidKey(r.key) && ValidValue(r.value) && 1 <= r.version <= MAX_I32
  }

  /** A well-formed row decodes to its own content. */
  lemma DecodeOk(base: ClockBase, r: Row)
    requires RowOk(r)
    ensures IntoDomain(base, r) ==
            Success(SettingSnapshot(r.key, r.value, DecodedOwnership(r), r.version, base.FromMillis(r.updatedAt)))
  {
    assert NewKey(r.key) == Success(r.key);
  }

  /** Storing an aggregate and reading it back gives the aggregate, its time clamped, exactly
      when its user id is not empty. */
  lemma StoredAggregateIff(base: ClockBase, s: SettingSnapshot, version: int)
    requires 1 <= version <= MAX_I32
    ensures RowOk(ToRow(base, s, version))
    ensures IntoDomain(base, ToRow(base, s, version)) ==
            Success(s.(version := version, updatedAt := base.Clamp(s.updatedAt)))
            <==> s.ownership.user != Some("")
  {
    assert NewKey(s.key) == Success(s.key);
  }

  // --- Tables ---

  type Table = map<Identity, Row>

  ghost predicate TableOk(t: Table) {
    forall id | id in t :: IdentityOf(t[id]) == id && RowOk(t[id])
  }

  /** What one conditional write finds: the row as written and the table after it, no row to
      write, or an integer overflow in the server. */
  datatype WriteAnswer = Wrote(row: Row, table: Table) | Missed | Overflowed

  function InsertStmt(base: ClockBase, t: Table, s: SettingSnapshot): WriteAnswer {
    var row := ToRow(base, s, 1);
    var id := IdentityOf(row);
    if id in t then Missed else Wrote(row, t[id := row])
  }

  function UpdateStmt(base: ClockBase, t: Table, s: SettingSnapshot, expected: U64): WriteAnswer {
    var id := OwnedIdentity(s.key, s.ownership);
    if id !in t || t[id].version != AsI32(expected) then Missed
    else if t[id].version >= MAX_I32 then Overflowed
    else
      var row := t[id].(value := s.value, updatedAt := base.ToMillis(s.updatedAt), version := t[id].version + 1);
      Wrote(row, t[id := row])
  }

  function DeleteStmt(t: Table, key: string, o: Ownership, expected: U64): WriteAnswer {
    var id := OwnedIdentity(key, o);
    if id !in t || t[id].version != AsI32(expected) then Missed
    else Wrote(t[id], t - {id})
  }

  predicate ExistsStmt(t: Table, key: string, o: Ownership) {
    OwnedIdentity(key, o) in t
  }

  /** Users in the order of the find statement: no user comes first. */
  predicate NullsFirstLe(a: Option<string>, b: Option<string>) {
    a.None? || (b.Some? && StrLe(a.value, b.value))
  }

  /** `ids` lists, in the order of the find statement, the rows of `(tenant, key)`. */
  ghost predicate IsFindOrder(t: Table, tenant: string, key: string, ids: seq<Identity>) {
    && (forall i, j | 0 <= i < j < |ids| :: ids[i] != ids[j])
    && (forall id :: id in ids <==> id in t && id.tenant == tenant && id.key == key)
    && (forall i, j | 0 <= i < j < |ids| :: NullsFirstLe(t[ids[i]].user, t[ids[j]].user))
  }

  type Decoded = Result<seq<SettingSnapshot>, SettingsError>

  /** `one` before the others: the first error wins. */
  function Prepend(one: Result<SettingSnapshot, SettingsError>, all: Decoded): Decoded {
    if one.Failure? then Failure(one.error)
    else if all.Failure? then all
    else Success([one.value] + all.value)
  }

  /** Rows decoded in order; the first that does not decode is the error. */
  function DecodeAll(base: ClockBase, rows: seq<Row>): Decoded {
    if rows == [] then Success([])
    else Prepend(IntoDomain(base, rows[0]), DecodeAll(base, rows[1..]))
  }

  ghost function RowsOf(t: Table, ids: seq<Identity>): seq<Row>
    requires forall id | id in ids :: id in t
  {
    seq(|ids|, i requires 0 <= i < |ids| => t[ids[i]])
  }

  /** What the find statement may answer: its rows, in some order it allows, decoded. */
  ghost predicate IsFindAnswer(base: ClockBase, t: Table, tenant: string, key: string, found: Decoded) {
    exists ids :: IsFindOrder(t, tenant, key, ids) && found == DecodeAll(base, RowsOf(t, ids))
  }

  /** Well-formed rows always decode, each to its own content. */
  lemma {:induction false} DecodeAllOk(base: ClockBase, rows: seq<Row>)
    requires forall r | r in rows :: RowOk(r)
    ensures DecodeAll(base, rows).Success?
    ensures |DecodeAll(base, rows).value| == |rows|
    ensures forall i | 0 <= i < |rows| ::
              IntoDomain(base, rows[i]) == Success(DecodeAll(base, rows).value[i])
  {
    hide IntoDomain, RowOk;
    if rows != [] {
      assert RowOk(rows[0]);
      DecodeOk(base, rows[0]);
      DecodeAllOk(base, rows[1..]);
      forall i | 0 <= i < |rows| ensures IntoDomain(base, rows[i]) == Success(DecodeAll(base, rows).value[i]) {
        if i > 0 { assert rows[i] == rows[1..][i - 1]; }
      }
    }
  }

  // --- What each statement writes ---

  lemma InsertWrites(base: ClockBase, t: Table, s: SettingSnapshot)
    requires InsertStmt(base, t, s).Wrote?
    ensures var w := InsertStmt(base, t, s);
            var id := OwnedIdentity(s.key, s.ownership);
            && IdentityOf(w.row) == id && id !in t && w.table == t[id := w.row]
            && RowOk(w.row) && w.row.version == 1
  {
  }

  /** On the service's paths the expected version is in range, so the cast loses nothing and
      the server-side increment is the aggregate's own. */
  lemma UpdateWrites(base: ClockBase, t: Table, s: SettingSnapshot, expected: U64)
    requires TableOk(t)
    requires UpdateStmt(base, t, s, expected).Wrote?
    ensures var w := UpdateStmt(base, t, s, expected);
            var id := OwnedIdentity(s.key, s.ownership);
            && id in t && IdentityOf(w.row) == id && w.table == t[id := w.row]
            && RowOk(w.row) && w.row.version == t[id].version + 1
            && (expected <= MAX_I32 ==> w.row.version == expected + 1)
  {
    var id := OwnedIdentity(s.key, s.ownership);
    assert RowOk(t[id]) && IdentityOf(t[id]) == id;
  }

  lemma DeleteWrites(t: Table, key: string, o: Ownership, expected: U64)
    requires TableOk(t)
    requires DeleteStmt(t, key, o, expected).Wrote?
    ensures var w := DeleteStmt(t, key, o, expected);
            var id := OwnedIdentity(key, o);
            id in t && IdentityOf(w.row) == id && w.row == t[id] && w.table == t - {id} && RowOk(w.row)
  {
  }
}
