/** The persistence adapter: SQL statements over the stored rows. */
module PgSettings {
  import opened AuthModel
  import opened Paging
  import opened Search
  import opened SettingModel
  import opened SettingsRules
  import opened SettingsTable
  import opened SqlRows
  import opened Text
  import opened Wrappers

  /** Rows ordered by user, those without one first. */
  function ByUser(r: Row, q: Row): bool {
    NullsFirstLe(r.user, q.user)
  }

  /** The rows of a key in one tenant, whoever owns them. */
  function OfKey(rows: set<Row>, tenant: string, key: string): set<Row> {
    set r | r in rows && r.tenant == tenant && r.key == key
  }

  lemma ByUserRanks()
    ensures Ranks(ByUser)
  {
    forall a: Row, b: Row ensures ByUser(a, b) || ByUser(b, a) {
      if a.user.Some? && b.user.Some? { StrLeTotal(a.user.value, b.user.value); }
    }
    forall a: Row, b: Row, c: Row | ByUser(a, b) && ByUser(b, c) ensures ByUser(a, c) {
      if a.user.Some? { StrLeTransitive(a.user.value, b.user.value, c.user.value); }
    }
  }

  class PgSettingsRepository {
    const base: ClockBase
    const collation: (string, string) -> bool
    var rows: set<Row>

    ghost predicate Valid()
      reads this
    {
      UniqueIndex(rows) && (forall r | r in rows :: RowOk(r)) && Collation(collation)
    }

    /** The table by identity. */
    ghost function Contents(): Table
      reads this
    {
      View(rows)
    }

    constructor (base: ClockBase, collation: (string, string) -> bool)
      requires Collation(collation)
      ensures Valid() && Contents() == map[] && this.base == base && this.collation == collation
    {
      this.base, this.collation, rows := base, collation, {};
    }

    /** A valid repository holds a well-formed table: at most one row an identity. */
    lemma ContentsOk()
      requires Valid()
      ensures TableOk(Contents())
    {
    }

    method Exists(key: SettingKey, owner: Ownership) returns (r: bool)
      requires Valid()
      ensures r == ExistsStmt(Contents(), key, owner)
    {
      WhereIsLookup(rows, OwnedIdentity(key, owner));
      r := |WhereIdentity(rows, OwnedIdentity(key, owner))| > 0;
    }

    method Insert(s: SettingSnapshot) returns (r: Result<SettingSnapshot, SettingsError>)
      requires Valid()
      modifies this
      ensures Valid()
      ensures (Answered(r), Contents()) == Carry(base, old(Contents()), Plan.Insert(s))
    {
      var row := ToRow(base, s, 1);
      WhereIsLookup(rows, IdentityOf(row));
      if WhereIdentity(rows, IdentityOf(row)) == {} {
        ViewInsert(rows, row);
        rows := rows + {row};
        r := IntoDomain(base, row);
      } else {
        r := Failure(Conflict);
      }
    }

    method Update(s: SettingSnapshot, expected: U64) returns (r: Result<SettingSnapshot, SettingsError>)
      requires Valid()
      modifies this
      ensures Valid()
      ensures (Answered(r), Contents()) == Carry(base, old(Contents()), Plan.Update(s, s, expected))
    {
      hide AsI32, Carry, IntoDomain, RowOk, UniqueIndex, Collation;
      var id := OwnedIdentity(s.key, s.ownership);
      var matched := WhereVersion(rows, id, AsI32(expected));
      WhereVersionIsLookup(rows, id, AsI32(expected));
      if matched == {} {
        UpdateMissed(base, Contents(), s, expected);
        var present := Exists(s.key, s.ownership);
        return Failure(if present then VersionConflict else NotFound);
      }
      var r0 :| r0 in matched;
      assert r0 == Contents()[id];
      if r0.version >= MAX_I32 {
        UpdateOverflowed(base, Contents(), s, expected);
        return Failure(Internal);
      }
      var r1 := r0.(value := s.value, updatedAt := base.ToMillis(s.updatedAt), version := r0.version + 1);
      RowUpdated(r0, s.value, base.ToMillis(s.updatedAt));
      ViewReplace(rows, r0, r1);
      UpdateCarried(base, Contents(), s, expected, r1);
      rows := rows - {r0} + {r1};
      assert Contents() == old(Contents())[id := r1];
      r := IntoDomain(base, r1);
    }

    method Delete(key: SettingKey, owner: Ownership, expected: U64) returns (r: Result<(), SettingsError>)
      requires Valid()
      modifies this
      ensures Valid()
      ensures forall found :: (Done(r), Contents()) == Carry(base, old(Contents()), Plan.Remove(found, key, owner, expected))
    {
      hide AsI32, Carry, RowOk, UniqueIndex, Collation;
      var id := OwnedIdentity(key, owner);
      var matched := WhereVersion(rows, id, AsI32(expected));
      WhereVersionIsLookup(rows, id, AsI32(expected));
      DeleteCarried(base, Contents(), key, owner, expected);
      if matched == {} {
        var present := Exists(key, owner);
        return Failure(if present then VersionConflict else NotFound);
      }
      var r0 :| r0 in matched;
      assert r0 == Contents()[id];
      ViewDelete(rows, r0);
      rows := rows - {r0};
      assert Contents() == old(Contents()) - {id};
      r := Success(());
    }

    method Find(key: SettingKey, tenant: string) returns (r: Result<seq<SettingSnapshot>, SettingsError>)
      requires Valid()
      ensures IsFindAnswer(base, Contents(), tenant, key, r)
    {
      hide DecodeAll, IsFindOrder, IsListing;
      ByUserRanks();
      var listed := OrderBy(OfKey(rows, tenant, key), ByUser);
      ghost var ids := seq(|listed|, i requires 0 <= i < |listed| => IdentityOf(listed[i]));
      FindListed(rows, tenant, key, listed, ids);
      r := DecodeAll(base, listed);
      assert r == DecodeAll(base, RowsOf(Contents(), ids));
    }

    /** The search statement, some answer of it, decoded. Of the rows of the tenant whose key or
        value matches and that are the caller's own, or have no user and the caller is an admin,
        in key order (`ordered`), it gives the page with the content of each row, and the number of
        them all. With distinct keys, which a user always has, there is but one such page. */
    method Search(p: Pattern, a: Authority, pg: Pagination)
      returns (r: Result<SearchPage, SettingsError>, ghost ordered: seq<Row>, ghost from: nat)
      requires Valid()
      ensures forall x :: x in ordered <==>
                          && x in rows && x.tenant == a.tenant && (p.key(x.key) || p.value(x.value))
                          && (x.user == Some(a.user) || (x.user == None && a.role.Admin?))
      ensures forall i, j | 0 <= i < j < |ordered| :: ordered[i] != ordered[j] && collation(ordered[i].key, ordered[j].key)
      ensures r.Success? && r.value.total == |ordered| && from == (pg.page - 1) * pg.size
      ensures |r.value.rows| == if |ordered| <= from then 0 else if |ordered| - from < pg.size then |ordered| - from else pg.size
      ensures forall i | 0 <= i < |r.value.rows| :: HasContent(base, r.value.rows[i], ordered[from + i])
      ensures r.Success? && IsPageOf(base, Shown(rows, a, p), pg, collation, r.value)
      ensures DistinctKeys(Shown(rows, a, p)) ==>
                forall ordered | IsListing(Shown(rows, a, p), ByKey(collation), ordered) ::
                  DecodeAll(base, Slice(ordered, pg)) == Success(r.value.rows)
      ensures a.role.User? ==> DistinctKeys(Shown(rows, a, p))
    {
      hide IsPageOf, IsListing, Collation, RowOk, UniqueIndex, DistinctKeys, Shown;
      ByKeyRanks(collation);
      var visible := Visible(rows, a, p);
      var listed := OrderBy(visible, ByKey(collation));
      var page := OrderBy(Elements(Slice(listed, pg)), ByKey(collation));
      var out := Joined(page, |visible|);
      assert IsSearchAnswer(rows, a, p, pg, collation, out);
      SearchIsExact(base, rows, a, p, pg, collation, out);
      r := DecodeAnswer(base, out);
      OnePage(base, rows, a, p, pg, collation, r.value);
      ordered, from := PageListsExactly(base, rows, a, p, pg, collation, r.value);
    }
  }

  /** A page of the rows shown is the page, when their keys are distinct. */
  lemma OnePage(base: ClockBase, rows: set<Row>, a: Authority, p: Pattern, pg: Pagination, le: (string, string) -> bool, answer: SearchPage)
    requires Collation(le) && UniqueIndex(rows) && IsPageOf(base, Shown(rows, a, p), pg, le, answer)
    ensures DistinctKeys(Shown(rows, a, p)) ==>
              forall ordered | IsListing(Shown(rows, a, p), ByKey(le), ordered) ::
                DecodeAll(base, Slice(ordered, pg)) == Success(answer.rows)
    ensures a.role.User? ==> DistinctKeys(Shown(rows, a, p))
  {
    hide Collation, UniqueIndex, IsPageOf, Shown, DistinctKeys, IsListing, DecodeAll, Slice;
    if a.role.User? {
      UsersSeeDistinctKeys(rows, a, p);
    }
    if DistinctKeys(Shown(rows, a, p)) {
      forall ordered | IsListing(Shown(rows, a, p), ByKey(le), ordered)
        ensures DecodeAll(base, Slice(ordered, pg)) == Success(answer.rows)
      {
        PageIsSlice(base, Shown(rows, a, p), pg, le, ordered, answer);
      }
    }
  }

  lemma RowUpdated(r: Row, value: SettingValue, millis: int)
    requires RowOk(r) && r.version < MAX_I32
    ensures RowOk(r.(value := value, updatedAt := millis, version := r.version + 1))
  {
  }

  /** The answer and the table of a delete, whatever row it was decided on. */
  lemma DeleteCarried(base: ClockBase, t: Table, key: SettingKey, owner: Ownership, expected: U64)
    ensures var id := OwnedIdentity(key, owner);
            forall found :: Carry(base, t, Plan.Remove(found, key, owner, expected)) ==
                            if id in t && t[id].version == AsI32(expected) then (Success(None), t - {id})
                            else (Failure(if ExistsStmt(t, key, owner) then VersionConflict else NotFound), t)
  {
    hide AsI32, IntoDomain;
    forall found
      ensures Statement(base, t, Plan.Remove(found, key, owner, expected)) == DeleteStmt(t, key, owner, expected)
    {
    }
  }

  /** The answer of an update that matched nothing. */
  lemma UpdateMissed(base: ClockBase, t: Table, s: SettingSnapshot, expected: U64)
    requires var id := OwnedIdentity(s.key, s.ownership); id !in t || t[id].version != AsI32(expected)
    ensures Carry(base, t, Plan.Update(s, s, expected)) ==
            (Failure(if ExistsStmt(t, s.key, s.ownership) then VersionConflict else NotFound), t)
  {
    hide AsI32, IntoDomain, ClockBase.ToMillis;
    assert Statement(base, t, Plan.Update(s, s, expected)) == UpdateStmt(base, t, s, expected);
  }

  /** The answer of an update of a row at the maximal version. */
  lemma UpdateOverflowed(base: ClockBase, t: Table, s: SettingSnapshot, expected: U64)
    requires var id := OwnedIdentity(s.key, s.ownership);
             id in t && t[id].version == AsI32(expected) && t[id].version >= MAX_I32
    ensures Carry(base, t, Plan.Update(s, s, expected)) == (Failure(Internal), t)
  {
    hide AsI32, IntoDomain, ClockBase.ToMillis;
    assert Statement(base, t, Plan.Update(s, s, expected)) == UpdateStmt(base, t, s, expected);
  }

  /** The table and the answer of an update that matched. */
  lemma UpdateCarried(base: ClockBase, t: Table, s: SettingSnapshot, expected: U64, row: Row)
    requires var id := OwnedIdentity(s.key, s.ownership);
             && id in t && t[id].version == AsI32(expected) && t[id].version < MAX_I32
             && row == t[id].(value := s.value, updatedAt := base.ToMillis(s.updatedAt), version := t[id].version + 1)
    ensures Carry(base, t, Plan.Update(s, s, expected)) ==
            (Answered(IntoDomain(base, row)), t[OwnedIdentity(s.key, s.ownership) := row])
  {
    hide AsI32, IntoDomain, ClockBase.ToMillis;
    assert Statement(base, t, Plan.Update(s, s, expected)) == UpdateStmt(base, t, s, expected);
  }

  /** Listing the rows of a key by user is a find order of the keyed table. */
  lemma FindListed(rows: set<Row>, tenant: string, key: string, listed: seq<Row>, ids: seq<Identity>)
    requires UniqueIndex(rows)
    requires IsListing(OfKey(rows, tenant, key), ByUser, listed)
    requires |ids| == |listed| && forall i | 0 <= i < |ids| :: ids[i] == IdentityOf(listed[i])
    ensures IsFindOrder(View(rows), tenant, key, ids)
    ensures forall id | id in ids :: id in View(rows)
    ensures RowsOf(View(rows), ids) == listed
  {
    forall i | 0 <= i < |ids| ensures ids[i] in View(rows) && View(rows)[ids[i]] == listed[i] && listed[i].tenant == tenant && listed[i].key == key {
      assert listed[i] in listed;
      ViewRow(rows, listed[i]);
    }
    forall id ensures id in ids <==> id in View(rows) && id.tenant == tenant && id.key == key {
      if id in View(rows) && id.tenant == tenant && id.key == key {
        var r := View(rows)[id];
        assert r in listed;
        var i :| 0 <= i < |listed| && listed[i] == r;
        assert ids[i] == id;
      }
    }
  }
}
