/** The settings service over the repository, and its notifying decorator. */
module SettingsService {
  import opened AuthModel
  import opened Notification
  import opened PgSettings
  import opened SettingModel
  import opened SettingsRules
  import opened SettingsTable
  import opened SqlRows
  import opened Wrappers

  // --- The read rule on the stored rows ---

  ghost predicate StoredOk(rows: set<Row>) {
    UniqueIndex(rows) && forall row | row in rows :: RowOk(row)
  }

  lemma ReadMissing(base: ClockBase, rows: set<Row>, key: string, a: Authority)
    requires StoredOk(rows)
    ensures GetRule(base, View(rows), key, a) == Failure(NotFound) <==>
            forall row | row in rows :: row.tenant != a.tenant || row.key != key
  {
    hide IntoDomain;
    var t := View(rows);
    forall id | id in t ensures t[id] in rows && id.tenant == t[id].tenant && id.key == t[id].key && IntoDomain(base, t[id]).Success? {
      DecodeOk(base, t[id]);
    }
    forall row | row in rows && row.tenant == a.tenant && row.key == key ensures AnyRow(t, a.tenant, key) {
      ViewRow(rows, row);
    }
  }

  /** An admin reads the row without a user. */
  lemma ReadShared(base: ClockBase, rows: set<Row>, row: Row, a: Authority)
    requires StoredOk(rows) && row in rows && row.tenant == a.tenant && a.role.Admin? && (row.user == None || row.user == Some(""))
    ensures var r := GetRule(base, View(rows), row.key, a);
            r.Success? && r.value.value == row.value && r.value.version == row.version && r.value.ownership == Ownership(a.tenant, None)
  {
    ViewRow(rows, row);
    DecodeOk(base, row);
    assert AnyRow(View(rows), a.tenant, row.key);
  }

  /** Without such a row an admin, and always a user, reads their own. */
  lemma ReadOwn(base: ClockBase, rows: set<Row>, row: Row, a: Authority)
    requires StoredOk(rows) && row in rows && row.tenant == a.tenant && row.user == Some(a.user) && a.user != ""
    requires a.role.Admin? ==>
               forall q | q in rows && q.tenant == a.tenant && q.key == row.key :: q.user != None && q.user != Some("")
    ensures var r := GetRule(base, View(rows), row.key, a);
            r.Success? && r.value.value == row.value && r.value.version == row.version && r.value.ownership == Ownership(a.tenant, row.user)
  {
    var t, shared := View(rows), Identity(a.tenant, "", row.key);
    ViewRow(rows, row);
    DecodeOk(base, row);
    assert AnyRow(t, a.tenant, row.key);
    if shared in t {
      assert t[shared].tenant == a.tenant && t[shared].key == row.key && Coalesce(t[shared].user) == "";
    }
  }

  /** Nobody reads anything else. */
  lemma ReadForbidden(base: ClockBase, rows: set<Row>, key: string, a: Authority)
    requires StoredOk(rows) && exists row :: row in rows && row.tenant == a.tenant && row.key == key
    requires forall row | row in rows && row.tenant == a.tenant && row.key == key ::
               !(a.role.Admin? && (row.user == None || row.user == Some(""))) && !(a.user != "" && row.user == Some(a.user))
    ensures GetRule(base, View(rows), key, a) == Failure(Forbidden)
  {
    hide IntoDomain;
    var t, shared, own := View(rows), Identity(a.tenant, "", key), Identity(a.tenant, a.user, key);
    var row :| row in rows && row.tenant == a.tenant && row.key == key;
    ViewRow(rows, row);
    if shared in t {
      assert t[shared].tenant == a.tenant && t[shared].key == key && Coalesce(t[shared].user) == "";
    }
    if own in t {
      assert t[own].tenant == a.tenant && t[own].key == key && Coalesce(t[own].user) == a.user;
    }
  }

  class SettingsService {
    const repo: PgSettingsRepository

    constructor (repo: PgSettingsRepository)
      ensures this.repo == repo
    {
      this.repo := repo;
    }

    method Get(key: SettingKey, a: Authority) returns (r: Result<SettingSnapshot, SettingsError>)
      requires repo.Valid()
      ensures r == GetRule(repo.base, repo.Contents(), key, a)
      ensures r == Failure(NotFound) <==> forall row | row in repo.rows :: row.tenant != a.tenant || row.key != key
      ensures forall row | row in repo.rows && row.tenant == a.tenant && row.key == key && a.role.Admin? && (row.user == None || row.user == Some("")) ::
                r.Success? && r.value.value == row.value && r.value.version == row.version && r.value.ownership == Ownership(a.tenant, None)
      ensures (a.role.Admin? ==>
                 forall q | q in repo.rows && q.tenant == a.tenant && q.key == key :: q.user != None && q.user != Some("")) ==>
              forall row | row in repo.rows && row.tenant == a.tenant && row.key == key && row.user == Some(a.user) && a.user != "" ::
                r.Success? && r.value.value == row.value && r.value.version == row.version && r.value.ownership == Ownership(a.tenant, row.user)
      ensures (exists row :: row in repo.rows && row.tenant == a.tenant && row.key == key) &&
              (forall row | row in repo.rows && row.tenant == a.tenant && row.key == key ::
                 !(a.role.Admin? && (row.user == None || row.user == Some(""))) && !(a.user != "" && row.user == Some(a.user)))
              ==> r == Failure(Forbidden)
    {
      hide GetRule, IntoDomain, IsFindAnswer, UniqueIndex, RowOk;
      var found := repo.Find(key, a.tenant);
      repo.ContentsOk();
      GetFromFind(repo.base, repo.Contents(), key, a, found);
      ReadMissing(repo.base, repo.rows, key, a);
      forall row | row in repo.rows && row.tenant == a.tenant && row.key == key && a.role.Admin? && (row.user == None || row.user == Some(""))
        ensures var r := GetRule(repo.base, repo.Contents(), key, a);
                r.Success? && r.value.value == row.value && r.value.version == row.version && r.value.ownership == Ownership(a.tenant, None)
      {
        ReadShared(repo.base, repo.rows, row, a);
      }
      if a.role.Admin? ==> forall q | q in repo.rows && q.tenant == a.tenant && q.key == key :: q.user != None && q.user != Some("") {
        forall row | row in repo.rows && row.tenant == a.tenant && row.key == key && row.user == Some(a.user) && a.user != ""
          ensures var r := GetRule(repo.base, repo.Contents(), key, a);
                  r.Success? && r.value.value == row.value && r.value.version == row.version && r.value.ownership == Ownership(a.tenant, row.user)
        {
          ReadOwn(repo.base, repo.rows, row, a);
        }
      }
      if (exists row :: row in repo.rows && row.tenant == a.tenant && row.key == key) &&
         (forall row | row in repo.rows && row.tenant == a.tenant && row.key == key ::
            !(a.role.Admin? && (row.user == None || row.user == Some(""))) && !(a.user != "" && row.user == Some(a.user)))
      {
        ReadForbidden(repo.base, repo.rows, key, a);
      }
      if found.Failure? {
        return Failure(found.error);
      }
      var rows := found.value;
      if |rows| == 0 {
        return Failure(NotFound);
      }
      var first := FirstReadable(rows, a);
      r := if first.Some? then Success(first.value) else Failure(Forbidden);
    }

    method Put(key: SettingKey, value: SettingValue, a: Authority, ifMatch: Option<U64>, now: int) returns (r: Result<SettingSnapshot, SettingsError>)
      requires repo.Valid()
      modifies repo
      ensures repo.Valid()
      ensures (Answered(r), repo.Contents()) == Execute(repo.base, old(repo.Contents()), SettingsRules.Put(key, a, value, ifMatch, now))
    {
      hide Execute, Carry, PgSettingsRepository.Valid, PgSettingsRepository.Contents;
      ghost var op := SettingsRules.Put(key, a, value, ifMatch, now);
      var target := a.ScopeOwnership();
      var found := repo.Find(key, a.tenant);
      repo.ContentsOk();
      ExecuteFromFind(repo.base, repo.Contents(), op, found);
      if found.Failure? {
        return Failure(found.error);
      }
      var cur := FirstOwned(found.value, target);
      if cur.Some? {
        if ifMatch.None? {
          return Failure(VersionConflict);
        }
        if ifMatch.value != cur.value.version {
          return Failure(VersionConflict);
        }
        var next := new Setting.Clone(cur.value);
        next.SetValue(value, now);
        CarryIgnoresFound(repo.base, repo.Contents(), cur.value, next.Snapshot(), ifMatch.value);
        r := repo.Update(next.Snapshot(), ifMatch.value);
      } else {
        var setting := new Setting.New(key, value, target, now);
        r := repo.Insert(setting.Snapshot());
      }
    }

    method Patch(key: SettingKey, patch: SettingValue, a: Authority, expected: U64, now: int) returns (r: Result<SettingSnapshot, SettingsError>)
      requires repo.Valid()
      modifies repo
      ensures repo.Valid()
      ensures (Answered(r), repo.Contents()) == Execute(repo.base, old(repo.Contents()), SettingsRules.Patch(key, a, patch, expected, now))
    {
      hide Execute, Carry, PgSettingsRepository.Valid, PgSettingsRepository.Contents;
      ghost var op := SettingsRules.Patch(key, a, patch, expected, now);
      var target := a.ScopeOwnership();
      var found := repo.Find(key, a.tenant);
      repo.ContentsOk();
      ExecuteFromFind(repo.base, repo.Contents(), op, found);
      if found.Failure? {
        return Failure(found.error);
      }
      if |found.value| == 0 {
        return Failure(NotFound);
      }
      var cur := FirstOwned(found.value, target);
      if cur.None? {
        return Failure(Forbidden);
      }
      if expected != cur.value.version {
        return Failure(VersionConflict);
      }
      var next := new Setting.Clone(cur.value);
      var merged := next.ApplyPartial(patch, now);
      if merged.Failure? {
        return Failure(merged.error);
      }
      CarryIgnoresFound(repo.base, repo.Contents(), cur.value, next.Snapshot(), expected);
      r := repo.Update(next.Snapshot(), expected);
    }

    method Delete(key: SettingKey, a: Authority, expected: U64) returns (r: Result<(), SettingsError>)
      requires repo.Valid()
      modifies repo
      ensures repo.Valid()
      ensures (Done(r), repo.Contents()) == Execute(repo.base, old(repo.Contents()), SettingsRules.Delete(key, a, expected))
    {
      hide Execute, Carry, PgSettingsRepository.Valid, PgSettingsRepository.Contents;
      ghost var op := SettingsRules.Delete(key, a, expected);
      var target := a.ScopeOwnership();
      var found := repo.Find(key, a.tenant);
      repo.ContentsOk();
      ExecuteFromFind(repo.base, repo.Contents(), op, found);
      if found.Failure? {
        return Failure(found.error);
      }
      if |found.value| == 0 {
        return Failure(NotFound);
      }
      var cur := FirstOwned(found.value, target);
      if cur.None? {
        return Failure(Forbidden);
      }
      if expected != cur.value.version {
        return Failure(VersionConflict);
      }
      r := repo.Delete(key, cur.value.ownership, expected);
    }
  }

  /** The notifier port: the notices it was handed, in order. */
  class SettingsNotifier {
    var sent: seq<ConfigChange>

    constructor ()
      ensures sent == []
    {
      sent := [];
    }

    method Notify(change: ConfigChange)
      modifies this
      ensures sent == old(sent) + [change]
    {
      sent := sent + [change];
    }
  }

  /** The decorator: a notice after each mutation that succeeds, none otherwise. */
  class NotifyingSettingsService {
    const inner: SettingsService
    const notifier: SettingsNotifier
    const service: string

    constructor (inner: SettingsService, notifier: SettingsNotifier, service: string)
      ensures this.inner == inner && this.notifier == notifier && this.service == service
    {
      this.inner, this.notifier, this.service := inner, notifier, service;
    }

    method Put(key: SettingKey, value: SettingValue, a: Authority, ifMatch: Option<U64>, now: int) returns (r: Result<SettingSnapshot, SettingsError>)
      requires inner.repo.Valid()
      modifies inner.repo, notifier
      ensures inner.repo.Valid()
      ensures (Answered(r), inner.repo.Contents()) == Execute(inner.repo.base, old(inner.repo.Contents()), SettingsRules.Put(key, a, value, ifMatch, now))
      ensures notifier.sent == Notified(service, old(notifier.sent), SettingsRules.Put(key, a, value, ifMatch, now), Answered(r))
      ensures r.Failure? ==> notifier.sent == old(notifier.sent)
      ensures r.Success? ==>
                && r.value.key == key && r.value.ownership.tenant == a.tenant
                && notifier.sent == old(notifier.sent) + [ConfigChange(service, "upsert", a.tenant, key, Some(r.value.value), r.value.version)]
    {
      hide Execute;
      inner.repo.ContentsOk();
      AnswerIsOwn(inner.repo.base, inner.repo.Contents(), SettingsRules.Put(key, a, value, ifMatch, now));
      r := inner.Put(key, value, a, ifMatch, now);
      if r.Success? {
        notifier.Notify(UpsertChange(service, r.value));
      }
    }

    method Patch(key: SettingKey, patch: SettingValue, a: Authority, expected: U64, now: int) returns (r: Result<SettingSnapshot, SettingsError>)
      requires inner.repo.Valid()
      modifies inner.repo, notifier
      ensures inner.repo.Valid()
      ensures (Answered(r), inner.repo.Contents()) == Execute(inner.repo.base, old(inner.repo.Contents()), SettingsRules.Patch(key, a, patch, expected, now))
      ensures notifier.sent == Notified(service, old(notifier.sent), SettingsRules.Patch(key, a, patch, expected, now), Answered(r))
      ensures r.Failure? ==> notifier.sent == old(notifier.sent)
      ensures r.Success? ==>
                && r.value.key == key && r.value.ownership.tenant == a.tenant
                && notifier.sent == old(notifier.sent) + [ConfigChange(service, "upsert", a.tenant, key, Some(r.value.value), r.value.version)]
    {
      hide Execute;
      inner.repo.ContentsOk();
      AnswerIsOwn(inner.repo.base, inner.repo.Contents(), SettingsRules.Patch(key, a, patch, expected, now));
      r := inner.Patch(key, patch, a, expected, now);
      if r.Success? {
        notifier.Notify(UpsertChange(service, r.value));
      }
    }

    method Delete(key: SettingKey, a: Authority, expected: U64) returns (r: Result<(), SettingsError>)
      requires inner.repo.Valid()
      modifies inner.repo, notifier
      ensures inner.repo.Valid()
      ensures (Done(r), inner.repo.Contents()) == Execute(inner.repo.base, old(inner.repo.Contents()), SettingsRules.Delete(key, a, expected))
      ensures notifier.sent == Notified(service, old(notifier.sent), SettingsRules.Delete(key, a, expected), Done(r))
      ensures r.Failure? ==> notifier.sent == old(notifier.sent)
      ensures r.Success? ==> notifier.sent == old(notifier.sent) + [ConfigChange(service, "delete", a.tenant, key, None, 0)]
    {
      hide Execute;
      r := inner.Delete(key, a, expected);
      if r.Success? {
        notifier.Notify(DeleteChange(service, a.tenant, key));
      }
    }
  }
}
