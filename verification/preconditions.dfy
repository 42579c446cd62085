/** Conditional requests on a row that is there: what each answers, and when the tag of an
    earlier answer still holds. */
module Preconditions {
  import opened CommitLog
  import opened Delivery
  import opened Etag
  import opened Json
  import opened Linearization
  import opened MergePatch
  import opened Protocol
  import opened SettingModel
  import opened SettingsRules
  import opened SettingsTable
  import opened Wrappers

  /** The table with the row of `id` one version up. */
  ghost function Bumped(base: ClockBase, t: Table, id: Identity, value: Value, now: int): Table
    requires id in t
  {
    t[id := t[id].(value := value, updatedAt := base.ToMillis(now), version := t[id].version + 1)]
  }

  /** A decided update of the row as it is, carried out. */
  lemma UpdateOnRow(base: ClockBase, t: Table, op: Op, cur: SettingSnapshot, next: SettingSnapshot)
    requires TableOk(t) && op.Id() in t && op.Target().user != Some("")
    requires cur.version == t[op.Id()].version
    requires next.key == op.key && next.ownership == op.Target() && next.version == cur.version + 1
    ensures Carry(base, t, Update(cur, next, cur.version)) ==
            if cur.version == MAX_I32 then (Failure(Internal), t)
            else (Success(Some(next.(updatedAt := base.Clamp(next.updatedAt)))), Bumped(base, t, op.Id(), next.value, next.updatedAt))
  {
    hide Answer;
    var plan := Update(cur, next, cur.version);
    assert RowOk(t[op.Id()]);
    assert Statement(base, t, plan) == UpdateStmt(base, t, next, cur.version);
    if cur.version < MAX_I32 {
      UpdateAnswer(base, t, plan);
    }
  }

  /** What a put on a present row answers, in every case. */
  lemma PutOnRow(base: ClockBase, t: Table, op: Op)
    requires TableOk(t) && op.Put? && op.Id() in t && op.Target().user != Some("")
    ensures var v := t[op.Id()].version;
            Execute(base, t, op) ==
            if op.ifMatch.None? || op.ifMatch.value != v then (Failure(VersionConflict), t)
            else if v == MAX_I32 then (Failure(Internal), t)
            else (Success(Some(SettingSnapshot(op.key, op.value, op.Target(), v + 1, base.Clamp(op.now)))),
                  Bumped(base, t, op.Id(), op.value, op.now))
  {
    hide Carry, Owned;
    OwnedFacts(base, t, op);
    var cur := Owned(base, t, op).value;
    UpdateOnRow(base, t, op, cur, cur.Replaced(op.value, op.now));
  }

  /** What a patch of a present row answers, in every case. */
  lemma PatchOnRow(base: ClockBase, t: Table, op: Op)
    requires TableOk(t) && op.Patch? && op.Id() in t && op.Target().user != Some("")
    ensures var v, merged := t[op.Id()].version, Merge(t[op.Id()].value, op.value);
            Execute(base, t, op) ==
            if op.expected != v then (Failure(VersionConflict), t)
            else if SerializedLen(merged) > MAX_VALUE_BYTES then (Failure(InvalidValue), t)
            else if v == MAX_I32 then (Failure(Internal), t)
            else (Success(Some(SettingSnapshot(op.key, merged, op.Target(), v + 1, base.Clamp(op.now)))),
                  Bumped(base, t, op.Id(), merged, op.now))
  {
    hide Carry, Owned, SerializedLen;
    OwnedFacts(base, t, op);
    var cur := Owned(base, t, op).value;
    PatchRefusedOnlyForSize(cur.value, op.value);
    if op.expected == cur.version {
      PatchAgain(base, t, op, cur);
      if MergeValues(cur.value, op.value).Success? {
        UpdateOnRow(base, t, op, cur, cur.Replaced(MergeValues(cur.value, op.value).value, op.now));
      }
    }
  }

  /** What a delete of a present row answers, in every case. */
  lemma DeleteOnRow(base: ClockBase, t: Table, op: Op)
    requires TableOk(t) && op.Delete? && op.Id() in t && op.Target().user != Some("")
    ensures Execute(base, t, op) ==
            if op.expected != t[op.Id()].version then (Failure(VersionConflict), t) else (Success(None), t - {op.Id()})
  {
    hide Carry, Owned;
    OwnedFacts(base, t, op);
    var cur := Owned(base, t, op).value;
    if op.expected == cur.version {
      RemoveOnRow(base, t, op, cur);
    }
  }

  lemma RemoveOnRow(base: ClockBase, t: Table, op: Op, cur: SettingSnapshot)
    requires TableOk(t) && op.Id() in t && cur.version == t[op.Id()].version
    requires cur.ownership == op.Target()
    ensures Carry(base, t, Remove(cur, op.key, cur.ownership, cur.version)) == (Success(None), t - {op.Id()})
  {
    assert RowOk(t[op.Id()]);
    assert DeleteStmt(t, op.key, cur.ownership, cur.version) == Wrote(t[op.Id()], t - {op.Id()});
  }

  /** What a request answers when its row is not there. A put creates the row at version 1
      whatever version the client expected; a patch or delete tells whether another owner of the
      tenant has the key. */
  lemma OnNoRow(base: ClockBase, t: Table, op: Op)
    requires TableOk(t) && op.Id() !in t && op.Target().user != Some("")
    ensures Execute(base, t, op) ==
            match op
            case Put(key, _, value, _, now) =>
              var s := SettingSnapshot(key, value, op.Target(), 1, now);
              (Success(Some(s.(updatedAt := base.Clamp(now)))), t[op.Id() := ToRow(base, s, 1)])
            case _ =>
              (Failure(if exists id :: id in t && id.tenant == op.authority.tenant && id.key == op.key then Forbidden else NotFound), t)
  {
    if op.Put? {
      var plan := Insert(SettingSnapshot(op.key, op.value, op.Target(), 1, op.now));
      assert Statement(base, t, plan) == Wrote(ToRow(base, plan.next, 1), t[op.Id() := ToRow(base, plan.next, 1)]);
      InsertAnswer(base, t, plan);
    }
  }

  // --- Tags ---

  /** The request carries `tag` as its `If-Match` header. */
  ghost predicate Carries(op: Op, tag: string) {
    match op
    case Put(_, _, _, ifMatch, _) => ifMatch == IfMatch(Some(tag))
    case Patch(_, _, _, expected, _) => Some(expected) == IfMatch(Some(tag))
    case Delete(_, _, expected) => Some(expected) == IfMatch(Some(tag))
  }

  /** The commit answered with `answer`, so the tag of the answer is the version it wrote. */
  lemma AnsweredRow(s: State, c: nat, answer: SettingSnapshot)
    requires Inv(s) && c < |s.log| && Committer(s, c).decided.Some?
    requires AnswerOf(s, c) == Success(Some(answer))
    ensures s.log[c].effect.Upserted? && RowOk(s.log[c].effect.row)
    ensures answer.version == s.log[c].effect.row.version && answer.value == s.log[c].effect.row.value
  {
    CommitFacts(s, c);
    assert CommitOkAt(s.init, s.log, c);
    DecodeOk(s.base, s.log[c].effect.row);
  }

  /** A row that is not deleted after commit `c` is still there, a version up for every commit
      on it since; with none since, it holds what the commit wrote. */
  lemma RowSince(s: State, c: nat)
    requires Inv(s) && c < |s.log| && s.log[c].effect.Upserted?
    requires NoDelete(s.log, s.log[c].id, c + 1, |s.log|)
    ensures var id := s.log[c].id;
            && id in s.table
            && (s.table[id].version == s.log[c].effect.row.version <==> Untouched(s.log, id, c + 1, |s.log|))
            && (Untouched(s.log, id, c + 1, |s.log|) ==> s.table[id] == s.log[c].effect.row)
  {
    var id := s.log[c].id;
    AtNext(s.init, s.log, c);
    VersionsCount(s.init, s.log, id, c + 1, |s.log|);
    CountZero(s.log, id, c + 1, |s.log|);
    if Untouched(s.log, id, c + 1, |s.log|) {
      RowFrame(s.init, s.log, id, c + 1, |s.log|);
    }
  }

  /** The row was deleted after commit `c` and created again by commit `b`, and has since then
      come to version `v` again. */
  ghost predicate Reborn(s: State, c: nat, b: nat, v: nat)
    requires c < |s.log|
  {
    var id := s.log[c].id;
    && c < b < |s.log| && s.log[b].id == id && id !in At(s.init, s.log, b)
    && NoDelete(s.log, id, b, |s.log|) && Count(s.log, id, b, |s.log|) == v
  }

  ghost predicate SomeReborn(s: State, c: nat, v: nat)
    requires c < |s.log|
  {
    exists b: nat :: Reborn(s, c, b, v)
  }

  /** When a present row is at the version that commit `c` wrote: nobody has committed to it
      since, or it was deleted and created again and has come to that version again. */
  lemma VersionHoldsIff(s: State, c: nat)
    requires Inv(s) && c < |s.log| && s.log[c].effect.Upserted? && s.log[c].id in s.table
    ensures var id, v := s.log[c].id, s.log[c].effect.row.version;
            && v >= 1
            && (s.table[id].version == v <==> Untouched(s.log, id, c + 1, |s.log|) || SomeReborn(s, c, v))
            && (Untouched(s.log, id, c + 1, |s.log|) ==> s.table[id] == s.log[c].effect.row)
  {
    var id, v := s.log[c].id, s.log[c].effect.row.version;
    assert CommitOkAt(s.init, s.log, c);
    if NoDelete(s.log, id, c + 1, |s.log|) {
      RowSince(s, c);
      AtNext(s.init, s.log, c);
      forall b: nat | c < b < |s.log| ensures id in At(s.init, s.log, b) {
        VersionsCount(s.init, s.log, id, c + 1, b);
      }
    } else {
      var b := LastBirth(s.init, s.log, id, c + 1, |s.log|);
      VersionSinceBirth(s.init, s.log, id, b);
      assert Count(s.log, id, b, |s.log|) == v ==> Reborn(s, c, b, v);
    }
    forall b: nat | Reborn(s, c, b, v) ensures s.table[id].version == v {
      VersionSinceBirth(s.init, s.log, id, b);
    }
  }

  /** What a request answers on a row holding `value` at `version`, when its version check
      passes and the version is below its maximum. */
  function Accepted(base: ClockBase, op: Op, value: Value, version: nat): Outcome
  {
    match op
    case Put(_, _, v, _, now) =>
      Success(Some(SettingSnapshot(op.key, v, op.Target(), version + 1, base.Clamp(now))))
    case Patch(_, _, patch, _, now) =>
      var merged := Merge(value, patch);
      if SerializedLen(merged) > MAX_VALUE_BYTES then Failure(InvalidValue)
      else Success(Some(SettingSnapshot(op.key, merged, op.Target(), version + 1, base.Clamp(now))))
    case Delete(_, _, _) => Success(None)
  }

  /** A request with the tag of some version, on a present row. */
  lemma TagOnRow(base: ClockBase, t: Table, op: Op, version: U64)
    requires TableOk(t) && op.Id() in t && op.Target().user != Some("") && Carries(op, EtagOf(version))
    ensures version != t[op.Id()].version ==> Execute(base, t, op).0 == Failure(VersionConflict)
    ensures version == t[op.Id()].version < MAX_I32 ==> Execute(base, t, op).0 == Accepted(base, op, t[op.Id()].value, version)
    ensures version == t[op.Id()].version ==> Execute(base, t, op).0 != Failure(VersionConflict)
  {
    hide Execute, IfMatch, EtagOf, Merge, SerializedLen;
    assert RowOk(t[op.Id()]);
    EtagRoundTrip(version);
    match op
    case Put(_, _, _, _, _) => PutOnRow(base, t, op);
    case Patch(_, _, _, _, _) => PatchOnRow(base, t, op);
    case Delete(_, _, _) => DeleteOnRow(base, t, op);
  }

  /** A request that echoes the tag of an answer, on a row that is there. It is refused for its
      version exactly when the row is at another version, and the row is at the version of the
      tag exactly when nobody has committed to it since, or when it was deleted and created again
      and has come to the same version: then the stale request is accepted, on a row its client
      has never seen. Accepted, it answers a version up from the tag. */
  lemma EchoedTag(s: State, c: nat, answer: SettingSnapshot, op: Op)
    requires Reachable(s) && CommitsOwned(s) && c < |s.log| && Committer(s, c).decided.Some?
    requires AnswerOf(s, c) == Success(Some(answer))
    requires op.Id() == s.log[c].id && op.Target().user != Some("") && Carries(op, EtagOf(answer.version))
    requires op.Id() in s.table
    ensures Execute(s.base, s.table, op).0 == Failure(VersionConflict) <==> s.table[op.Id()].version != answer.version
    ensures s.table[op.Id()].version == answer.version <==>
            Untouched(s.log, op.Id(), c + 1, |s.log|) || SomeReborn(s, c, answer.version)
    ensures Untouched(s.log, op.Id(), c + 1, |s.log|) ==> s.table[op.Id()].value == answer.value
    ensures s.table[op.Id()].version == answer.version < MAX_I32 ==>
              Execute(s.base, s.table, op).0 == Accepted(s.base, op, s.table[op.Id()].value, answer.version)
  {
    hide Execute, IfMatch, EtagOf, Accepted, Inv, AnswerOf, SomeReborn;
    ReachableInv(s);
    ReachableTable(s);
    AnsweredRow(s, c, answer);
    VersionHoldsIff(s, c);
    TagOnRow(s.base, s.table, op, answer.version);
  }

  lemma ReachableTable(s: State)
    requires Inv(s)
    ensures TableOk(s.table)
  {
  }
}
