/** What a legal commit log says about one row over time. */
module CommitLog {
  import opened Protocol
  import opened SettingsTable

  ghost predicate Untouched(log: seq<Commit>, id: Identity, lo: nat, hi: nat)
    requires hi <= |log|
  {
    forall i | lo <= i < hi :: log[i].id != id
  }

  ghost predicate NoDelete(log: seq<Commit>, id: Identity, lo: nat, hi: nat)
    requires hi <= |log|
  {
    forall i | lo <= i < hi :: log[i].id == id ==> log[i].effect.Upserted?
  }

  /** Commits on `id` in `log[lo..hi]`. */
  ghost function Count(log: seq<Commit>, id: Identity, lo: nat, hi: nat): nat
    requires lo <= hi <= |log|
    decreases hi
  {
    if lo == hi then 0 else Count(log, id, lo, hi - 1) + (if log[hi - 1].id == id then 1 else 0)
  }

  lemma AtNext(init: Table, log: seq<Commit>, i: nat)
    requires i < |log|
    ensures At(init, log, i + 1) == Applied(At(init, log, i), log[i])
  {
    assert log[..i + 1][..i] == log[..i];
  }

  lemma {:induction false} TablesOk(init: Table, log: seq<Commit>, i: nat)
    requires TableOk(init) && LogOk(init, log) && i <= |log|
    ensures TableOk(At(init, log, i))
    decreases i
  {
    if i > 0 {
      TablesOk(init, log, i - 1);
      AtNext(init, log, i - 1);
      assert CommitOkAt(init, log, i - 1);
    }
  }

  /** A row nobody commits to stays as it is. */
  lemma {:induction false} RowFrame(init: Table, log: seq<Commit>, id: Identity, lo: nat, hi: nat)
    requires lo <= hi <= |log| && Untouched(log, id, lo, hi)
    ensures id in At(init, log, hi) <==> id in At(init, log, lo)
    ensures id in At(init, log, lo) ==> At(init, log, hi)[id] == At(init, log, lo)[id]
    decreases hi
  {
    if lo < hi {
      RowFrame(init, log, id, lo, hi - 1);
      AtNext(init, log, hi - 1);
    }
  }

  /** One commit other than a delete of `id` leaves it in place, one version up if it is on it. */
  lemma OneCommit(init: Table, log: seq<Commit>, id: Identity, i: nat)
    requires LogOk(init, log) && i < |log|
    requires id in At(init, log, i)
    requires log[i].id == id ==> log[i].effect.Upserted?
    ensures id in At(init, log, i + 1)
    ensures At(init, log, i + 1)[id].version == At(init, log, i)[id].version + (if log[i].id == id then 1 else 0)
  {
    AtNext(init, log, i);
    assert CommitOkAt(init, log, i);
  }

  /** Without deletes a row stays, and its version counts the commits on it. */
  lemma {:induction false} VersionsCount(init: Table, log: seq<Commit>, id: Identity, lo: nat, hi: nat)
    requires LogOk(init, log)
    requires lo <= hi <= |log| && NoDelete(log, id, lo, hi)
    requires id in At(init, log, lo)
    ensures id in At(init, log, hi)
    ensures At(init, log, hi)[id].version == At(init, log, lo)[id].version + Count(log, id, lo, hi)
    decreases hi
  {
    if lo < hi {
      VersionsCount(init, log, id, lo, hi - 1);
      OneCommit(init, log, id, hi - 1);
    }
  }

  lemma {:induction false} CountZero(log: seq<Commit>, id: Identity, lo: nat, hi: nat)
    requires lo <= hi <= |log|
    ensures Count(log, id, lo, hi) == 0 <==> Untouched(log, id, lo, hi)
    decreases hi
  {
    if lo < hi {
      CountZero(log, id, lo, hi - 1);
    }
  }

  lemma {:induction false} CountSplit(log: seq<Commit>, id: Identity, lo: nat, mid: nat, hi: nat)
    requires lo <= mid <= hi <= |log|
    ensures Count(log, id, lo, hi) == Count(log, id, lo, mid) + Count(log, id, mid, hi)
    decreases hi
  {
    if mid < hi {
      CountSplit(log, id, lo, mid, hi - 1);
    }
  }

  /** Same version and no delete in between: the very same row. */
  lemma SameVersionSameRow(init: Table, log: seq<Commit>, id: Identity, lo: nat, hi: nat)
    requires LogOk(init, log)
    requires lo <= hi <= |log| && NoDelete(log, id, lo, hi)
    requires id in At(init, log, lo) && id in At(init, log, hi)
    requires At(init, log, lo)[id].version == At(init, log, hi)[id].version
    ensures Untouched(log, id, lo, hi) && At(init, log, lo)[id] == At(init, log, hi)[id]
  {
    VersionsCount(init, log, id, lo, hi);
    CountZero(log, id, lo, hi);
    RowFrame(init, log, id, lo, hi);
  }

  /** Within one incarnation, born by the insert at `birth`, the commits carry the versions
      1, 2, 3, ... in this order: the n-th commit on the row writes version n. */
  lemma VersionsConsecutive(init: Table, log: seq<Commit>, id: Identity, birth: nat, j: nat)
    requires LogOk(init, log)
    requires birth <= j < |log| && log[birth].id == log[j].id == id
    requires id !in At(init, log, birth) && NoDelete(log, id, birth, j + 1)
    ensures log[j].effect.row.version == Count(log, id, birth, j + 1)
  {
    assert CommitOkAt(init, log, birth);
    AtNext(init, log, birth);
    VersionsCount(init, log, id, birth + 1, j + 1);
    CountSplit(log, id, birth, birth + 1, j + 1);
    AtNext(init, log, j);
  }

  /** One incarnation never commits the same version twice. */
  lemma VersionsDistinct(init: Table, log: seq<Commit>, id: Identity, i: nat, j: nat)
    requires LogOk(init, log)
    requires i < j < |log| && log[i].id == log[j].id == id
    requires NoDelete(log, id, i, j + 1)
    ensures log[i].effect.row.version < log[j].effect.row.version
  {
    AtNext(init, log, i);
    VersionsCount(init, log, id, i + 1, j + 1);
    CountSplit(log, id, i + 1, j, j + 1);
    AtNext(init, log, j);
  }

  /** A row that is never deleted is created once. */
  lemma OneBirth(init: Table, log: seq<Commit>, id: Identity, from: nat, c: nat, d: nat)
    requires LogOk(init, log) && from <= |log| && NoDelete(log, id, from, |log|)
    requires from <= c < |log| && log[c].id == id && id !in At(init, log, c)
    requires from <= d < |log| && log[d].id == id && id !in At(init, log, d)
    ensures c == d
  {
    var lo, hi := if c < d then c else d, if c < d then d else c;
    if lo < hi {
      AtNext(init, log, lo);
      assert log[lo].effect.Upserted?;
      VersionsCount(init, log, id, lo + 1, hi);
    }
  }

  /** A row that is not deleted takes each version once. */
  lemma OneBump(init: Table, log: seq<Commit>, id: Identity, lo: nat, c: nat, d: nat)
    requires LogOk(init, log) && lo <= |log| && NoDelete(log, id, lo, |log|)
    requires lo <= c < |log| && lo <= d < |log| && log[c].id == log[d].id == id
    requires log[c].effect.row.version == log[d].effect.row.version
    ensures c == d
  {
    if c < d {
      VersionsDistinct(init, log, id, c, d);
    } else if d < c {
      VersionsDistinct(init, log, id, d, c);
    }
  }

  /** A row that came into being between two moments was inserted there. */
  lemma {:induction false} Appeared(init: Table, log: seq<Commit>, id: Identity, lo: nat, hi: nat) returns (i: nat)
    requires lo <= hi <= |log|
    requires id !in At(init, log, lo) && id in At(init, log, hi)
    ensures lo <= i < hi && log[i].id == id && log[i].effect.Upserted? && id !in At(init, log, i)
    decreases hi
  {
    AtNext(init, log, hi - 1);
    if id in At(init, log, hi - 1) {
      i := Appeared(init, log, id, lo, hi - 1);
    } else {
      i := hi - 1;
    }
  }

  /** A row that went away between two moments was deleted there. */
  lemma {:induction false} Disappeared(init: Table, log: seq<Commit>, id: Identity, lo: nat, hi: nat) returns (i: nat)
    requires lo <= hi <= |log|
    requires id in At(init, log, lo) && id !in At(init, log, hi)
    ensures lo <= i < hi && log[i].id == id && log[i].effect.Deleted?
    decreases hi
  {
    AtNext(init, log, hi - 1);
    if id in At(init, log, hi - 1) {
      i := hi - 1;
    } else {
      i := Disappeared(init, log, id, lo, hi - 1);
    }
  }

  /** The first commit on `id` in a range that has one. */
  lemma {:induction false} FirstTouch(log: seq<Commit>, id: Identity, lo: nat, hi: nat) returns (i: nat)
    requires lo <= hi <= |log| && !Untouched(log, id, lo, hi)
    ensures lo <= i < hi && log[i].id == id && Untouched(log, id, lo, i)
    decreases hi - lo
  {
    if log[lo].id == id {
      i := lo;
    } else {
      i := FirstTouch(log, id, lo + 1, hi);
    }
  }

  /** The last commit on `id` in a range that has one. */
  lemma {:induction false} LastTouch(log: seq<Commit>, id: Identity, hi: nat) returns (i: nat)
    requires hi <= |log| && !Untouched(log, id, 0, hi)
    ensures i < hi && log[i].id == id && Untouched(log, id, i + 1, hi)
    decreases hi
  {
    if log[hi - 1].id == id {
      i := hi - 1;
    } else {
      i := LastTouch(log, id, hi - 1);
    }
  }

  /** The last time a row that is there came into being, if it was deleted since `lo`. */
  lemma {:induction false} LastBirth(init: Table, log: seq<Commit>, id: Identity, lo: nat, hi: nat) returns (b: nat)
    requires lo <= hi <= |log| && id in At(init, log, hi) && !NoDelete(log, id, lo, hi)
    ensures lo <= b < hi && log[b].id == id && id !in At(init, log, b) && NoDelete(log, id, b, hi)
    decreases hi
  {
    AtNext(init, log, hi - 1);
    if id !in At(init, log, hi - 1) {
      b := hi - 1;
    } else {
      b := LastBirth(init, log, id, lo, hi - 1);
    }
  }

  /** A row that was born by commit `b` and not deleted since is at the version that counts the
      commits on it from there on. */
  lemma VersionSinceBirth(init: Table, log: seq<Commit>, id: Identity, b: nat)
    requires LogOk(init, log)
    requires b < |log| && log[b].id == id && id !in At(init, log, b) && NoDelete(log, id, b, |log|)
    ensures id in At(init, log, |log|) && At(init, log, |log|)[id].version == Count(log, id, b, |log|)
  {
    assert CommitOkAt(init, log, b);
    AtNext(init, log, b);
    VersionsCount(init, log, id, b + 1, |log|);
    CountSplit(log, id, b, b + 1, |log|);
  }
}
