/** SQL over the stored rows: the unique index, the keyed view of the table, and ORDER BY. */
module SqlRows {
  import opened SettingsTable

  /** What the unique index on (tenant, COALESCE(user, ''), key) enforces. */
  ghost predicate UniqueIndex(rows: set<Row>) {
    forall r, q | r in rows && q in rows && IdentityOf(r) == IdentityOf(q) :: r == q
  }

  function Identities(rows: set<Row>): set<Identity> {
    set r | r in rows :: IdentityOf(r)
  }

  /** The rows by identity. */
  ghost function View(rows: set<Row>): (t: Table)
    ensures t.Keys == Identities(rows)
    ensures forall id | id in t :: t[id] in rows && IdentityOf(t[id]) == id
  {
    map id | id in Identities(rows) :: var r :| r in rows && IdentityOf(r) == id; r
  }

  /** The rows a keyed statement selects: those of one tenant, user and key, no user counting as an
      empty one. */
  function WhereIdentity(rows: set<Row>, id: Identity): set<Row> {
    set r | r in rows && r.tenant == id.tenant && Coalesce(r.user) == id.user && r.key == id.key
  }

  /** The rows a conditional statement selects: of these, those at the expected version. */
  function WhereVersion(rows: set<Row>, id: Identity, version: int): set<Row> {
    set r | r in WhereIdentity(rows, id) && r.version == version
  }

  lemma ViewRow(rows: set<Row>, r: Row)
    requires UniqueIndex(rows) && r in rows
    ensures IdentityOf(r) in View(rows) && View(rows)[IdentityOf(r)] == r
  {
    assert IdentityOf(r) in Identities(rows);
  }

  /** Under the index a keyed condition selects at most the one row of the view. */
  lemma WhereIsLookup(rows: set<Row>, id: Identity)
    requires UniqueIndex(rows)
    ensures WhereIdentity(rows, id) == if id in View(rows) then {View(rows)[id]} else {}
  {
    forall r | r in WhereIdentity(rows, id) ensures id in View(rows) && r == View(rows)[id] {
      ViewRow(rows, r);
    }
  }

  lemma WhereVersionIsLookup(rows: set<Row>, id: Identity, version: int)
    requires UniqueIndex(rows)
    ensures WhereVersion(rows, id, version) ==
            if id in View(rows) && View(rows)[id].version == version then {View(rows)[id]} else {}
  {
    WhereIsLookup(rows, id);
  }

  /** Two sets of rows with the index and the same rows have the same view. */
  lemma ViewIs(rows: set<Row>, t: Table)
    requires UniqueIndex(rows)
    requires forall r | r in rows :: IdentityOf(r) in t && t[IdentityOf(r)] == r
    requires forall id | id in t :: t[id] in rows && IdentityOf(t[id]) == id
    ensures View(rows) == t
  {
    forall id ensures id in View(rows) <==> id in t {
      if id in t { ViewRow(rows, t[id]); }
    }
    forall id | id in t ensures View(rows)[id] == t[id] {
      ViewRow(rows, t[id]);
    }
  }

  /** Adding a row the index admits. */
  lemma ViewInsert(rows: set<Row>, r: Row)
    requires UniqueIndex(rows) && IdentityOf(r) !in View(rows)
    ensures UniqueIndex(rows + {r}) && View(rows + {r}) == View(rows)[IdentityOf(r) := r]
  {
    forall q | q in rows ensures IdentityOf(q) != IdentityOf(r) {
      ViewRow(rows, q);
    }
    forall q | q in rows ensures View(rows)[IdentityOf(r) := r][IdentityOf(q)] == q {
      ViewRow(rows, q);
    }
    ViewIs(rows + {r}, View(rows)[IdentityOf(r) := r]);
  }

  /** Replacing a row by one of the same identity. */
  lemma ViewReplace(rows: set<Row>, r: Row, q: Row)
    requires UniqueIndex(rows) && r in rows && IdentityOf(q) == IdentityOf(r)
    ensures UniqueIndex(rows - {r} + {q}) && View(rows - {r} + {q}) == View(rows)[IdentityOf(r) := q]
  {
    forall p | p in rows && p != r ensures IdentityOf(p) in View(rows) && View(rows)[IdentityOf(p)] == p && IdentityOf(p) != IdentityOf(r) {
      ViewRow(rows, p);
    }
    ViewRow(rows, r);
    ViewIs(rows - {r} + {q}, View(rows)[IdentityOf(r) := q]);
  }

  lemma ViewDelete(rows: set<Row>, r: Row)
    requires UniqueIndex(rows) && r in rows
    ensures UniqueIndex(rows - {r}) && View(rows - {r}) == View(rows) - {IdentityOf(r)}
  {
    forall p | p in rows && p != r ensures IdentityOf(p) in View(rows) && View(rows)[IdentityOf(p)] == p && IdentityOf(p) != IdentityOf(r) {
      ViewRow(rows, p);
    }
    ViewRow(rows, r);
    ViewIs(rows - {r}, View(rows) - {IdentityOf(r)});
  }

  // --- ORDER BY ---

  /** A total preorder, as an ORDER BY clause compares rows. */
  ghost predicate Ranks(le: (Row, Row) -> bool) {
    && (forall a, b :: le(a, b) || le(b, a))
    && (forall a, b, c :: le(a, b) && le(b, c) ==> le(a, c))
  }

  /** `ordered` is one way of listing the rows in order: each row once, ties in any order. */
  ghost predicate IsListing(rows: set<Row>, le: (Row, Row) -> bool, ordered: seq<Row>) {
    && (forall i, j | 0 <= i < j < |ordered| :: ordered[i] != ordered[j])
    && (forall r :: r in ordered <==> r in rows)
    && (forall i, j | 0 <= i < j < |ordered| :: le(ordered[i], ordered[j]))
  }

  ghost predicate IsFirst(rows: set<Row>, le: (Row, Row) -> bool, r: Row) {
    r in rows && forall q | q in rows :: le(r, q)
  }

  lemma {:induction false} FirstExists(rows: set<Row>, le: (Row, Row) -> bool)
    requires rows != {} && Ranks(le)
    ensures exists r :: IsFirst(rows, le, r)
  {
    var x :| x in rows;
    assert le(x, x);
    if rows == {x} {
      assert IsFirst(rows, le, x);
    } else {
      FirstExists(rows - {x}, le);
      var y :| IsFirst(rows - {x}, le, y);
      var z := if le(x, y) then x else y;
      forall q | q in rows ensures le(z, q) {
        assert q == x || le(y, q);
      }
      assert IsFirst(rows, le, z);
    }
  }

  lemma ListingLength(rows: set<Row>, le: (Row, Row) -> bool, ordered: seq<Row>)
    requires IsListing(rows, le, ordered)
    ensures |ordered| == |rows|
    decreases |ordered|
  {
    if ordered != [] {
      var last := ordered[|ordered| - 1];
      var front := ordered[..|ordered| - 1];
      assert ordered == front + [last];
      assert last !in front;
      assert forall r :: r in front <==> r in rows - {last};
      ListingLength(rows - {last}, le, front);
    } else {
      assert forall r :: r in rows ==> r in ordered;
      assert rows == {};
    }
  }

  method AnyFirst(rows: set<Row>, le: (Row, Row) -> bool) returns (r: Row)
    requires rows != {} && Ranks(le)
    ensures IsFirst(rows, le, r)
  {
    FirstExists(rows, le);
    assert exists r :: r in rows && forall q | q in rows :: le(r, q) by {
      var f :| IsFirst(rows, le, f);
    }
    r :| r in rows && forall q | q in rows :: le(r, q);
  }

  /** The database sorting rows: some first row, then the rest. */
  method OrderBy(rows: set<Row>, le: (Row, Row) -> bool) returns (ordered: seq<Row>)
    requires Ranks(le)
    ensures IsListing(rows, le, ordered)
  {
    ordered := [];
    var rest := rows;
    while rest != {}
      invariant rest <= rows
      invariant forall r :: r in ordered <==> r in rows && r !in rest
      invariant forall i, j | 0 <= i < j < |ordered| :: ordered[i] != ordered[j] && le(ordered[i], ordered[j])
      invariant forall r, q | r in ordered && q in rest :: le(r, q)
      decreases |rest|
    {
      var r := AnyFirst(rest, le);
      assert forall q | q in ordered :: q != r && le(q, r);
      ordered := ordered + [r];
      rest := rest - {r};
    }
  }
}
