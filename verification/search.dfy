/** The search statement and its decode loop against "filter by what the authority may read,
    order by key, cut out the page". */
module Search {
  import opened AuthModel
  import opened Json
  import opened Paging
  import opened SettingModel
  import opened SettingsTable
  import opened SqlRows
  import opened Wrappers

  // --- Three-valued logic ---

  datatype Sql = True | False | Unknown
  {
    function And(other: Sql): Sql {
      if False? || other.False? then False
      else if True? && other.True? then True
      else Unknown
    }

    function Or(other: Sql): Sql {
      if True? || other.True? then True
      else if False? && other.False? then False
      else Unknown
    }
  }

  function Holds(b: bool): Sql {
    if b then True else False
  }

  /** Equality of a column with a text, unknown when the column is null. */
  function EqText(a: Option<string>, b: string): Sql {
    match a
    case None => Unknown
    case Some(x) => Holds(x == b)
  }

  /** What the pattern matches: any predicate on keys and on the text of values. */
  datatype Pattern = Pattern(key: string -> bool, value: Value -> bool)
  {
    predicate Matches(r: Row) {
      key(r.key) || value(r.value)
    }
  }

  // --- The statement ---

  /** The WHERE clause of the visible rows. */
  function VisibleWhen(r: Row, a: Authority, p: Pattern): Sql {
    Holds(r.tenant == a.tenant)
    .And(Holds(p.key(r.key)).Or(Holds(p.value(r.value))))
    .And(EqText(r.user, a.user).Or(Holds(a.role.Admin?).And(Holds(r.user.None?))))
  }

  function Visible(rows: set<Row>, a: Authority, p: Pattern): set<Row> {
    set r | r in rows && VisibleWhen(r, a, p).True?
  }

  /** The rows the service means to show. */
  function Readable(rows: set<Row>, a: Authority, p: Pattern): set<Row> {
    set r | r in rows && p.Matches(r) && a.CanRead(DecodedOwnership(r))
  }

  /** The clause keeps exactly the matching rows the authority may read, except for a row
      stored with an empty user, where it does only for an admin with an empty name and for
      a user with another one. */
  lemma VisibleIsReadableIff(r: Row, a: Authority, p: Pattern)
    requires r.tenant == a.tenant && p.Matches(r)
    ensures (VisibleWhen(r, a, p).True? <==> a.CanRead(DecodedOwnership(r)))
            <==> r.user != Some("") || (a.role.Admin? <==> a.user == "")
  {
  }

  /** What the clause shows of a row: what may be read, but a row stored with an empty user, which
      is decoded as a shared row, is shown to the authorities with an empty name. */
  predicate Shows(a: Authority, r: Row) {
    if r.user == Some("") then r.tenant == a.tenant && a.user == ""
    else a.CanRead(DecodedOwnership(r))
  }

  function Shown(rows: set<Row>, a: Authority, p: Pattern): set<Row> {
    set r | r in rows && p.Matches(r) && Shows(a, r)
  }

  lemma VisibleIsShown(rows: set<Row>, a: Authority, p: Pattern)
    ensures Visible(rows, a, p) == Shown(rows, a, p)
  {
    forall r | r in rows ensures r in Visible(rows, a, p) <==> r in Shown(rows, a, p) {
      if r.tenant == a.tenant && p.Matches(r) {
        VisibleIsReadableIff(r, a, p);
      }
    }
  }

  /** The rows shown are the rows that may be read exactly when no matching row is stored with an
      empty user, but for an admin with an empty name and a user with another one. */
  lemma ShownIsReadableIff(rows: set<Row>, a: Authority, p: Pattern)
    ensures Shown(rows, a, p) == Readable(rows, a, p) <==>
            forall r | r in rows && r.tenant == a.tenant && p.Matches(r) && r.user == Some("") :: a.role.Admin? <==> a.user == ""
  {
    forall r | r in rows && r.tenant == a.tenant && p.Matches(r)
      ensures (r in Shown(rows, a, p) <==> r in Readable(rows, a, p)) <==> (r.user == Some("") ==> (a.role.Admin? <==> a.user == ""))
    {
    }
  }

  /** A database collation: a total order on keys. */
  ghost predicate Collation(le: (string, string) -> bool) {
    && (forall a, b :: le(a, b) || le(b, a))
    && (forall a, b :: le(a, b) && le(b, a) ==> a == b)
    && (forall a, b, c :: le(a, b) && le(b, c) ==> le(a, c))
  }

  /** Rows ordered by key alone. */
  function ByKey(le: (string, string) -> bool): (Row, Row) -> bool {
    (r: Row, q: Row) => le(r.key, q.key)
  }

  lemma ByKeyRanks(le: (string, string) -> bool)
    requires Collation(le)
    ensures Ranks(ByKey(le))
  {
    forall a: Row, b: Row ensures ByKey(le)(a, b) || ByKey(le)(b, a) {
      assert le(a.key, b.key) || le(b.key, a.key);
    }
    forall a: Row, b: Row, c: Row | ByKey(le)(a, b) && ByKey(le)(b, c) ensures ByKey(le)(a, c) {
      assert le(a.key, b.key) && le(b.key, c.key);
    }
  }

  /** One row of the statement's answer; the page columns are null on the sentinel row. */
  datatype SearchRow = SearchRow(
    tenant: Option<string>, user: Option<string>, key: Option<string>, value: Option<Value>,
    version: Option<int>, updatedAt: Option<int>, total: int)

  function PageRow(r: Row, total: int): SearchRow {
    SearchRow(Some(r.tenant), r.user, Some(r.key), Some(r.value), Some(r.version), Some(r.updatedAt), total)
  }

  /** The page with the total beside every row; for an empty page one row with the total alone. */
  function Joined(page: seq<Row>, total: int): seq<SearchRow> {
    if page == [] then [SearchRow(None, None, None, None, None, None, total)]
    else seq(|page|, i requires 0 <= i < |page| => PageRow(page[i], total))
  }

  /** `out` is an answer of the search statement: `visible` is listed by key in some order of
      equal keys, the page is cut out of it, and the page is listed by key again. */
  ghost predicate IsSearchAnswer(rows: set<Row>, a: Authority, p: Pattern, pg: Pagination, le: (string, string) -> bool, out: seq<SearchRow>) {
    exists ordered, page ::
      && IsListing(Visible(rows, a, p), ByKey(le), ordered)
      && IsListing(Elements(Slice(ordered, pg)), ByKey(le), page)
      && out == Joined(page, |Visible(rows, a, p)|)
  }

  function Elements(s: seq<Row>): set<Row> {
    set r | r in s
  }

  // --- The decode loop ---

  datatype SearchPage = SearchPage(rows: seq<SettingSnapshot>, total: nat)

  /** The non-null columns a row with a key has. */
  predicate WellFormed(row: SearchRow) {
    row.key.Some? ==> row.tenant.Some? && row.value.Some? && row.version.Some? && row.updatedAt.Some?
  }

  function ToRecord(row: SearchRow): Row
    requires WellFormed(row) && row.key.Some?
  {
    Row(row.tenant.value, row.user, row.key.value, row.value.value, row.version.value, row.updatedAt.value)
  }

  /** The rows of an answer that are not the sentinel. */
  function Records(out: seq<SearchRow>): seq<Row>
    requires forall row | row in out :: WellFormed(row)
  {
    if out == [] then []
    else
      var last := out[|out| - 1];
      assert last in out;
      Records(out[..|out| - 1]) + if last.key.Some? then [ToRecord(last)] else []
  }

  function LastTotal(out: seq<SearchRow>): nat {
    if out == [] then 0
    else
      var t := out[|out| - 1].total;
      if t < 0 then 0 else t
  }

  lemma RecordsOneMore(out: seq<SearchRow>, i: nat)
    requires forall row | row in out :: WellFormed(row)
    requires i < |out|
    ensures Records(out[..i + 1]) == Records(out[..i]) + if out[i].key.Some? then [ToRecord(out[i])] else []
  {
    assert out[..i + 1][..i] == out[..i];
  }

  method DecodeAnswer(base: ClockBase, out: seq<SearchRow>) returns (r: Result<SearchPage, SettingsError>)
    requires forall row | row in out :: WellFormed(row)
    ensures match DecodeAll(base, Records(out))
            case Success(rows) => r == Success(SearchPage(rows, LastTotal(out)))
            case Failure(e) => r == Failure(e)
    ensures r.Success? ==> r.value.total == if out == [] || out[|out| - 1].total < 0 then 0 else out[|out| - 1].total
  {
    var pageRows: seq<SettingSnapshot>, total: nat := [], 0;
    for i := 0 to |out|
      invariant DecodeAll(base, Records(out[..i])) == Success(pageRows)
      invariant total == LastTotal(out[..i])
    {
      var row := out[i];
      RecordsOneMore(out, i);
      total := if row.total < 0 then 0 else row.total;
      if row.key.Some? {
        var decoded := IntoDomain(base, ToRecord(row));
        DecodeOneMore(base, Records(out[..i]), ToRecord(row));
        if decoded.Failure? {
          DecodeStopsEarly(base, out, i + 1);
          return Failure(decoded.error);
        }
        pageRows := pageRows + [decoded.value];
      } else {
        assert Records(out[..i + 1]) == Records(out[..i]);
      }
    }
    assert out[..|out|] == out;
    r := Success(SearchPage(pageRows, total));
  }

  /** One list after the other: the first error wins. */
  function Join(a: Decoded, b: Decoded): Decoded {
    if a.Failure? then a
    else if b.Failure? then b
    else Success(a.value + b.value)
  }

  lemma PrependJoin(one: Result<SettingSnapshot, SettingsError>, a: Decoded, b: Decoded)
    ensures Prepend(one, Join(a, b)) == Join(Prepend(one, a), b)
  {
    if one.Success? && a.Success? && b.Success? {
      assert [one.value] + (a.value + b.value) == ([one.value] + a.value) + b.value;
    }
  }

  lemma DecodeHead(base: ClockBase, s: seq<Row>, t: seq<Row>) returns (head: Result<SettingSnapshot, SettingsError>)
    requires s != []
    ensures DecodeAll(base, s) == Prepend(head, DecodeAll(base, s[1..]))
    ensures DecodeAll(base, s + t) == Prepend(head, DecodeAll(base, s[1..] + t))
  {
    head := IntoDomain(base, s[0]);
    assert (s + t)[1..] == s[1..] + t;
  }

  /** Decoding two lists one after the other. */
  lemma {:induction false} DecodeJoined(base: ClockBase, s: seq<Row>, t: seq<Row>)
    ensures DecodeAll(base, s + t) == Join(DecodeAll(base, s), DecodeAll(base, t))
  {
    if s == [] {
      assert s + t == t;
      assert DecodeAll(base, t).Success? ==> [] + DecodeAll(base, t).value == DecodeAll(base, t).value;
    } else {
      var head := DecodeHead(base, s, t);
      DecodeJoined(base, s[1..], t);
      PrependJoin(head, DecodeAll(base, s[1..]), DecodeAll(base, t));
    }
  }

  lemma DecodeOneMore(base: ClockBase, rows: seq<Row>, r: Row)
    ensures DecodeAll(base, rows).Failure? ==> DecodeAll(base, rows + [r]) == DecodeAll(base, rows)
    ensures DecodeAll(base, rows).Success? ==>
              DecodeAll(base, rows + [r]) ==
              match IntoDomain(base, r)
              case Failure(e) => Failure(e)
              case Success(s) => Success(DecodeAll(base, rows).value + [s])
  {
    DecodeJoined(base, rows, [r]);
    var one := IntoDomain(base, r);
    assert [r][1..] == [];
    assert DecodeAll(base, [r]) == Prepend(one, DecodeAll(base, []));
    if one.Success? {
      assert [one.value] + [] == [one.value];
    }
  }

  /** A prefix that does not decode decides the answer. */
  lemma {:induction false} DecodeStopsEarly(base: ClockBase, out: seq<SearchRow>, i: nat)
    requires forall row | row in out :: WellFormed(row)
    requires i <= |out| && DecodeAll(base, Records(out[..i])).Failure?
    ensures DecodeAll(base, Records(out)) == DecodeAll(base, Records(out[..i]))
    decreases |out| - i
  {
    if i < |out| {
      RecordsOneMore(out, i);
      if out[i].key.Some? {
        DecodeOneMore(base, Records(out[..i]), ToRecord(out[i]));
      } else {
        assert Records(out[..i + 1]) == Records(out[..i]);
      }
      DecodeStopsEarly(base, out, i + 1);
    } else {
      assert out[..i] == out;
    }
  }

  /** Dropping the sentinel, a joined page is the page and its total. */
  lemma {:induction false} RecordsOfJoined(page: seq<Row>, total: nat)
    ensures forall row | row in Joined(page, total) :: WellFormed(row)
    ensures Records(Joined(page, total)) == page && LastTotal(Joined(page, total)) == total
    decreases |page|
  {
    if |page| > 1 {
      var n := |page| - 1;
      RecordsOfJoined(page[..n], total);
      assert Joined(page, total)[..n] == Joined(page[..n], total);
    } else if |page| == 1 {
      assert Joined(page, total)[..0] == [];
    }
  }

  // --- Exactness ---

  /** `answer` is one page of the rows shown, listed by key, and their number. */
  ghost predicate IsPageOf(base: ClockBase, shown: set<Row>, pg: Pagination, le: (string, string) -> bool, answer: SearchPage) {
    && answer.total == |shown|
    && exists ordered ::
         && IsListing(shown, ByKey(le), ordered)
         && DecodeAll(base, Slice(ordered, pg)) == Success(answer.rows)
  }

  /** Every answer of the statement, decoded, is one page of exactly the rows shown to the
      authority: the same set is listed and counted, also on a page out of range. */
  lemma SearchIsExact(base: ClockBase, rows: set<Row>, a: Authority, p: Pattern, pg: Pagination, le: (string, string) -> bool, out: seq<SearchRow>)
    requires Collation(le) && forall r | r in rows :: RowOk(r)
    requires IsSearchAnswer(rows, a, p, pg, le, out)
    ensures forall row | row in out :: WellFormed(row)
    ensures var d := DecodeAll(base, Records(out));
            d.Success? && IsPageOf(base, Shown(rows, a, p), pg, le, SearchPage(d.value, LastTotal(out)))
  {
    VisibleIsShown(rows, a, p);
    var ordered, page :|
      && IsListing(Visible(rows, a, p), ByKey(le), ordered)
      && IsListing(Elements(Slice(ordered, pg)), ByKey(le), page)
      && out == Joined(page, |Visible(rows, a, p)|);
    RecordsOfJoined(page, |Visible(rows, a, p)|);
    var again := Relisted(Visible(rows, a, p), ByKey(le), ordered, page, pg);
    forall r | r in page ensures RowOk(r) {
      assert r in Elements(Slice(ordered, pg));
      assert r in ordered;
    }
    DecodeAllOk(base, page);
  }

  /** The rows shown are those of the tenant whose key or value matches and that are the caller's
      own, or have no user and the caller is an admin. */
  lemma ShownIff(rows: set<Row>, a: Authority, p: Pattern, r: Row)
    ensures r in Shown(rows, a, p) <==>
            && r in rows && r.tenant == a.tenant && (p.key(r.key) || p.value(r.value))
            && (r.user == Some(a.user) || (r.user == None && a.role.Admin?))
  {
  }

  lemma SliceAt(s: seq<Row>, pg: Pagination) returns (from: nat)
    ensures from == (pg.page - 1) * pg.size
    ensures |Slice(s, pg)| == if |s| <= from then 0 else if |s| - from < pg.size then |s| - from else pg.size
    ensures forall i | 0 <= i < |Slice(s, pg)| :: Slice(s, pg)[i] == s[from + i]
  {
    from := Offset(pg);
  }

  /** Decoding a page of well-formed rows gives the content of each. */
  lemma PageContent(base: ClockBase, page: seq<Row>, rows: seq<SettingSnapshot>)
    requires (forall r | r in page :: RowOk(r)) && DecodeAll(base, page) == Success(rows)
    ensures |rows| == |page| && forall i | 0 <= i < |page| :: HasContent(base, rows[i], page[i])
  {
    hide RowOk, IntoDomain, DecodeAll, HasContent;
    DecodeAllOk(base, page);
    forall i | 0 <= i < |page| ensures HasContent(base, rows[i], page[i]) {
      assert page[i] in page;
      DecodedContent(base, page[i]);
    }
  }

  lemma DecodedContent(base: ClockBase, r: Row)
    requires RowOk(r)
    ensures IntoDomain(base, r).Success? && HasContent(base, IntoDomain(base, r).value, r)
  {
    DecodeOk(base, r);
  }

  /** What a page of the rows shown lists and counts: the rows of the tenant whose key or value
      matches and that are the caller's own, or have no user and the caller is an admin, each
      once and in key order; of these the page, from row `(page - 1) * size` on, with the content
      of each, and the number of them all. */
  lemma PageListsExactly(base: ClockBase, rows: set<Row>, a: Authority, p: Pattern, pg: Pagination, le: (string, string) -> bool, answer: SearchPage)
    returns (ordered: seq<Row>, from: nat)
    requires (forall r | r in rows :: RowOk(r)) && IsPageOf(base, Shown(rows, a, p), pg, le, answer)
    ensures forall r :: r in ordered <==>
                        && r in rows && r.tenant == a.tenant && (p.key(r.key) || p.value(r.value))
                        && (r.user == Some(a.user) || (r.user == None && a.role.Admin?))
    ensures forall i, j | 0 <= i < j < |ordered| :: ordered[i] != ordered[j] && le(ordered[i].key, ordered[j].key)
    ensures from == (pg.page - 1) * pg.size && answer.total == |ordered|
    ensures |answer.rows| == if |ordered| <= from then 0 else if |ordered| - from < pg.size then |ordered| - from else pg.size
    ensures forall i | 0 <= i < |answer.rows| :: HasContent(base, answer.rows[i], ordered[from + i])
  {
    hide RowOk, IntoDomain, DecodeAll, Slice, HasContent, Shown;
    var shown := Shown(rows, a, p);
    ordered :| IsListing(shown, ByKey(le), ordered) && DecodeAll(base, Slice(ordered, pg)) == Success(answer.rows);
    ListingLength(shown, ByKey(le), ordered);
    forall r ensures r in ordered <==>
                     && r in rows && r.tenant == a.tenant && (p.key(r.key) || p.value(r.value))
                     && (r.user == Some(a.user) || (r.user == None && a.role.Admin?))
    {
      ShownIff(rows, a, p, r);
    }
    from := SliceAt(ordered, pg);
    forall r | r in Slice(ordered, pg) ensures RowOk(r) {
      var i :| 0 <= i < |Slice(ordered, pg)| && Slice(ordered, pg)[i] == r;
      assert ordered[from + i] in ordered;
    }
    PageContent(base, Slice(ordered, pg), answer.rows);
  }

  /** The aggregate holds what the row holds; an empty user is none. */
  ghost predicate HasContent(base: ClockBase, s: SettingSnapshot, r: Row) {
    && s.key == r.key && s.value == r.value && s.version == r.version && s.updatedAt == base.FromMillis(r.updatedAt)
    && s.ownership == Ownership(r.tenant, if r.user == Some("") then None else r.user)
  }

  /** A row of the caller's own of which only the key matches is listed and counted. */
  lemma KeyMatchSuffices(base: ClockBase, r: Row, le: (string, string) -> bool, answer: SearchPage)
    requires RowOk(r) && r.user.Some?
    requires IsPageOf(base, Shown({r}, Authority(r.tenant, r.user.value, User), Pattern(k => k == r.key, v => false)), PageRequest(1, 20), le, answer)
    ensures answer.total == 1 == |answer.rows| && answer.rows[0].key == r.key
  {
    hide RowOk, IsPageOf, Shown;
    var a, p := Authority(r.tenant, r.user.value, User), Pattern(k => k == r.key, v => false);
    var ordered, from := PageListsExactly(base, {r}, a, p, PageRequest(1, 20), le, answer);
    ListingLength({r}, ByKey(le), ordered);
  }

  /** So is one of which only the value matches. */
  lemma ValueMatchSuffices(base: ClockBase, r: Row, le: (string, string) -> bool, answer: SearchPage)
    requires RowOk(r) && r.user.Some?
    requires IsPageOf(base, Shown({r}, Authority(r.tenant, r.user.value, User), Pattern(k => false, v => v == r.value)), PageRequest(1, 20), le, answer)
    ensures answer.total == 1 == |answer.rows| && answer.rows[0].key == r.key
  {
    hide RowOk, IsPageOf, Shown;
    var a, p := Authority(r.tenant, r.user.value, User), Pattern(k => false, v => v == r.value);
    var ordered, from := PageListsExactly(base, {r}, a, p, PageRequest(1, 20), le, answer);
    ListingLength({r}, ByKey(le), ordered);
  }

  /** A stretch of a listing lists its rows, and any listing of them is as long. */
  lemma CutListing(rows: set<Row>, le: (Row, Row) -> bool, ordered: seq<Row>, lo: nat, hi: nat, page: seq<Row>)
    requires IsListing(rows, le, ordered) && lo <= hi <= |ordered|
    requires IsListing(Elements(ordered[lo..hi]), le, page)
    ensures |page| == hi - lo
    ensures forall r :: r in page <==> r in ordered[lo..hi]
    ensures forall i, j | 0 <= i < j < |page| :: page[i] != page[j] && le(page[i], page[j])
  {
    var cut := ordered[lo..hi];
    assert IsListing(Elements(cut), le, cut);
    ListingLength(Elements(cut), le, page);
    ListingLength(Elements(cut), le, cut);
  }

  /** Listing a page again is cutting the page out of another listing. */
  lemma Relisted(rows: set<Row>, le: (Row, Row) -> bool, ordered: seq<Row>, page: seq<Row>, pg: Pagination) returns (again: seq<Row>)
    requires IsListing(rows, le, ordered) && IsListing(Elements(Slice(ordered, pg)), le, page)
    ensures IsListing(rows, le, again) && Slice(again, pg) == page
  {
    var lo := if Offset(pg) < |ordered| then Offset(pg) else |ordered|;
    var hi := if lo + pg.size < |ordered| then lo + pg.size else |ordered|;
    CutListing(rows, le, ordered, lo, hi, page);
    again := ordered[..lo] + page + ordered[hi..];
    RelistedRows(rows, le, ordered, lo, hi, page, again);
    RelistedOrder(rows, le, ordered, lo, hi, page, again);
    RelistedSlice(ordered, lo, hi, page, again, pg);
  }

  lemma RelistedSlice(ordered: seq<Row>, lo: nat, hi: nat, page: seq<Row>, again: seq<Row>, pg: Pagination)
    requires lo == (if Offset(pg) < |ordered| then Offset(pg) else |ordered|)
    requires hi == (if lo + pg.size < |ordered| then lo + pg.size else |ordered|)
    requires |page| == hi - lo && again == ordered[..lo] + page + ordered[hi..]
    ensures Slice(again, pg) == page
  {
    assert |again| == |ordered|;
    assert again[lo..hi] == page;
  }

  lemma RelistedRows(rows: set<Row>, le: (Row, Row) -> bool, ordered: seq<Row>, lo: nat, hi: nat, page: seq<Row>, again: seq<Row>)
    requires IsListing(rows, le, ordered) && lo <= hi <= |ordered|
    requires again == ordered[..lo] + page + ordered[hi..]
    requires forall r :: r in page <==> r in ordered[lo..hi]
    ensures forall r :: r in again <==> r in rows
  {
    assert ordered == ordered[..lo] + ordered[lo..hi] + ordered[hi..];
    forall r ensures r in again <==> r in rows {
      assert r in again <==> r in ordered[..lo] || r in page || r in ordered[hi..];
      assert r in ordered <==> r in ordered[..lo] || r in ordered[lo..hi] || r in ordered[hi..];
    }
  }

  lemma RelistedOrder(rows: set<Row>, le: (Row, Row) -> bool, ordered: seq<Row>, lo: nat, hi: nat, page: seq<Row>, again: seq<Row>)
    requires IsListing(rows, le, ordered) && lo <= hi <= |ordered| && |page| == hi - lo
    requires again == ordered[..lo] + page + ordered[hi..]
    requires forall r :: r in page <==> r in ordered[lo..hi]
    requires forall i, j | 0 <= i < j < |page| :: page[i] != page[j] && le(page[i], page[j])
    ensures forall i, j | 0 <= i < j < |again| :: again[i] != again[j] && le(again[i], again[j])
  {
    forall i, j | 0 <= i < j < |again| ensures again[i] != again[j] && le(again[i], again[j]) {
      if lo <= i && j < hi {
        assert again[i] == page[i - lo] && again[j] == page[j - lo];
      } else {
        var x := PlaceOf(ordered, lo, hi, page, again, i);
        var y := PlaceOf(ordered, lo, hi, page, again, j);
        assert x < y;
      }
    }
  }

  /** Where an entry of the relisted sequence stood before. */
  lemma PlaceOf(ordered: seq<Row>, lo: nat, hi: nat, page: seq<Row>, again: seq<Row>, i: nat) returns (x: nat)
    requires lo <= hi <= |ordered| && |page| == hi - lo
    requires again == ordered[..lo] + page + ordered[hi..] && i < |again|
    requires forall r :: r in page <==> r in ordered[lo..hi]
    ensures x < |ordered| && ordered[x] == again[i]
    ensures if lo <= i < hi then lo <= x < hi else x == i
  {
    if lo <= i < hi {
      assert again[i] == page[i - lo] && page[i - lo] in page;
      assert again[i] in ordered[lo..hi];
      x :| lo <= x < hi && ordered[x] == again[i];
    } else {
      x := i;
    }
  }

  // --- Determinism ---

  ghost predicate DistinctKeys(rows: set<Row>) {
    forall r, q | r in rows && q in rows && r.key == q.key :: r == q
  }

  /** With distinct keys the rows have one listing. */
  lemma {:induction false} ListingUnique(rows: set<Row>, le: (string, string) -> bool, o1: seq<Row>, o2: seq<Row>)
    requires Collation(le) && DistinctKeys(rows)
    requires IsListing(rows, ByKey(le), o1) && IsListing(rows, ByKey(le), o2)
    ensures o1 == o2
    decreases |o1|
  {
    ListingLength(rows, ByKey(le), o1);
    ListingLength(rows, ByKey(le), o2);
    if o1 != [] {
      assert o1[0] in rows && o2[0] in rows;
      assert o1[0] == o2[0] by {
        var i :| 0 <= i < |o1| && o1[i] == o2[0];
        var j :| 0 <= j < |o2| && o2[j] == o1[0];
      }
      TailListing(rows, ByKey(le), o1);
      TailListing(rows, ByKey(le), o2);
      ListingUnique(rows - {o1[0]}, le, o1[1..], o2[1..]);
      assert o1 == [o1[0]] + o1[1..] && o2 == [o2[0]] + o2[1..];
    }
  }

  lemma TailListing(rows: set<Row>, le: (Row, Row) -> bool, o: seq<Row>)
    requires IsListing(rows, le, o) && o != []
    ensures IsListing(rows - {o[0]}, le, o[1..])
  {
    assert o == [o[0]] + o[1..];
  }

  /** Two rows that share a key can be listed either way: exchanging them lists the rows too. */
  lemma TiesAreAmbiguous(rows: set<Row>, le: (string, string) -> bool, o: seq<Row>, i: nat, j: nat)
    requires Collation(le) && IsListing(rows, ByKey(le), o)
    requires i < j < |o| && o[i].key == o[j].key
    ensures IsListing(rows, ByKey(le), o[i := o[j]][j := o[i]]) && o[i := o[j]][j := o[i]] != o
  {
    var s := o[i := o[j]][j := o[i]];
    forall r ensures r in s <==> r in rows {
      if r in s {
        var k :| 0 <= k < |s| && s[k] == r;
        assert r == o[if k == i then j else if k == j then i else k];
      }
      if r in rows {
        var k :| 0 <= k < |o| && o[k] == r;
        assert r == s[if k == i then j else if k == j then i else k];
      }
    }
    forall k | i <= k <= j ensures o[k].key == o[i].key {
      if i < k < j {
        assert ByKey(le)(o[i], o[k]) && ByKey(le)(o[k], o[j]);
      }
    }
    forall x, y | 0 <= x < y < |s| ensures s[x] != s[y] && ByKey(le)(s[x], s[y]) {
      assert s[x].key == o[x].key && s[y].key == o[y].key;
      assert ByKey(le)(o[x], o[y]);
    }
  }

  /** The rows have one listing exactly when no two of them share a key. */
  lemma ListingUniqueIff(rows: set<Row>, le: (string, string) -> bool, o: seq<Row>)
    requires Collation(le) && IsListing(rows, ByKey(le), o)
    ensures (forall o2 | IsListing(rows, ByKey(le), o2) :: o2 == o) <==> DistinctKeys(rows)
  {
    if DistinctKeys(rows) {
      forall o2 | IsListing(rows, ByKey(le), o2) ensures o2 == o {
        ListingUnique(rows, le, o, o2);
      }
    } else {
      TieMakesAnother(rows, le, o);
    }
  }

  /** Where two listed rows share a key. */
  lemma TiedPlaces(rows: set<Row>, le: (Row, Row) -> bool, o: seq<Row>) returns (i: nat, j: nat)
    requires IsListing(rows, le, o) && !DistinctKeys(rows)
    ensures i < j < |o| && o[i].key == o[j].key
  {
    var r, q :| r in rows && q in rows && r.key == q.key && r != q;
    assert r in o && q in o;
    var x :| 0 <= x < |o| && o[x] == r;
    var y :| 0 <= y < |o| && o[y] == q;
    i, j := if x < y then x else y, if x < y then y else x;
  }

  lemma TieMakesAnother(rows: set<Row>, le: (string, string) -> bool, o: seq<Row>)
    requires Collation(le) && IsListing(rows, ByKey(le), o) && !DistinctKeys(rows)
    ensures exists o2 :: IsListing(rows, ByKey(le), o2) && o2 != o
  {
    hide IsListing, Collation, DistinctKeys;
    var i, j := TiedPlaces(rows, ByKey(le), o);
    TiesAreAmbiguous(rows, le, o, i, j);
  }

  /** The unique index makes the keys a user is shown distinct. */
  lemma UsersSeeDistinctKeys(rows: set<Row>, a: Authority, p: Pattern)
    requires UniqueIndex(rows) && a.role.User?
    ensures DistinctKeys(Shown(rows, a, p))
  {
    forall r, q | r in Shown(rows, a, p) && q in Shown(rows, a, p) && r.key == q.key ensures r == q {
      assert r.user == Some(a.user) == q.user;
      assert IdentityOf(r) == IdentityOf(q);
    }
  }

  // --- All pages ---

  /** The answers a client collects, one a page, joined. */
  ghost function Collected(answers: seq<SearchPage>): seq<SettingSnapshot> {
    if answers == [] then [] else Collected(answers[..|answers| - 1]) + answers[|answers| - 1].rows
  }

  /** With distinct keys, an answer to every page from the first to the last lists, together,
      every row shown exactly once, in key order. */
  lemma PagesListAll(base: ClockBase, shown: set<Row>, size: U32, le: (string, string) -> bool, ordered: seq<Row>, answers: seq<SearchPage>)
    requires Collation(le) && 1 <= size <= 100
    requires DistinctKeys(shown) && Addressable(size, |ordered|) && IsListing(shown, ByKey(le), ordered)
    requires |answers| == PageCount(|ordered|, size) <= 0xFFFF_FFFF
    requires forall i | 0 <= i < |answers| :: IsPageOf(base, shown, PageRequest(i + 1, size), le, answers[i])
    ensures DecodeAll(base, ordered) == Success(Collected(answers))
  {
    hide PageCount, Addressable, PagesJoined, IsListing, IsPageOf, DecodeAll, Slice, DistinctKeys, Collation;
    PagesJoinToAll(ordered, size);
    forall i | 0 <= i < |answers| ensures AnswersSlice(base, ordered, size, i + 1, answers[i]) {
      PageIsSlice(base, shown, PageRequest(i + 1, size), le, ordered, answers[i]);
    }
    CollectedIsJoined(base, size, ordered, answers);
  }

  /** Answers that decode the pages of a list, joined, decode the pages joined. */
  lemma {:induction false} CollectedIsJoined(base: ClockBase, size: U32, ordered: seq<Row>, answers: seq<SearchPage>)
    requires 1 <= size <= 100 && |answers| <= 0xFFFF_FFFF
    requires forall i | 0 <= i < |answers| :: AnswersSlice(base, ordered, size, i + 1, answers[i])
    ensures DecodeAll(base, PagesJoined(ordered, size, |answers|)) == Success(Collected(answers))
    decreases |answers|
  {
    if answers != [] {
      var n := |answers| - 1;
      CollectedIsJoined(base, size, ordered, answers[..n]);
      assert AnswersSlice(base, ordered, size, n + 1, answers[n]);
      DecodeJoined(base, PagesJoined(ordered, size, n), Slice(ordered, PageRequest(n + 1, size)));
    }
  }

  ghost predicate AnswersSlice(base: ClockBase, ordered: seq<Row>, size: U32, page: nat, answer: SearchPage) {
    && page <= 0xFFFF_FFFF && ValidPage(PageRequest(page, size))
    && DecodeAll(base, Slice(ordered, PageRequest(page, size))) == Success(answer.rows)
  }

  /** Every page reports the length of the whole list. */
  lemma PageTotal(base: ClockBase, shown: set<Row>, pg: Pagination, le: (string, string) -> bool,
                  ordered: seq<Row>, answer: SearchPage)
    requires IsListing(shown, ByKey(le), ordered)
    requires IsPageOf(base, shown, pg, le, answer)
    ensures answer.total == |ordered|
  {
    hide IsListing;
    ListingLength(shown, ByKey(le), ordered);
  }

  /** With distinct keys a page can only be cut out of the one listing. */
  lemma PageIsSlice(base: ClockBase, shown: set<Row>, pg: Pagination, le: (string, string) -> bool,
                    ordered: seq<Row>, answer: SearchPage)
    requires Collation(le) && DistinctKeys(shown)
    requires IsListing(shown, ByKey(le), ordered)
    requires IsPageOf(base, shown, pg, le, answer)
    ensures DecodeAll(base, Slice(ordered, pg)) == Success(answer.rows)
  {
    var o :| IsListing(shown, ByKey(le), o) && DecodeAll(base, Slice(o, pg)) == Success(answer.rows);
    ListingUnique(shown, le, o, ordered);
  }
}
