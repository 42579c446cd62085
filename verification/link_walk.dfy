/** A client that walks through a listing by the links of the headers it is sent. */
module LinkWalk {
  import opened AuthModel
  import opened FormQuery
  import opened LinkFollow
  import opened Paging
  import opened Search
  import opened SettingsTable
  import opened SqlRows
  import opened Wrappers

  /** What stays the same while a client walks: the stored rows, who asks, what a text matches,
      the order of keys, and how bytes are read. */
  datatype Listed = Listed(
    base: ClockBase, rows: set<Row>, a: Authority, matching: string -> Pattern,
    le: (string, string) -> bool, read: ByteReader)
  {
    /** The rows that match the query of a request; none is the empty text. */
    function ShownTo(q: ListQuery): set<Row> {
      Shown(rows, a, matching(if q.query.Some? then q.query.value else ""))
    }
  }

  /** The page a request asks for, by default the first of twenty rows. */
  function PageAsked(q: ListQuery): Result<Pagination, PaginationError> {
    NewPagination(if q.page.Some? then q.page.value else 1, if q.size.Some? then q.size.value else 20)
  }

  /** A request without page and size is for the first twenty rows, one without a query is for the
      empty text, and sizes are up to 100. */
  lemma Defaults(w: Listed, page: U32, size: U32, query: Option<string>)
    ensures PageAsked(ListQuery(None, None, query)) == Success(PageRequest(1, 20))
    ensures w.ShownTo(ListQuery(Some(page), Some(size), None)) == w.ShownTo(ListQuery(Some(page), Some(size), Some("")))
    ensures PageAsked(ListQuery(Some(page), Some(size), query)).Success? <==> page != 0 && 1 <= size <= 100
  {
  }

  /** The request is valid and may be answered with `answer`. */
  ghost predicate MayAnswer(w: Listed, q: ListQuery, answer: SearchPage) {
    PageAsked(q).Success? && IsPageOf(w.base, w.ShownTo(q), PageAsked(q).value, w.le, answer)
  }

  /** Where a relation of the header beside an answer leads. */
  ghost function LeadsTo(w: Listed, q: ListQuery, answer: SearchPage, rel: string): Option<Asked> {
    if PageAsked(q).Failure? then None
    else
      var p := PageAsked(q).value;
      Followed(HeaderOf(p.page, p.size, answer.total, q.query), rel, w.read)
  }

  /** A page of the given size of a listing is asked for by its number, its size and the query. */
  ghost predicate AsksFor(asked: Option<Asked>, page: nat, size: U32, query: Option<string>) {
    page < 0x1_0000_0000 && asked == Some(Listing(ListQuery(Some(page), Some(size), query)))
  }

  /** Each request but the first is what the client was led to by the link `next` of the answer
      before it. */
  ghost predicate IsWalk(w: Listed, requests: seq<ListQuery>, answers: seq<SearchPage>) {
    && |requests| == |answers| > 0
    && (forall i | 0 <= i < |requests| :: MayAnswer(w, requests[i], answers[i]))
    && forall i | 0 < i < |requests| :: LeadsTo(w, requests[i - 1], answers[i - 1], "next") == Some(Listing(requests[i]))
  }

  /** The request is for a page of a listing. */
  ghost predicate IsPage(q: ListQuery, page: nat, size: U32, query: Option<string>) {
    1 <= page < 0x1_0000_0000 && PageAsked(q) == Success(PageRequest(page, size)) && q.query == query
  }

  lemma IsPageSize(q: ListQuery, page: nat, size: U32, query: Option<string>)
    requires IsPage(q, page, size, query)
    ensures 1 <= size <= 100
  {
  }

  lemma AskedIsPage(q: ListQuery, page: nat, size: U32, query: Option<string>)
    requires AsksFor(Some(Listing(q)), page, size, query) && 1 <= page && 1 <= size <= 100
    ensures IsPage(q, page, size, query)
  {
  }

  lemma LeadsOnPage(w: Listed, q: ListQuery, answer: SearchPage, rel: string, page: U32, size: U32)
    requires 1 <= size && IsPage(q, page, size, q.query)
    ensures LeadsTo(w, q, answer, rel) == Followed(HeaderOf(page, size, answer.total, q.query), rel, w.read)
  {
    hide Followed, HeaderOf;
  }

  /** The link `next` of a page leads to the page after it of the same listing if there is one,
      and nowhere otherwise. */
  lemma NextLeads(w: Listed, q: ListQuery, answer: SearchPage, page: U32, size: U32)
    requires Frugal(w.read) && Survives(q.query) && 1 <= size && IsPage(q, page, size, q.query)
    requires Addressable(size, answer.total)
    ensures page < PageCount(answer.total, size) ==> AsksFor(LeadsTo(w, q, answer, "next"), page + 1, size, q.query)
    ensures LeadsTo(w, q, answer, "next") == None <==> page >= PageCount(answer.total, size)
  {
    hide Followed, HeaderOf, Survives, PageCount, Addressable, NewPagination, LeadsTo, Frugal;
    PageCountFits(size, answer.total);
    NextIsExact(page, size, answer.total);
    LeadsOnPage(w, q, answer, "next", page, size);
    FollowedIff(page, size, answer.total, q.query, w.read);
  }

  /** The link `last` leads to the last page of the same listing. */
  lemma LastLeads(w: Listed, q: ListQuery, answer: SearchPage, page: U32, size: U32)
    requires Frugal(w.read) && Survives(q.query) && 1 <= size && IsPage(q, page, size, q.query)
    requires answer.total > 0 && Addressable(size, answer.total)
    ensures AsksFor(LeadsTo(w, q, answer, "last"), PageCount(answer.total, size), size, q.query)
  {
    hide Followed, HeaderOf, Survives, PageCount, Addressable, NewPagination, LeadsTo, Frugal;
    PageCountFits(size, answer.total);
    LastIsLastIff(size, answer.total);
    LeadsOnPage(w, q, answer, "last", page, size);
    FollowedIff(page, size, answer.total, q.query, w.read);
  }

  /** Request `i` of a walk asks for page `i + 1`, which there is, and its answer reports the
      length of the listing. */
  ghost predicate OnPage(w: Listed, requests: seq<ListQuery>, answers: seq<SearchPage>, i: nat, size: U32, total: nat) {
    && i < |requests| == |answers|
    && IsPage(requests[i], i + 1, size, requests[0].query)
    && 1 <= size && i < PageCount(total, size) && answers[i].total == total
    && (i > 0 ==> AsksFor(Some(Listing(requests[i])), i + 1, size, requests[0].query))
  }

  lemma {:induction false} WalkAsks(w: Listed, size: U32, ordered: seq<Row>, requests: seq<ListQuery>,
                                    answers: seq<SearchPage>, i: nat)
    requires Frugal(w.read) && IsWalk(w, requests, answers) && i < |requests|
    requires Survives(requests[0].query) && IsPage(requests[0], 1, size, requests[0].query)
    requires IsListing(w.ShownTo(requests[0]), ByKey(w.le), ordered) && Addressable(size, |ordered|)
    ensures OnPage(w, requests, answers, i, size, |ordered|)
    decreases i
  {
    hide LeadsTo, Survives, PageCount, Addressable, IsListing, AsksFor, IsPage, MayAnswer, Frugal;
    var first := requests[0];
    IsPageSize(first, 1, size, first.query);
    if i > 0 {
      WalkAsks(w, size, ordered, requests, answers, i - 1);
      assert IsPage(requests[i - 1], i, size, first.query);
      PageQuery(requests[i - 1], i, size, first.query);
      NextLeads(w, requests[i - 1], answers[i - 1], i, size);
      assert LeadsTo(w, requests[i - 1], answers[i - 1], "next") == Some(Listing(requests[i]));
      AskedIsPage(requests[i], i + 1, size, first.query);
    }
    assert IsPage(requests[i], i + 1, size, first.query);
    TotalOfPage(w, ordered, first, requests[i], answers[i], i + 1, size);
  }

  lemma PageQuery(q: ListQuery, page: nat, size: U32, query: Option<string>)
    requires IsPage(q, page, size, query)
    ensures q.query == query && 1 <= page < 0x1_0000_0000
  {
  }

  /** An answer to a page of the listing is a page of its rows and reports their number. */
  lemma PageAnswered(w: Listed, first: ListQuery, q: ListQuery, answer: SearchPage, page: U32, size: U32)
    requires 1 <= size <= 100 && 1 <= page && IsPage(q, page, size, first.query) && MayAnswer(w, q, answer)
    ensures IsPageOf(w.base, w.ShownTo(first), PageRequest(page, size), w.le, answer)
  {
    hide IsPageOf;
  }

  lemma TotalOfPage(w: Listed, ordered: seq<Row>, first: ListQuery, q: ListQuery, answer: SearchPage, page: U32, size: U32)
    requires 1 <= size <= 100 && 1 <= page && IsPage(q, page, size, first.query) && MayAnswer(w, q, answer)
    requires IsListing(w.ShownTo(first), ByKey(w.le), ordered)
    ensures answer.total == |ordered|
  {
    hide IsPageOf, IsListing, IsPage, MayAnswer;
    PageAnswered(w, first, q, answer, page, size);
    PageTotal(w.base, w.ShownTo(first), PageRequest(page, size), w.le, ordered, answer);
  }

  /** Over an unchanged table with distinct keys, a client that starts on the first page and
      follows `next` in the headers it is sent: every request asks for the next page, with the
      same size and query; every answer reports the same total; the walk ends exactly after the
      last page, which is also where `last` leads from the first one; and what has been collected
      then is every row shown exactly once, in key order. */
  lemma WalkListsAll(w: Listed, size: U32, ordered: seq<Row>, requests: seq<ListQuery>, answers: seq<SearchPage>)
    requires Frugal(w.read) && Collation(w.le) && IsWalk(w, requests, answers)
    requires Survives(requests[0].query) && 1 <= size && IsPage(requests[0], 1, size, requests[0].query)
    requires IsListing(w.ShownTo(requests[0]), ByKey(w.le), ordered) && Addressable(size, |ordered|)
    requires DistinctKeys(w.ShownTo(requests[0]))
    ensures forall i | 0 <= i < |requests| :: OnPage(w, requests, answers, i, size, |ordered|)
    ensures LeadsTo(w, requests[|requests| - 1], answers[|requests| - 1], "next") == None <==> |requests| == PageCount(|ordered|, size)
    ensures |ordered| > 0 ==>
              AsksFor(LeadsTo(w, requests[0], answers[0], "last"), PageCount(|ordered|, size), size, requests[0].query)
    ensures |requests| == PageCount(|ordered|, size) ==> DecodeAll(w.base, ordered) == Success(Collected(answers))
  {
    hide Survives, PageCount, Addressable, IsListing, IsPageOf, LeadsTo, DistinctKeys, Collation, DecodeAll;
    hide IsPage, AsksFor, MayAnswer, Frugal;
    var first, n := requests[0], |requests|;
    IsPageSize(first, 1, size, first.query);
    forall i | 0 <= i < n
      ensures OnPage(w, requests, answers, i, size, |ordered|) && i + 1 < 0x1_0000_0000
      ensures IsPageOf(w.base, w.ShownTo(first), PageRequest(i + 1, size), w.le, answers[i])
    {
      WalkAsks(w, size, ordered, requests, answers, i);
      PageQuery(requests[i], i + 1, size, first.query);
      PageAnswered(w, first, requests[i], answers[i], i + 1, size);
    }
    assert OnPage(w, requests, answers, n - 1, size, |ordered|) && OnPage(w, requests, answers, 0, size, |ordered|);
    PageQuery(requests[n - 1], n, size, first.query);
    NextLeads(w, requests[n - 1], answers[n - 1], n, size);
    PageCountFits(size, |ordered|);
    if |ordered| > 0 {
      LastLeads(w, first, answers[0], 1, size);
    }
    if n == PageCount(|ordered|, size) {
      PagesListAll(w.base, w.ShownTo(first), size, w.le, ordered, answers);
    }
  }

  /** When there is a second page, the request that a client is led to from the first one is one
      for it with the same size and query if and only if the query survives in the link. */
  lemma WalkGoesOnIff(w: Listed, first: ListQuery, answer: SearchPage, size: U32)
    requires Frugal(w.read) && 1 <= size && IsPage(first, 1, size, first.query)
    requires Addressable(size, answer.total) && PageCount(answer.total, size) > 1
    ensures AsksFor(LeadsTo(w, first, answer, "next"), 2, size, first.query) <==> Survives(first.query)
  {
    hide Followed, HeaderOf, Survives, PageCount, Addressable, NewPagination, LeadsTo, Frugal;
    NextIsExact(1, size, answer.total);
    LeadsOnPage(w, first, answer, "next", 1, size);
    FollowedIff(1, size, answer.total, first.query, w.read);
  }
}
