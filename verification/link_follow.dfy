/** What a client asks for that follows the links of a header: exactly when it is the page, the
    size and the query that the service meant. */
module LinkFollow {
  import opened FormQuery
  import opened LinkHeader
  import opened Numerals
  import opened Paging
  import opened Text
  import opened Wrappers

  // --- References whose query has a closing angle bracket ---

  /** What of a printed reference stands before its query. */
  function BeforeQuery(page: nat, size: nat): string {
    PREFIX + (Decimal(page) + ("&size=" + Decimal(size) + "&query="))
  }

  lemma UriIsJoined(page: nat, size: nat, query: string)
    ensures Uri(page, size, Some(query)) == BeforeQuery(page, size) + query
  {
    hide Decimal;
  }

  lemma NoBracketsBefore(page: nat, size: nat)
    ensures '<' !in BeforeQuery(page, size) && '>' !in BeforeQuery(page, size)
  {
    hide Decimal;
    DecimalIsNumeral(page);
    DecimalIsNumeral(size);
    assert '<' !in Decimal(page) && '<' !in Decimal(size) && '>' !in Decimal(page) && '>' !in Decimal(size);
    assert '<' !in PREFIX && '<' !in "&size=" && '<' !in "&query=";
    assert '>' !in PREFIX && '>' !in "&size=" && '>' !in "&query=";
  }

  /** A reference that is shorter than the query, or that breaks off in the query. */
  ghost predicate Broken(uri: string, size: nat, query: string) {
    |uri| < |query| || exists page: U32 :: uri == Uri(page, size, Some(UpTo(query, '>')))
  }

  /** An opening bracket stands only at the begin of a printed link and in its query. */
  lemma OpensIn(pre: string, query: string, closed: string, rest: string, k: nat)
    requires '<' !in pre && '<' !in closed && k < 1 + |pre| + |query| + |closed|
    requires ("<" + (pre + (query + (closed + rest))))[k] == '<'
    ensures k == 0 || |pre| < k <= |pre| + |query|
  {
    var s := "<" + (pre + (query + (closed + rest)));
    assert forall j | 0 <= j < |pre| :: s[1 + j] == pre[j];
    assert forall j | 0 <= j < |closed| :: s[1 + |pre| + |query| + j] == closed[j];
  }

  /** What stands between brackets there: all up to the query and the query up to its own closing
      bracket, or a part of the query. */
  lemma StandsBetween(pre: string, query: string, closed: string, k: nat)
    requires '>' in query && '>' !in pre && closed != [] && closed[0] == '>'
    requires k == 0 || |pre| < k <= |pre| + |query|
    ensures var u := UpTo(("<" + (pre + (query + closed)))[k + 1..], '>');
            if k == 0 then u == pre + UpTo(query, '>') else |u| < |query|
  {
    hide UpTo;
    var s := "<" + (pre + (query + closed));
    if k == 0 {
      assert s[1..] == pre + (query + closed);
      UpToJoined(pre, query + closed, '>');
      UpToInFirst(query, closed, '>');
    } else {
      var m := k - 1 - |pre|;
      assert s[k + 1..] == query[m + 1..] + ([closed[0]] + closed[1..]);
      UpToAtMost(query[m + 1..], closed[1..], '>');
    }
  }

  lemma LinkRegrouped(pre: string, query: string, closed: string, rest: string)
    ensures "<" + ((pre + query) + closed) + rest == "<" + (pre + (query + (closed + rest)))
  {
  }

  /** What stands between brackets in one printed link and what follows it. */
  lemma BrokenInText(l: Link, size: nat, query: string, rest: string, k: nat, uri: string)
    requires '>' in query
    requires k < |LinkText(TargetOf(l, size, Some(query)))| && StandsAt(LinkText(TargetOf(l, size, Some(query))) + rest, k, uri)
    ensures Broken(uri, size, query)
  {
    hide UpTo, Uri, BeforeQuery, RelName;
    var pre, closed := BeforeQuery(l.page, size), ">" + (REL + (RelName(l.rel) + "\""));
    UriIsJoined(l.page, size, query);
    UriIsJoined(l.page, size, UpTo(query, '>'));
    NoBracketsBefore(l.page, size);
    NoBracketAfter(l.rel);
    LinkRegrouped(pre, query, closed, rest);
    OpensIn(pre, query, closed, rest, k);
    StandsBetween(pre, query, closed + rest, k);
  }

  lemma NoBracketAfter(rel: Rel)
    ensures '<' !in ">" + (REL + (RelName(rel) + "\""))
  {
  }

  lemma UpToInFirst(a: string, b: string, c: char)
    requires c in a
    ensures UpTo(a + b, c) == UpTo(a, c)
  {
    var i := IndexOf(a, c);
    assert i < |a|;
    assert forall j | 0 <= j < |a| :: (a + b)[j] == a[j];
    assert IndexOf(a + b, c) == i;
  }

  lemma UpToAtMost(a: string, b: string, c: char)
    ensures |UpTo(a + ([c] + b), c)| <= |a|
  {
    assert (a + ([c] + b))[|a|] == c;
  }

  lemma {:induction false} AllBroken(links: seq<Link>, size: nat, query: string, k: nat, uri: string)
    requires links != [] && '>' in query
    requires StandsAt(Header(TargetsOf(links, size, Some(query))), k, uri)
    ensures Broken(uri, size, query)
    decreases |links|
  {
    hide LinkText, UpTo, TargetOf, Broken, Header;
    var text := LinkText(TargetOf(links[0], size, Some(query)));
    var s := Header(TargetsOf(links, size, Some(query)));
    if |links| == 1 {
      HeaderOfOne(links[0], size, Some(query));
      assert links == [links[0]] && s == text + "";
      BrokenInText(links[0], size, query, "", k, uri);
    } else {
      HeaderNext(links, size, Some(query));
      var others := Header(TargetsOf(links[1..], size, Some(query)));
      if k < |text| {
        BrokenInText(links[0], size, query, ", " + others, k, uri);
      } else {
        var d := |text| + 2;
        assert s[|text|] == ',' && s[|text| + 1] == ' ';
        assert k >= d && s[k] == others[k - d] && s[k + 1..] == others[k - d + 1..];
        AllBroken(links[1..], size, query, k - d, uri);
      }
    }
  }

  // --- What a link asks for ---

  lemma Regrouped(d: string, e: string, more: string)
    ensures PREFIX + (d + ("&size=" + e + more)) ==
            "settings" + ("?" + ((("page" + ("=" + d)) + ("&" + ("size" + ("=" + e)))) + more))
  {
    assert PREFIX == "settings" + ("?" + ("page" + "="));
    assert "&size=" == "&" + ("size" + "=");
  }

  /** The parts of a printed reference. */
  lemma PrintedParts(page: U32, size: U32, query: Option<string>)
    ensures Uri(page, size, query) ==
            "settings" + ("?" + ((PagePart(page) + ("&" + SizePart(size)))
                                 + (if query.Some? then "&" + QueryPart(query.value) else "")))
  {
    hide Decimal;
    Regrouped(Decimal(page), Decimal(size), QueryParam(query));
    if query.Some? {
      PartIsJoined(query.value);
      assert "&query=" + query.value == "&" + ("query=" + query.value);
    }
  }

  lemma PartsArePlain(page: U32, size: U32)
    ensures '&' !in PagePart(page) && '&' !in SizePart(size) && '#' !in PagePart(page) && '#' !in SizePart(size)
  {
    hide Decimal;
    DecimalIsNumeral(page);
    DecimalIsNumeral(size);
    assert '&' !in Decimal(page) && '&' !in Decimal(size) && '#' !in Decimal(page) && '#' !in Decimal(size);
  }

  /** A printed reference without a query asks for its page. */
  lemma PagePrinted(page: U32, size: U32, read: ByteReader)
    requires Frugal(read)
    ensures AskedBy(Uri(page, size, None), read) == Listing(ListQuery(Some(page), Some(size), None))
  {
    hide Decimal, Uri, Taken, Split, Cut, UpTo, PagePart, SizePart;
    PrintedParts(page, size, None);
    PartsArePlain(page, size);
    var parts := PagePart(page) + ("&" + SizePart(size));
    assert Uri(page, size, None) == "settings" + ("?" + parts) by {
      assert parts + "" == parts;
    }
    assert '#' !in "settings" + ("?" + parts);
    CutJoined("settings", '?', parts);
    CutJoined(PagePart(page), '&', SizePart(size));
    NothingToSplit(SizePart(size), '&');
    assert [PagePart(page)] + [SizePart(size)] == [PagePart(page), SizePart(size)] + [];
    TakenPageAndSize(page, size, [], read);
    NothingTaken(ListQuery(Some(page), Some(size), None), read);
  }

  lemma NothingTaken(q: ListQuery, read: ByteReader)
    ensures Taken([], q, read) == Some(q)
  {
  }

  /** A reference with the parts of a page, a size and more parts. */
  lemma PartsAsked(page: U32, size: U32, more: string, read: ByteReader)
    requires Frugal(read) && '#' !in more
    ensures AskedBy("settings" + ("?" + ((PagePart(page) + ("&" + SizePart(size))) + ("&" + more))), read) ==
            match Taken(Split(more, '&'), ListQuery(Some(page), Some(size), None), read)
            case None => BadRequest
            case Some(q) => Listing(q)
  {
    hide Taken, Split, PagePart, SizePart, Cut, UpTo;
    PartsArePlain(page, size);
    var parts := (PagePart(page) + ("&" + SizePart(size))) + ("&" + more);
    assert '#' !in "settings" + ("?" + parts);
    assert UpTo("settings" + ("?" + parts), '#') == "settings" + ("?" + parts);
    CutJoined("settings", '?', parts);
    SplitParts(PagePart(page), SizePart(size), more);
    TakenPageAndSize(page, size, Split(more, '&'), read);
  }

  /** A printed reference with a query asks for its page and for what is decoded of the query, or
      is a bad request. */
  lemma QueryAsked(page: U32, size: U32, query: string, read: ByteReader)
    requires Frugal(read)
    ensures var a, v := AskedBy(Uri(page, size, Some(query)), read), FormDecode(UpTo(UpTo(query, '#'), '&'), read);
            && (a == BadRequest || a == Listing(ListQuery(Some(page), Some(size), Some(v))))
            && ('&' !in UpTo(query, '#') ==> a != BadRequest)
  {
    hide Uri, AskedBy, Taken, Split, PagePart, SizePart, QueryPart, FormDecode, UpTo;
    var sent := UpTo(query, '#');
    FragmentCut(page, size, query, read);
    PrintedParts(page, size, Some(sent));
    PartIsJoined(sent);
    assert '#' !in QueryPart(sent);
    PartsAsked(page, size, QueryPart(sent), read);
    TakenQuery(sent, ListQuery(Some(page), Some(size), None), read);
  }

  /** The fragment of a printed reference is not sent. */
  lemma FragmentCut(page: U32, size: U32, query: string, read: ByteReader)
    ensures AskedBy(Uri(page, size, Some(query)), read) == AskedBy(Uri(page, size, Some(UpTo(query, '#'))), read)
    ensures '#' !in UpTo(query, '#')
  {
    hide Uri, Cut, Taken, Split, BeforeQuery;
    var pre, sent := BeforeQuery(page, size), UpTo(query, '#');
    UriIsJoined(page, size, query);
    UriIsJoined(page, size, sent);
    NoHashBefore(page, size);
    UpToJoined(pre, query, '#');
    UpToJoined(pre, sent, '#');
  }

  lemma NoHashBefore(page: nat, size: nat)
    ensures '#' !in BeforeQuery(page, size)
  {
    hide Decimal;
    DecimalIsNumeral(page);
    DecimalIsNumeral(size);
    assert '#' !in Decimal(page) && '#' !in Decimal(size);
    assert '#' !in PREFIX && '#' !in "&size=" && '#' !in "&query=";
  }

  lemma PartIsJoined(query: string)
    ensures QueryPart(query) == "query=" + query
  {
    assert "query=" == "query" + "=";
  }

  lemma SplitParts(a: string, b: string, c: string)
    requires '&' !in a && '&' !in b
    ensures Split((a + ("&" + b)) + ("&" + c), '&') == [a, b] + Split(c, '&')
  {
    hide Split, Cut, UpTo;
    assert (a + ("&" + b)) + ("&" + c) == a + ("&" + (b + ("&" + c)));
    CutJoined(a, '&', b + ("&" + c));
    CutJoined(b, '&', c);
    assert [a] + ([b] + Split(c, '&')) == [a, b] + Split(c, '&');
  }

  /** The query that the links carry as it is: nothing ends the reference, the query or the
      parameter, nothing is decoded, and the header may hold it. */
  ghost predicate Survives(query: Option<string>) {
    query.Some? ==> PlainQuery(query.value) && '>' !in query.value && AllSendable(query.value)
  }

  /** A printed reference asks for its own page, size and query exactly when the query is plain. */
  lemma ReferenceAsksIff(page: U32, size: U32, query: Option<string>, read: ByteReader)
    requires Frugal(read)
    ensures AskedBy(Uri(page, size, query), read) == Listing(ListQuery(Some(page), Some(size), query))
            <==> query.None? || PlainQuery(query.value)
  {
    hide AskedBy, FormDecode, PlainQuery, Uri;
    if query.None? {
      PagePrinted(page, size, read);
    } else {
      QueryAsked(page, size, query.value, read);
      QueryReadIff(query.value, read);
      assert PlainQuery(query.value) ==> '&' !in UpTo(query.value, '#') by { PlainHasNone(query.value); }
    }
  }

  lemma PlainHasNone(query: string)
    ensures PlainQuery(query) ==> '&' !in UpTo(query, '#')
  {
  }

  /** No broken reference asks for the query. */
  lemma BrokenAsksOther(uri: string, size: U32, query: string, read: ByteReader)
    requires Frugal(read) && '>' in query && Broken(uri, size, query)
    ensures var a := AskedBy(uri, read); a.Listing? ==> a.q.query != Some(query)
  {
    hide AskedBy, FormDecode, Uri;
    if |uri| < |query| {
      AskedLength(uri, read);
    } else {
      var part := UpTo(query, '>');
      var page: U32 :| uri == Uri(page, size, Some(part));
      QueryAsked(page, size, part, read);
      DecodeShortens(UpTo(UpTo(part, '#'), '&'), read);
    }
  }

  // --- Following ---

  /** What the first link of a relation asks for. */
  function AskedOf(ts: seq<Target>, rel: string, read: ByteReader): Option<Asked> {
    if ts == [] then None
    else if ts[0].rel == rel then Some(AskedBy(ts[0].uri, read))
    else AskedOf(ts[1..], rel, read)
  }

  /** What a client asks for that follows a relation of the header it is sent, if it is sent one. */
  function Followed(header: Option<string>, rel: string, read: ByteReader): Option<Asked> {
    if header.None? || ReadLinks(header.value).None? then None else AskedOf(ReadLinks(header.value).value, rel, read)
  }

  /** The page of a relation among links. */
  function PageAmong(links: seq<Link>, rel: Rel): Option<U32> {
    if links == [] then None else if links[0].rel == rel then Some(links[0].page) else PageAmong(links[1..], rel)
  }

  lemma {:induction false} RelsAgree(links: seq<Link>, size: U32, query: Option<string>, rel: Rel, read: ByteReader)
    ensures AskedOf(TargetsOf(links, size, query), RelName(rel), read) ==
            match PageAmong(links, rel)
            case None => None
            case Some(page) => Some(AskedBy(Uri(page, size, query), read))
    decreases |links|
  {
    hide Uri, AskedBy;
    if links != [] {
      var ts := TargetsOf(links, size, query);
      assert ts[1..] == TargetsOf(links[1..], size, query);
      assert RelName(links[0].rel) == RelName(rel) <==> links[0].rel == rel;
      RelsAgree(links[1..], size, query, rel, read);
    }
  }

  lemma {:induction false} AskedOfSome(ts: seq<Target>, rel: string, read: ByteReader)
    ensures var a := AskedOf(ts, rel, read); a.Some? ==> exists t :: t in ts && a.value == AskedBy(t.uri, read)
    decreases |ts|
  {
    hide AskedBy;
    if ts != [] {
      AskedOfSome(ts[1..], rel, read);
    }
  }

  /** The page the service computes for a relation. */
  function PageOf(page: U32, size: U32, total: nat, rel: Rel): Option<U32>
    requires size > 0
  {
    match rel
    case First => Some(1)
    case Prev => if page > 1 then Some(page - 1) else None
    case Next => NextOf(page, size, total)
    case Last => LastOf(size, total)
  }

  lemma LinksOfRel(page: U32, size: U32, total: nat, rel: Rel)
    requires size > 0
    ensures PageAmong(LinksOf(page, size, total), rel) == PageOf(page, size, total, rel)
  {
    hide NextOf, LastOf;
    var prev: Option<U32> := if page > 1 then Some(page - 1) else None;
    var c, d := LinkTo(Next, NextOf(page, size, total)), LinkTo(Last, LastOf(size, total));
    assert LinksOf(page, size, total)[1..] == LinkTo(Prev, prev) + (c + d);
    PageAmongJoined(LinkTo(Prev, prev), c + d, rel);
    PageAmongJoined(c, d, rel);
  }

  lemma PageAmongJoined(a: seq<Link>, b: seq<Link>, rel: Rel)
    requires |a| <= 1
    ensures PageAmong(a + b, rel) == if a != [] && a[0].rel == rel then Some(a[0].page) else PageAmong(b, rel)
  {
    if a == [] {
      assert a + b == b;
    } else {
      assert (a + b)[1..] == b;
    }
  }

  /** The header the service sends for a page, if it can. */
  function HeaderOf(page: U32, size: U32, total: nat, query: Option<string>): Option<string>
    requires size > 0
  {
    Sent(Header(Targets(page, size, total, query)))
  }

  lemma SomeLink(page: U32, size: U32, total: nat)
    requires size > 0
    ensures LinksOf(page, size, total) != []
  {
  }

  /** The header is sent exactly when the query has no ASCII control character but tabs. */
  lemma HeaderSentIff(page: U32, size: U32, total: nat, query: Option<string>)
    requires 1 <= size
    ensures HeaderOf(page, size, total, query).Some? <==>
            query.None? || forall i | 0 <= i < |query.value| :: query.value[i] == '\t' || (' ' <= query.value[i] && query.value[i] as int != 0x7F)
  {
    hide LinksOf;
    SomeLink(page, size, total);
    LinksSendable(LinksOf(page, size, total), size, query);
  }

  /** Without a closing angle bracket in the query, a client reads exactly the links. */
  lemma ReadsTargets(links: seq<Link>, size: U32, query: Option<string>)
    requires links != [] && (query.None? || '>' !in query.value)
    ensures ReadLinks(Header(TargetsOf(links, size, query))) == Some(TargetsOf(links, size, query))
  {
    hide Uri, Header, ReadLinks;
    var ts := TargetsOf(links, size, query);
    forall t | t in ts ensures Unambiguous(t) {
      var i :| 0 <= i < |ts| && ts[i] == t;
      UriBracket(links[i].page, size, query);
      NoQuoteInRel(links[i].rel);
    }
    ReadsHeader(ts);
  }

  lemma UriBracket(page: nat, size: nat, query: Option<string>)
    requires query.None? || '>' !in query.value
    ensures '>' !in Uri(page, size, query)
  {
    hide Decimal, BeforeQuery;
    NoBracketsBefore(page, size);
    if query.Some? {
      UriIsJoined(page, size, query.value);
    } else {
      UriIsJoined(page, size, "");
      assert Uri(page, size, None) <= Uri(page, size, Some(""));
    }
  }

  lemma NoQuoteInRel(rel: Rel)
    ensures '"' !in RelName(rel)
  {
  }

  /** With one, whatever the client reads asks for another query. */
  lemma BracketAsksOther(links: seq<Link>, size: U32, query: string, rel: string, read: ByteReader)
    requires Frugal(read) && links != [] && '>' in query
    ensures var ts := ReadLinks(Header(TargetsOf(links, size, Some(query))));
            ts.Some? && AskedOf(ts.value, rel, read).Some? && AskedOf(ts.value, rel, read).value.Listing?
            ==> AskedOf(ts.value, rel, read).value.q.query != Some(query)
  {
    hide ReadLinks, Header, AskedBy, AskedOf, Broken;
    var header := Header(TargetsOf(links, size, Some(query)));
    if ReadLinks(header).Some? && AskedOf(ReadLinks(header).value, rel, read).Some? {
      var ts := ReadLinks(header).value;
      AskedOfSome(ts, rel, read);
      var t :| t in ts && AskedOf(ts, rel, read).value == AskedBy(t.uri, read);
      ReadStands(header);
      var k: nat :| StandsAt(header, k, t.uri);
      AllBroken(links, size, query, k, t.uri);
      BrokenAsksOther(t.uri, size, query, read);
    }
  }

  /** Following one relation. */
  lemma RelationFollowedIff(page: U32, size: U32, total: nat, query: Option<string>, rel: Rel, read: ByteReader)
    requires Frugal(read) && 1 <= size
    ensures var p, asked := PageOf(page, size, total, rel), Followed(HeaderOf(page, size, total, query), RelName(rel), read);
            && (p.Some? ==> (asked == Some(Listing(ListQuery(p, Some(size), query))) <==> Survives(query)))
            && (p.None? && Survives(query) ==> asked == None)
  {
    hide Uri, Header, ReadLinks, LinksOf, PageOf, AskedOf, PageAmong, RelName, AskedBy, AllSendable, PlainQuery, Sent;
    var links := LinksOf(page, size, total);
    SomeLink(page, size, total);
    LinksOfRel(page, size, total, rel);
    SentIs(page, size, total, query);
    if query.Some? && '>' in query.value {
      BracketAsksOther(links, size, query.value, RelName(rel), read);
    } else {
      ReadsTargets(links, size, query);
      RelsAgree(links, size, query, rel, read);
      if PageAmong(links, rel).Some? {
        ReferenceAsksIff(PageAmong(links, rel).value, size, query, read);
      }
    }
  }

  /** A client that follows `first`, `prev`, `next` or `last` asks for the first page, the one
      before, the one after or the last one, with the same size and the same query, if and only if
      the query has none of `>`, `#`, `&` and `+`, no percent sign before two hexadecimal digits,
      and no ASCII control character but tabs; page numbers wrap at 32 bits. A relation that a
      page does not have cannot be followed then. */
  lemma FollowedIff(page: U32, size: U32, total: nat, query: Option<string>, read: ByteReader)
    requires Frugal(read) && 1 <= page && 1 <= size
    ensures var header, turn := HeaderOf(page, size, total, query), 0x1_0000_0000;
            && (Followed(header, "first", read) == Some(Listing(ListQuery(Some(1), Some(size), query))) <==> Survives(query))
            && (page > 1 ==>
                  (Followed(header, "prev", read) == Some(Listing(ListQuery(Some(page - 1), Some(size), query))) <==> Survives(query)))
            && (page * size < total ==>
                  (Followed(header, "next", read) == Some(Listing(ListQuery(Some((page + 1) % turn), Some(size), query))) <==> Survives(query)))
            && (total > 0 ==>
                  (Followed(header, "last", read) == Some(Listing(ListQuery(Some(PageCount(total, size) % turn), Some(size), query)))
                   <==> Survives(query)))
    ensures Survives(query) ==>
              var header := HeaderOf(page, size, total, query);
              && (page == 1 ==> Followed(header, "prev", read) == None)
              && (total <= page * size ==> Followed(header, "next", read) == None)
              && (total == 0 ==> Followed(header, "last", read) == None)
  {
    hide Followed, HeaderOf, Survives, PageCount, DivCeil, Frugal;
    RelationFollowedIff(page, size, total, query, First, read);
    RelationFollowedIff(page, size, total, query, Prev, read);
    RelationFollowedIff(page, size, total, query, Next, read);
    RelationFollowedIff(page, size, total, query, Last, read);
    DivCeilIsPageCount(total, size);
  }

  lemma SentIs(page: U32, size: U32, total: nat, query: Option<string>)
    requires 1 <= size
    ensures HeaderOf(page, size, total, query) ==
            if query.None? || AllSendable(query.value) then Some(Header(Targets(page, size, total, query))) else None
  {
    hide Header, Targets;
    HeaderSentIff(page, size, total, query);
    SentValue(Header(Targets(page, size, total, query)));
  }

  lemma SentValue(header: string)
    ensures Sent(header).Some? ==> Sent(header) == Some(header)
  {
  }

  // --- Failing inputs ---

  /** A listing of `a&b` links to a next page of `a`: another listing. */
  lemma AmpersandChangesQuery(read: ByteReader)
    requires Frugal(read)
    ensures Followed(HeaderOf(1, 20, 40, Some("a&b")), "next", read) ==
            Some(Listing(ListQuery(Some(2), Some(20), Some("a"))))
  {
    hide Uri, Header, ReadLinks, LinksOf, AskedOf, PageAmong, AskedBy, AllSendable, Sent, FormDecode, UpTo, Taken, Split;
    var q := "a&b";
    assert AllSendable(q) by { NothingForbidden(); }
    assert '>' !in q;
    SentIs(1, 20, 40, Some(q));
    SomeLink(1, 20, 40);
    LinksOfRel(1, 20, 40, Next);
    ReadsTargets(LinksOf(1, 20, 40), 20, Some(q));
    RelsAgree(LinksOf(1, 20, 40), 20, Some(q), Next, read);
    AmpersandAsked(read);
  }

  lemma NothingForbidden()
    ensures AllSendable("a&b")
  {
  }

  lemma AmpersandAsked(read: ByteReader)
    requires Frugal(read)
    ensures AskedBy(Uri(2, 20, Some("a&b")), read) == Listing(ListQuery(Some(2), Some(20), Some("a")))
  {
    hide Uri, AskedBy, Split, Taken, PagePart, SizePart;
    PrintedParts(2, 20, Some("a&b"));
    var more := QueryPart("a") + ("&" + "b");
    assert QueryPart("a&b") == more;
    assert '#' !in more;
    PartsAsked(2, 20, more, read);
    CutJoined(QueryPart("a"), '&', "b");
    NothingToSplit("b", '&');
    assert [QueryPart("a")] + ["b"] == [QueryPart("a"), "b"];
    TwoTaken(read);
  }

  lemma TwoTaken(read: ByteReader)
    requires Frugal(read)
    ensures Taken([QueryPart("a"), "b"], ListQuery(Some(2), Some(20), None), read) == Some(ListQuery(Some(2), Some(20), Some("a")))
  {
    hide FormDecode, Cut, ParseU32;
    NamedParameter("query", "a", read);
    SimpleIsPlain("a", read);
    SimpleIsPlain("b", read);
    assert Cut("b", '=') == None by { OneLetter(); }
    assert [QueryPart("a"), "b"][1..] == ["b"] && ["b"][1..] == [];
    var q := ListQuery(Some(2), Some(20), Some("a"));
    assert Taken(["b"], q, read) == Taken([], q, read);
  }

  lemma OneLetter()
    ensures Cut("b", '=') == None
  {
    assert IndexOf("b", '=') == 1 by {
      assert "b"[0] == 'b' && "b"[1..] == "";
    }
  }

  /** A listing of a line feed has no header, although its text would be read back. */
  lemma LineFeedNotSent()
    ensures HeaderOf(1, 20, 40, Some("\n")) == None
    ensures ReadLinks(Header(Targets(1, 20, 40, Some("\n")))) == Some(Targets(1, 20, 40, Some("\n")))
  {
    hide Header, ReadLinks, LinksOf, Sent, Targets;
    assert !Sendable("\n"[0]);
    HeaderSentIff(1, 20, 40, Some("\n"));
    SomeLink(1, 20, 40);
    assert '>' !in "\n";
    ReadsTargets(LinksOf(1, 20, 40), 20, Some("\n"));
    TargetsAre(1, 20, 40, Some("\n"));
  }

  lemma TargetsAre(page: U32, size: U32, total: nat, query: Option<string>)
    requires size > 0
    ensures Targets(page, size, total, query) == TargetsOf(LinksOf(page, size, total), size, query)
  {
  }
}
