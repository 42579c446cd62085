/** The text of the `Link` header, when it is sent, and how a client reads it. */
module LinkHeader {
  import opened Numerals
  import opened Paging
  import opened Text
  import opened Wrappers

  // --- Printing ---

  /** One link of a header: where to, and how it relates to this page. */
  datatype Target = Target(uri: string, rel: string)

  function RelName(rel: Rel): string {
    match rel
    case First => "first"
    case Prev => "prev"
    case Next => "next"
    case Last => "last"
  }

  function QueryParam(query: Option<string>): string {
    if query.Some? then "&query=" + query.value else ""
  }

  const PREFIX := "settings?page="

  /** A relative reference to a page of the same listing. */
  function Uri(page: nat, size: nat, query: Option<string>): string {
    PREFIX + (Decimal(page) + ("&size=" + Decimal(size) + QueryParam(query)))
  }

  const REL := "; rel=\""

  function LinkText(t: Target): string {
    "<" + (t.uri + (">" + (REL + (t.rel + "\""))))
  }

  /** The texts with a comma and a space between them. */
  function JoinedTexts(texts: seq<string>): string {
    if texts == [] then "" else if |texts| == 1 then texts[0] else texts[0] + (", " + JoinedTexts(texts[1..]))
  }

  function Texts(ts: seq<Target>): seq<string> {
    seq(|ts|, i requires 0 <= i < |ts| => LinkText(ts[i]))
  }

  function Header(ts: seq<Target>): string {
    JoinedTexts(Texts(ts))
  }

  function TargetOf(l: Link, size: nat, query: Option<string>): Target {
    Target(Uri(l.page, size, query), RelName(l.rel))
  }

  function TargetsOf(links: seq<Link>, size: nat, query: Option<string>): seq<Target> {
    seq(|links|, i requires 0 <= i < |links| => TargetOf(links[i], size, query))
  }

  /** The links of a page as targets. */
  function Targets(page: U32, size: U32, total: nat, query: Option<string>): seq<Target>
    requires size > 0
  {
    TargetsOf(LinksOf(page, size, total), size, query)
  }

  /** One more link is one more text. */
  lemma TextsNext(links: seq<Link>, l: Link, size: nat, query: Option<string>)
    ensures Texts(TargetsOf(links + [l], size, query)) == Texts(TargetsOf(links, size, query)) + [LinkText(TargetOf(l, size, query))]
  {
    hide LinkText, TargetOf;
  }

  /** The texts pushed so far are those of `done`. */
  ghost predicate Pushed(texts: seq<string>, done: seq<Link>, size: nat, query: Option<string>) {
    texts == Texts(TargetsOf(done, size, query))
  }

  method BuildLinkHeader(page: U32, size: U32, total: nat, query: Option<string>) returns (header: string)
    requires 1 <= size
    ensures header == Header(Targets(page, size, total, query))
  {
    hide LinkText, Uri, Texts, DivCeil, JoinedTexts;
    ghost var done: seq<Link> := [];
    var links: seq<string> := [];
    assert Pushed(links, done, size, query) by { NothingPushed(size, query); }
    TextsNext(done, Link(First, 1), size, query);
    links := links + [LinkText(Target(Uri(1, size, query), "first"))];
    done := done + [Link(First, 1)];
    if page > 1 {
      TextsNext(done, Link(Prev, page - 1), size, query);
      links := links + [LinkText(Target(Uri(page - 1, size, query), "prev"))];
      done := done + [Link(Prev, page - 1)];
    }
    if page * size < total {
      TextsNext(done, Link(Next, AsU32(page + 1)), size, query);
      links := links + [LinkText(Target(Uri(AsU32(page + 1), size, query), "next"))];
      done := done + [Link(Next, AsU32(page + 1))];
    }
    if total > 0 {
      var last := AsU32(DivCeil(total, size));
      TextsNext(done, Link(Last, last), size, query);
      links := links + [LinkText(Target(Uri(last, size, query), "last"))];
      done := done + [Link(Last, last)];
    }
    assert done == LinksOf(page, size, total);
    header := JoinedTexts(links);
  }

  lemma NothingPushed(size: nat, query: Option<string>)
    ensures Pushed([], [], size, query)
  {
  }

  /** What stands after the reference of each relation. */
  lemma RelPrinted()
    ensures ">" + (REL + (RelName(First) + "\"")) == ">; rel=\"first\""
    ensures ">" + (REL + (RelName(Prev) + "\"")) == ">; rel=\"prev\""
    ensures ">" + (REL + (RelName(Next) + "\"")) == ">; rel=\"next\""
    ensures ">" + (REL + (RelName(Last) + "\"")) == ">; rel=\"last\""
  {
  }

  lemma LinkPrinted(l: Link, size: nat, query: Option<string>)
    ensures LinkText(TargetOf(l, size, query)) ==
            "<" + (("settings?page=" + (Decimal(l.page) + ("&size=" + Decimal(size) + QueryParam(query))))
                   + (">" + (REL + (RelName(l.rel) + "\""))))
  {
    hide Decimal, RelName, QueryParam;
  }

  /** The texts of some links, each after a comma and a space. */
  function After(links: seq<Link>, size: nat, query: Option<string>): string {
    if links == [] then "" else ", " + Header(TargetsOf(links, size, query))
  }

  lemma AfterJoined(links: seq<Link>, more: seq<Link>, size: nat, query: Option<string>)
    requires |links| == 1
    ensures Header(TargetsOf(links + more, size, query)) == LinkText(TargetOf(links[0], size, query)) + After(more, size, query)
  {
    hide LinkText, TargetOf, Header;
    HeaderOfOne(links[0], size, query);
    assert links == [links[0]];
    if more == [] {
      assert links + more == links;
    } else {
      HeaderNext(links + more, size, query);
      assert (links + more)[1..] == more;
    }
  }

  /** An optional link and what is after it. */
  lemma AfterOption(rel: Rel, page: Option<U32>, more: seq<Link>, size: nat, query: Option<string>)
    ensures After(LinkTo(rel, page) + more, size, query) ==
            (if page.Some? then ", " + LinkText(TargetOf(Link(rel, page.value), size, query)) else "") + After(more, size, query)
  {
    hide LinkText, TargetOf, Header;
    if page.Some? {
      AfterJoined(LinkTo(rel, page), more, size, query);
    } else {
      assert LinkTo(rel, page) + more == more;
    }
  }

  /** The whole text of the header. */
  lemma HeaderPrinted(page: U32, size: U32, total: nat, query: Option<string>)
    requires 1 <= page && 1 <= size
    ensures var tail, turn := "&size=" + Decimal(size) + (if query.Some? then "&query=" + query.value else ""), 0x1_0000_0000;
            Header(Targets(page, size, total, query)) ==
            ("<" + (("settings?page=" + (Decimal(1) + tail)) + ">; rel=\"first\""))
            + ((if page > 1 then ", " + ("<" + (("settings?page=" + (Decimal(page - 1) + tail)) + ">; rel=\"prev\"")) else "")
               + ((if page * size < total then ", " + ("<" + (("settings?page=" + (Decimal((page + 1) % turn) + tail)) + ">; rel=\"next\"")) else "")
                  + ((if total > 0 then ", " + ("<" + (("settings?page=" + (Decimal(PageCount(total, size) % turn) + tail)) + ">; rel=\"last\"")) else "")
                     + "")))
  {
    hide LinkText, TargetOf, Header, After, DivCeil, PageCount, Decimal, RelName;
    var prev: Option<U32> := if page > 1 then Some(page - 1) else None;
    var next, last := NextOf(page, size, total), LastOf(size, total);
    DivCeilIsPageCount(total, size);
    PartsAfter(Link(First, 1), prev, next, last, size, query);
    assert LinksOf(page, size, total) == [Link(First, 1)] + (LinkTo(Prev, prev) + (LinkTo(Next, next) + (LinkTo(Last, last) + [])));
    RelPrinted();
    LinkPrinted(Link(First, 1), size, query);
    if prev.Some? { LinkPrinted(Link(Prev, prev.value), size, query); }
    if next.Some? { LinkPrinted(Link(Next, next.value), size, query); }
    if last.Some? { LinkPrinted(Link(Last, last.value), size, query); }
  }

  lemma PartsAfter(first: Link, prev: Option<U32>, next: Option<U32>, last: Option<U32>, size: nat, query: Option<string>)
    ensures Header(TargetsOf([first] + (LinkTo(Prev, prev) + (LinkTo(Next, next) + (LinkTo(Last, last) + []))), size, query)) ==
            LinkText(TargetOf(first, size, query))
            + ((if prev.Some? then ", " + LinkText(TargetOf(Link(Prev, prev.value), size, query)) else "")
               + ((if next.Some? then ", " + LinkText(TargetOf(Link(Next, next.value), size, query)) else "")
                  + ((if last.Some? then ", " + LinkText(TargetOf(Link(Last, last.value), size, query)) else "") + "")))
  {
    hide LinkText, TargetOf, Header, LinkTo;
    AfterJoined([first], LinkTo(Prev, prev) + (LinkTo(Next, next) + (LinkTo(Last, last) + [])), size, query);
    AfterOption(Prev, prev, LinkTo(Next, next) + (LinkTo(Last, last) + []), size, query);
    AfterOption(Next, next, LinkTo(Last, last) + [], size, query);
    AfterOption(Last, last, [], size, query);
  }

  // --- Sending ---

  /** What may stand in a header value: no control character but a tab. */
  predicate Sendable(c: char) {
    (' ' <= c && c as int != 0x7F) || c == '\t'
  }

  predicate AllSendable(s: string) {
    forall i | 0 <= i < |s| :: Sendable(s[i])
  }

  /** A text that may not stand in a header is not sent: the request fails instead. */
  function Sent(header: string): Option<string> {
    if AllSendable(header) then Some(header) else None
  }

  lemma SendableJoined(a: string, b: string)
    ensures AllSendable(a + b) <==> AllSendable(a) && AllSendable(b)
  {
    if AllSendable(a + b) {
      assert forall i | 0 <= i < |a| :: a[i] == (a + b)[i];
      assert forall i | 0 <= i < |b| :: b[i] == (a + b)[|a| + i];
    }
  }

  lemma DecimalSendable(n: nat)
    ensures AllSendable(Decimal(n))
  {
    hide Decimal;
    DecimalIsNumeral(n);
    assert forall i | 0 <= i < |Decimal(n)| :: IsDigit(Decimal(n)[i]);
  }

  lemma LinkSendable(page: nat, size: nat, query: Option<string>, rel: Rel)
    ensures AllSendable(LinkText(Target(Uri(page, size, query), RelName(rel)))) <==> query.None? || AllSendable(query.value)
  {
    hide Decimal, AllSendable;
    DecimalSendable(page);
    DecimalSendable(size);
    LiteralsSendable(rel);
    var param := QueryParam(query);
    if query.Some? {
      SendableJoined("&query=", query.value);
    }
    SendableJoined("&size=" + Decimal(size), param);
    SendableJoined("&size=", Decimal(size));
    SendableJoined(Decimal(page), "&size=" + Decimal(size) + param);
    SendableJoined(PREFIX, Decimal(page) + ("&size=" + Decimal(size) + param));
    var uri := Uri(page, size, query);
    SendableJoined(RelName(rel), "\"");
    SendableJoined(REL, RelName(rel) + "\"");
    SendableJoined(">", REL + (RelName(rel) + "\""));
    SendableJoined(uri, ">" + (REL + (RelName(rel) + "\"")));
    SendableJoined("<", uri + (">" + (REL + (RelName(rel) + "\""))));
  }

  lemma LiteralsSendable(rel: Rel)
    ensures AllSendable(PREFIX) && AllSendable("&size=") && AllSendable("&query=") && AllSendable("<") && AllSendable(">")
    ensures AllSendable(REL) && AllSendable("\"") && AllSendable(RelName(rel)) && AllSendable(", ") && AllSendable("")
  {
  }

  /** The header is sent exactly when the query has no ASCII control character but tabs. */
  lemma {:induction false} LinksSendable(links: seq<Link>, size: nat, query: Option<string>)
    requires links != []
    ensures AllSendable(Header(TargetsOf(links, size, query))) <==> query.None? || AllSendable(query.value)
    decreases |links|
  {
    hide AllSendable, LinkText, Uri, RelName;
    var t := TargetOf(links[0], size, query);
    LinkSendable(links[0].page, size, query, links[0].rel);
    if |links| > 1 {
      HeaderNext(links, size, query);
      LiteralsSendable(First);
      LinksSendable(links[1..], size, query);
      var others := Header(TargetsOf(links[1..], size, query));
      SendableJoined(", ", others);
      SendableJoined(LinkText(t), ", " + others);
    } else {
      HeaderOfOne(links[0], size, query);
      assert links == [links[0]];
    }
  }

  lemma HeaderOfOne(l: Link, size: nat, query: Option<string>)
    ensures Header(TargetsOf([l], size, query)) == LinkText(TargetOf(l, size, query))
  {
    hide LinkText, TargetOf;
  }

  lemma HeaderNext(links: seq<Link>, size: nat, query: Option<string>)
    requires |links| > 1
    ensures Header(TargetsOf(links, size, query)) ==
            LinkText(TargetOf(links[0], size, query)) + (", " + Header(TargetsOf(links[1..], size, query)))
  {
    hide LinkText, TargetOf;
    var ts, others := TargetsOf(links, size, query), TargetsOf(links[1..], size, query);
    assert Texts(ts)[1..] == Texts(others);
  }

  // --- Reading ---

  /** One link as section 3 of RFC 8288 writes it: a reference in angle brackets, then the
      relation in quotes; and what follows. */
  function ReadOne(s: string): (r: Option<(Target, string)>)
    ensures r.Some? ==> |r.value.1| < |s| && r.value.1 == s[|s| - |r.value.1|..]
    ensures r.Some? ==> s[0] == '<' && r.value.0.uri == UpTo(s[1..], '>')
  {
    match Without("<", s)
    case None => None
    case Some(inside) =>
      match Cut(inside, '>')
      case None => None
      case Some((uri, closed)) =>
        match Without(REL, closed)
        case None => None
        case Some(quoted) =>
          match Cut(quoted, '"')
          case None => None
          case Some((rel, rest)) => Some((Target(uri, rel), rest))
  }

  /** All links of a header, if it reads as a list of them. */
  function ReadLinks(s: string): Option<seq<Target>>
    decreases |s|
  {
    match ReadOne(s)
    case None => None
    case Some((t, rest)) =>
      if rest == "" then Some([t])
      else
        match Without(", ", rest)
        case None => None
        case Some(more) =>
          match ReadLinks(more)
          case None => None
          case Some(ts) => Some([t] + ts)
  }

  ghost predicate Unambiguous(t: Target) {
    '>' !in t.uri && '"' !in t.rel
  }

  lemma Nested(a: string, u: string, b: string, c: string, r: string, d: string, rest: string)
    ensures (a + (u + (b + (c + (r + d))))) + rest == a + (u + (b + (c + (r + (d + rest)))))
  {
    Associates(a, u + (b + (c + (r + d))), rest);
    Associates(u, b + (c + (r + d)), rest);
    Associates(b, c + (r + d), rest);
    Associates(c, r + d, rest);
    Associates(r, d, rest);
  }

  lemma Associates(a: string, b: string, c: string)
    ensures (a + b) + c == a + (b + c)
  {
  }

  /** A link is read back, with whatever follows it. */
  lemma ReadsText(t: Target, rest: string)
    requires Unambiguous(t)
    ensures ReadOne(LinkText(t) + rest) == Some((t, rest))
  {
    hide Cut, Without, Split, UpTo;
    var quoted := t.rel + ("\"" + rest);
    var closed := REL + quoted;
    var inside := t.uri + (">" + closed);
    assert LinkText(t) + rest == "<" + inside by { Nested("<", t.uri, ">", REL, t.rel, "\"", rest); }
    WithoutJoined("<", inside);
    CutJoined(t.uri, '>', closed);
    WithoutJoined(REL, quoted);
    CutJoined(t.rel, '"', rest);
  }

  lemma {:induction false} ReadsHeader(ts: seq<Target>)
    requires ts != [] && forall t | t in ts :: Unambiguous(t)
    ensures ReadLinks(Header(ts)) == Some(ts)
    decreases |ts|
  {
    hide LinkText, ReadOne, Unambiguous;
    var t, others := ts[0], ts[1..];
    assert t in ts;
    if others == [] {
      assert Header(ts) == LinkText(t) + "";
      ReadsText(t, "");
      assert ts == [t];
    } else {
      assert Texts(ts)[1..] == Texts(others);
      assert Header(ts) == LinkText(t) + (", " + Header(others));
      ReadsText(t, ", " + Header(others));
      WithoutJoined(", ", Header(others));
      ReadsHeader(others);
      assert ts == [t] + others;
    }
  }

  /** A reference that stands at `k` in the text, between angle brackets. */
  ghost predicate StandsAt(s: string, k: nat, uri: string) {
    k < |s| && s[k] == '<' && uri == UpTo(s[k + 1..], '>')
  }

  /** Whatever is read stands somewhere in the text. */
  lemma {:induction false} ReadStands(s: string)
    ensures ReadLinks(s).Some? ==> forall t | t in ReadLinks(s).value :: exists k: nat :: StandsAt(s, k, t.uri)
    decreases |s|
  {
    hide ReadOne, UpTo;
    if ReadLinks(s).Some? {
      var (t, rest) := ReadOne(s).value;
      assert StandsAt(s, 0, t.uri);
      if rest != "" {
        var more := Without(", ", rest).value;
        var d := |s| - |more|;
        assert more == s[d..];
        ReadStands(more);
        forall u, k: nat | StandsAt(more, k, u) ensures StandsAt(s, d + k, u) {
          assert more[k + 1..] == s[d + k + 1..];
        }
      }
    }
  }
}
