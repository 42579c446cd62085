/** The query of a reference, and what a request of it asks the service to list. */
module FormQuery {
  import opened Numerals
  import opened Text
  import opened Wrappers

  // --- Form decoding ---

  predicate IsHex(c: char) {
    '0' <= c <= '9' || 'a' <= c <= 'f' || 'A' <= c <= 'F'
  }

  function HexValue(c: char): nat
    requires IsHex(c)
  {
    if c <= '9' then c as int - '0' as int else if c <= 'F' then c as int - 'A' as int + 10 else c as int - 'a' as int + 10
  }

  /** A percent sign and two hexadecimal digits stand at the begin of `s`. */
  predicate StartsEscape(s: string) {
    |s| >= 3 && s[0] == '%' && IsHex(s[1]) && IsHex(s[2])
  }

  /** A character of the query as it stands, or a byte of one that was escaped. */
  datatype Token = Character(c: char) | Byte(b: nat)

  /** A plus sign stands for a space, and an escape for its byte. */
  function Tokens(s: string): seq<Token>
    decreases |s|
  {
    if s == [] then []
    else if StartsEscape(s) then [Byte(HexValue(s[1]) * 16 + HexValue(s[2]))] + Tokens(s[3..])
    else [Character(if s[0] == '+' then ' ' else s[0])] + Tokens(s[1..])
  }

  /** How runs of bytes are read as text. */
  type ByteReader = seq<nat> -> string

  /** No more than one character is read from a byte, as in every reading of UTF-8. */
  ghost predicate Frugal(read: ByteReader) {
    forall bytes :: |read(bytes)| <= |bytes|
  }

  /** The text of the tokens after a run of bytes. */
  function TextOf(run: seq<nat>, ts: seq<Token>, read: ByteReader): string
    decreases |ts|
  {
    if ts == [] then read(run)
    else
      match ts[0]
      case Character(c) => read(run) + [c] + TextOf([], ts[1..], read)
      case Byte(b) => TextOf(run + [b], ts[1..], read)
  }

  function FormDecode(s: string, read: ByteReader): string {
    TextOf([], Tokens(s), read)
  }

  ghost predicate NoEscape(s: string) {
    forall i | 0 <= i <= |s| :: !StartsEscape(s[i..])
  }

  /** The text decodes to itself. */
  ghost predicate PlainForm(s: string) {
    '+' !in s && NoEscape(s)
  }

  lemma NoEscapeTail(s: string)
    requires s != [] && NoEscape(s)
    ensures NoEscape(s[1..]) && !StartsEscape(s)
  {
    assert s[0..] == s;
    forall i | 0 <= i <= |s[1..]| ensures s[1..][i..] == s[i + 1..] {
    }
  }

  lemma NoEscapeLonger(s: string)
    requires s != [] && !StartsEscape(s) && NoEscape(s[1..])
    ensures NoEscape(s)
  {
    forall i | 0 <= i <= |s| ensures !StartsEscape(s[i..]) {
      if i == 0 {
        assert s[0..] == s;
      } else {
        assert s[1..][i - 1..] == s[i..];
      }
    }
  }

  /** Every escape makes fewer tokens of more characters. */
  lemma {:induction false} TokensLength(s: string)
    ensures |Tokens(s)| <= |s|
    ensures |Tokens(s)| == |s| ==> NoEscape(s)
    decreases |s|
  {
    if s != [] {
      if StartsEscape(s) {
        TokensLength(s[3..]);
      } else {
        TokensLength(s[1..]);
        if |Tokens(s)| == |s| {
          NoEscapeLonger(s);
        }
      }
    }
  }

  lemma {:induction false} TextLength(run: seq<nat>, ts: seq<Token>, read: ByteReader)
    requires Frugal(read)
    ensures |TextOf(run, ts, read)| <= |run| + |ts|
    decreases |ts|
  {
    if ts != [] {
      match ts[0]
      case Character(_) => TextLength([], ts[1..], read);
      case Byte(b) => TextLength(run + [b], ts[1..], read);
    }
  }

  lemma DecodeShortens(s: string, read: ByteReader)
    requires Frugal(read)
    ensures |FormDecode(s, read)| <= |s|
    ensures |FormDecode(s, read)| == |s| ==> NoEscape(s)
  {
    TokensLength(s);
    TextLength([], Tokens(s), read);
  }

  /** Without escapes only the plus signs change. */
  lemma {:induction false} DecodeSpaces(s: string, read: ByteReader)
    requires Frugal(read) && NoEscape(s)
    ensures |FormDecode(s, read)| == |s|
    ensures forall i | 0 <= i < |s| :: FormDecode(s, read)[i] == if s[i] == '+' then ' ' else s[i]
    decreases |s|
  {
    assert read([]) == [];
    if s != [] {
      NoEscapeTail(s);
      DecodeSpaces(s[1..], read);
      var c := if s[0] == '+' then ' ' else s[0];
      assert Tokens(s)[0] == Character(c) && Tokens(s)[1..] == Tokens(s[1..]);
      assert FormDecode(s, read) == [c] + FormDecode(s[1..], read);
    }
  }

  /** A text decodes to itself exactly when it has no plus sign and no escape. */
  lemma DecodeFixedIff(s: string, read: ByteReader)
    requires Frugal(read)
    ensures FormDecode(s, read) == s <==> PlainForm(s)
  {
    DecodeShortens(s, read);
    if NoEscape(s) {
      DecodeSpaces(s, read);
      if '+' in s {
        var i :| 0 <= i < |s| && s[i] == '+';
        assert FormDecode(s, read)[i] == ' ';
      }
    }
  }

  /** A text without percent and plus signs decodes to itself. */
  lemma SimpleIsPlain(s: string, read: ByteReader)
    requires Frugal(read) && '%' !in s && '+' !in s
    ensures FormDecode(s, read) == s
  {
    forall i | 0 <= i <= |s| ensures !StartsEscape(s[i..]) {
      if i < |s| {
        assert s[i..][0] == s[i] && s[i] in s;
      }
    }
    DecodeFixedIff(s, read);
  }

  /** A byte escaped: a percent sign and its two hexadecimal digits. */
  function EscapedByte(b: nat, lower: bool): string
    requires b < 256
  {
    var digits := if lower then "0123456789abcdef" else "0123456789ABCDEF";
    ['%', digits[b / 16], digits[b % 16]]
  }

  function EscapedBytes(bytes: seq<nat>, lower: bool): string
    requires forall b | b in bytes :: b < 256
  {
    if bytes == [] then ""
    else
      assert bytes[0] in bytes && forall b | b in bytes[1..] :: b in bytes;
      EscapedByte(bytes[0], lower) + EscapedBytes(bytes[1..], lower)
  }

  /** Escaped bytes decode to what the bytes are read as, in upper and in lower case. */
  lemma EscapesDecode(bytes: seq<nat>, lower: bool, read: ByteReader)
    requires forall b | b in bytes :: b < 256
    ensures FormDecode(EscapedBytes(bytes, lower), read) == read(bytes)
  {
    hide EscapedBytes, Tokens;
    EscapedTokens(bytes, lower);
    OneRun([], bytes, read);
    assert [] + bytes == bytes;
  }

  lemma {:induction false} EscapedTokens(bytes: seq<nat>, lower: bool)
    requires forall b | b in bytes :: b < 256
    ensures Tokens(EscapedBytes(bytes, lower)) == BytesOf(bytes)
  {
    hide EscapedByte, Tokens;
    if bytes != [] {
      assert bytes[0] in bytes && forall b | b in bytes[1..] :: b in bytes;
      EscapedToken(bytes[0], lower, EscapedBytes(bytes[1..], lower));
      EscapedTokens(bytes[1..], lower);
    } else {
      NoTokens();
    }
  }

  lemma NoTokens()
    ensures Tokens("") == []
  {
  }

  lemma EscapedToken(b: nat, lower: bool, rest: string)
    requires b < 256
    ensures Tokens(EscapedByte(b, lower) + rest) == [Byte(b)] + Tokens(rest)
  {
    hide IsHex, HexValue;
    HexDigits(lower, b / 16);
    HexDigits(lower, b % 16);
    assert (EscapedByte(b, lower) + rest)[3..] == rest;
  }

  function BytesOf(bytes: seq<nat>): seq<Token> {
    if bytes == [] then [] else [Byte(bytes[0])] + BytesOf(bytes[1..])
  }

  lemma HexDigits(lower: bool, d: nat)
    requires d < 16
    ensures var digits := if lower then "0123456789abcdef" else "0123456789ABCDEF";
            IsHex(digits[d]) && HexValue(digits[d]) == d
  {
  }

  /** Bytes that follow each other are read together. */
  lemma {:induction false} OneRun(run: seq<nat>, bytes: seq<nat>, read: ByteReader)
    ensures TextOf(run, BytesOf(bytes), read) == read(run + bytes)
    decreases |bytes|
  {
    if bytes == [] {
      assert run + bytes == run;
    } else {
      OneRun(run + [bytes[0]], bytes[1..], read);
      assert run + bytes == run + [bytes[0]] + bytes[1..];
      assert BytesOf(bytes)[1..] == BytesOf(bytes[1..]);
    }
  }

  // --- The parameters of a listing ---

  datatype ListQuery = ListQuery(page: Option<U32>, size: Option<U32>, query: Option<string>)

  /** The decoded name and value of one parameter. */
  function Parameter(part: string, read: ByteReader): (string, string) {
    match Cut(part, '=')
    case None => (FormDecode(part, read), FormDecode("", read))
    case Some((name, value)) => (FormDecode(name, read), FormDecode(value, read))
  }

  /** Parameters taken one after the other. One of the three that comes twice, or a number that
      is none, makes the request a bad one; others and empty parts are ignored. */
  function Taken(parts: seq<string>, q: ListQuery, read: ByteReader): Option<ListQuery> {
    if parts == [] then Some(q)
    else if parts[0] == "" then Taken(parts[1..], q, read)
    else
      var (name, value) := Parameter(parts[0], read);
      if name == "page" then
        if q.page.Some? || ParseU32(value).None? then None else Taken(parts[1..], q.(page := ParseU32(value)), read)
      else if name == "size" then
        if q.size.Some? || ParseU32(value).None? then None else Taken(parts[1..], q.(size := ParseU32(value)), read)
      else if name == "query" then
        if q.query.Some? then None else Taken(parts[1..], q.(query := Some(value)), read)
      else Taken(parts[1..], q, read)
  }

  /** What a request of a reference asks for. */
  datatype Asked = Elsewhere | BadRequest | Listing(q: ListQuery)

  /** The fragment is not sent; the query begins at the first question mark. */
  function AskedBy(uri: string, read: ByteReader): Asked {
    match Cut(UpTo(uri, '#'), '?')
    case None => if UpTo(uri, '#') == "settings" then Listing(ListQuery(None, None, None)) else Elsewhere
    case Some((path, query)) =>
      if path != "settings" then Elsewhere
      else
        match Taken(Split(query, '&'), ListQuery(None, None, None), read)
        case None => BadRequest
        case Some(q) => Listing(q)
  }

  // --- What is asked is no longer than the reference ---

  lemma ParameterLength(part: string, read: ByteReader)
    requires Frugal(read)
    ensures |Parameter(part, read).1| <= |part|
  {
    hide FormDecode;
    DecodeShortens("", read);
    match Cut(part, '=')
    case None =>
    case Some((_, value)) => DecodeShortens(value, read);
  }

  lemma {:induction false} TakenLength(parts: seq<string>, q: ListQuery, read: ByteReader, n: nat)
    requires Frugal(read) && forall part | part in parts :: |part| <= n
    requires q.query.Some? ==> |q.query.value| <= n
    ensures var r := Taken(parts, q, read); r.Some? && r.value.query.Some? ==> |r.value.query.value| <= n
    decreases |parts|
  {
    hide Parameter, ParseU32;
    if parts != [] {
      var rest := parts[1..];
      assert parts[0] in parts && forall part | part in rest :: part in parts;
      ParameterLength(parts[0], read);
      var (name, value) := Parameter(parts[0], read);
      if parts[0] == "" {
        TakenLength(rest, q, read, n);
      } else if name == "page" {
        TakenLength(rest, q.(page := ParseU32(value)), read, n);
      } else if name == "size" {
        TakenLength(rest, q.(size := ParseU32(value)), read, n);
      } else if name == "query" {
        TakenLength(rest, q.(query := Some(value)), read, n);
      } else {
        TakenLength(rest, q, read, n);
      }
    }
  }

  lemma {:induction false} SplitLength(s: string, c: char)
    ensures forall part | part in Split(s, c) :: |part| <= |s|
    decreases |s|
  {
    var i := IndexOf(s, c);
    if i < |s| {
      SplitLength(s[i + 1..], c);
    }
  }

  lemma AskedLength(uri: string, read: ByteReader)
    requires Frugal(read)
    ensures var a := AskedBy(uri, read); a.Listing? && a.q.query.Some? ==> |a.q.query.value| <= |uri|
  {
    hide Taken, Split;
    match Cut(UpTo(uri, '#'), '?')
    case None =>
    case Some((_, query)) =>
      SplitLength(query, '&');
      TakenLength(Split(query, '&'), ListQuery(None, None, None), read, |query|);
  }

  // --- The references the service prints ---

  /** Parameters that are all taken stay as they are. */
  lemma {:induction false} TakenStays(parts: seq<string>, q: ListQuery, read: ByteReader)
    requires q.page.Some? && q.size.Some? && q.query.Some?
    ensures var r := Taken(parts, q, read); r.Some? ==> r.value == q
    decreases |parts|
  {
    hide Parameter, ParseU32;
    if parts != [] {
      TakenStays(parts[1..], q, read);
    }
  }

  /** Name and value are decoded, cut at the first equals sign; without one the value is empty. */
  lemma ParameterDecodes(name: string, value: string, read: ByteReader)
    requires Frugal(read) && '=' !in name
    ensures Parameter(name + ("=" + value), read) == (FormDecode(name, read), FormDecode(value, read))
    ensures Parameter(name, read) == (FormDecode(name, read), "")
  {
    hide FormDecode, Cut;
    CutJoined(name, '=', value);
    DecodeShortens("", read);
    assert Cut(name, '=') == None by { NothingToCut(name, '='); }
  }

  lemma NothingToCut(s: string, c: char)
    requires c !in s
    ensures Cut(s, c) == None
  {
  }

  /** A parameter with a simple name. */
  lemma NamedParameter(name: string, value: string, read: ByteReader)
    requires Frugal(read) && '=' !in name && '%' !in name && '+' !in name
    ensures Parameter(name + ("=" + value), read) == (name, FormDecode(value, read))
  {
    hide FormDecode, Parameter;
    ParameterDecodes(name, value, read);
    SimpleIsPlain(name, read);
  }

  lemma NumberParameter(name: string, n: U32, read: ByteReader)
    requires Frugal(read) && '=' !in name && '%' !in name && '+' !in name
    ensures Parameter(name + ("=" + Decimal(n)), read).0 == name
    ensures ParseU32(Parameter(name + ("=" + Decimal(n)), read).1) == Some(n)
  {
    hide Decimal, ParseU32, Parameter;
    NamedParameter(name, Decimal(n), read);
    DecimalIsNumeral(n);
    SimpleIsPlain(Decimal(n), read);
    DecimalParses(n);
  }

  /** A parameter that comes again, and a number that does not fit or is none, make a bad request;
      a parameter of another name is ignored. */
  lemma BadParameters(value: string, more: seq<string>, q: ListQuery, read: ByteReader)
    requires Frugal(read)
    ensures q.page.Some? || ParseU32(FormDecode(value, read)).None? ==> Taken(["page=" + value] + more, q, read) == None
    ensures q.size.Some? || ParseU32(FormDecode(value, read)).None? ==> Taken(["size=" + value] + more, q, read) == None
    ensures q.query.Some? ==> Taken(["query=" + value] + more, q, read) == None
    ensures Taken(["sort=" + value] + more, q, read) == Taken(more, q, read)
  {
    hide Parameter, ParseU32, FormDecode;
    assert "page=" + value == "page" + ("=" + value) && "size=" + value == "size" + ("=" + value);
    assert "query=" + value == "query" + ("=" + value) && "sort=" + value == "sort" + ("=" + value);
    NamedParameter("page", value, read);
    NamedParameter("size", value, read);
    NamedParameter("query", value, read);
    NamedParameter("sort", value, read);
    assert (["sort=" + value] + more)[1..] == more;
    assert "page" != "sort" && "size" != "sort" && "query" != "sort";
  }

  /** The parts of the query of a reference that the service prints. */
  function PagePart(page: U32): string {
    "page" + ("=" + Decimal(page))
  }

  function SizePart(size: U32): string {
    "size" + ("=" + Decimal(size))
  }

  function QueryPart(query: string): string {
    "query" + ("=" + query)
  }

  /** Page and size are taken as printed, and then what follows. */
  lemma TakenPageAndSize(page: U32, size: U32, more: seq<string>, read: ByteReader)
    requires Frugal(read)
    ensures Taken([PagePart(page), SizePart(size)] + more, ListQuery(None, None, None), read) ==
            Taken(more, ListQuery(Some(page), Some(size), None), read)
  {
    hide Parameter, ParseU32, Decimal;
    NumberParameter("page", page, read);
    NumberParameter("size", size, read);
    var parts := [PagePart(page), SizePart(size)] + more;
    var q0, q1 := ListQuery(None, None, None), ListQuery(Some(page), None, None);
    assert parts[0] == PagePart(page) && parts[1..] == [SizePart(size)] + more;
    assert parts[1..][0] == SizePart(size) && parts[1..][1..] == more;
    assert PagePart(page)[0] == 'p' && SizePart(size)[0] == 's';
    assert Taken(parts, q0, read) == Taken(parts[1..], q1, read);
  }

  /** The query is taken as it decodes up to the first ampersand; what comes after that can only
      make the request a bad one. */
  lemma TakenQuery(query: string, q: ListQuery, read: ByteReader)
    requires Frugal(read) && q.page.Some? && q.size.Some? && q.query.None?
    ensures var r, v := Taken(Split(QueryPart(query), '&'), q, read), FormDecode(UpTo(query, '&'), read);
            && (r.Some? ==> r.value == q.(query := Some(v)))
            && ('&' !in query ==> r.Some?)
  {
    hide Parameter, FormDecode, Split;
    var v := FormDecode(UpTo(query, '&'), read);
    NamedParameter("query", UpTo(query, '&'), read);
    var first := QueryPart(UpTo(query, '&'));
    var more := SplitQuery(query);
    var parts := Split(QueryPart(query), '&');
    assert parts[0] == first && parts[1..] == more;
    assert first[0] == 'q';
    assert Taken(parts, q, read) == Taken(more, q.(query := Some(v)), read);
    TakenStays(more, q.(query := Some(v)), read);
  }

  lemma SplitQuery(query: string) returns (more: seq<string>)
    ensures Split(QueryPart(query), '&') == [QueryPart(UpTo(query, '&'))] + more
    ensures '&' !in query ==> more == []
  {
    hide Split, UpTo, QueryPart, Cut;
    QueryPartPlain(UpTo(query, '&'));
    if '&' in query {
      var after := QueryPartCut(query);
      CutJoined(QueryPart(UpTo(query, '&')), '&', after);
      more := Split(after, '&');
    } else {
      NothingToSplit(QueryPart(query), '&');
      more := [];
    }
  }

  lemma QueryPartPlain(query: string)
    ensures '&' in QueryPart(query) <==> '&' in query
  {
    assert QueryPart(query) == "query=" + query;
    assert '&' !in "query=";
  }

  /** What comes before and after the first ampersand. */
  lemma QueryPartCut(query: string) returns (after: string)
    requires '&' in query
    ensures QueryPart(query) == QueryPart(UpTo(query, '&')) + (['&'] + after)
  {
    var i := IndexOf(query, '&');
    assert i < |query|;
    after := query[i + 1..];
    assert query == query[..i] + (['&'] + after);
    Grouped("query", "=", query[..i], ['&'] + after);
  }

  lemma Grouped(name: string, equals: string, a: string, b: string)
    ensures name + (equals + (a + b)) == (name + (equals + a)) + b
  {
  }

  // --- Which queries survive ---

  /** A reference with this query pasted into it still asks for the query. */
  ghost predicate PlainQuery(query: string) {
    '#' !in query && '&' !in query && PlainForm(query)
  }

  /** What is decoded of a query is the query exactly when it has no number sign, ampersand, plus
      sign or escape. */
  lemma QueryReadIff(query: string, read: ByteReader)
    requires Frugal(read)
    ensures FormDecode(UpTo(UpTo(query, '#'), '&'), read) == query <==> PlainQuery(query)
  {
    hide FormDecode;
    var part := UpTo(UpTo(query, '#'), '&');
    DecodeShortens(part, read);
    DecodeFixedIff(part, read);
    if |part| == |query| {
      assert part == UpTo(query, '#') == query;
    }
  }
}
