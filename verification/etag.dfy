/** Entity tags: the version printed for a response and parsed from `If-Match`. */
module Etag {
  import opened Numerals
  import opened Text
  import opened Wrappers

  function EtagOf(version: nat): string {
    "\"" + Decimal(version) + "\""
  }

  predicate IsQuote(c: char) {
    c == '"'
  }

  /** What a header value may hold to be read as text. */
  predicate Printable(s: string) {
    forall i | 0 <= i < |s| :: ' ' <= s[i] <= '~' || s[i] == '\t'
  }

  function IfMatch(header: Option<string>): Option<U64> {
    if header.None? || !Printable(header.value) then None
    else ParseU64(TrimMatches(Trim(header.value), IsQuote))
  }

  /** The text between the quotes of a tag. */
  lemma TagContent(d: string)
    requires AllDigits(d) && d != []
    ensures Printable("\"" + d + "\"")
    ensures TrimMatches(Trim("\"" + d + "\""), IsQuote) == d
  {
    hide TrimMatches, AllDigits;
    var tag := "\"" + d + "\"";
    assert tag[0] == '"' && tag[|tag| - 1] == '"';
    TrimMatchesFixed(tag, IsWhitespace);
    NoQuotes(d);
    TrimMatchesFramed("\"", d, "\"", IsQuote);
    assert tag == "\"" + (d + "\"");
  }

  lemma NoQuotes(d: string)
    requires AllDigits(d)
    ensures forall i | 0 <= i < |d| :: !IsQuote(d[i]) && ' ' <= d[i] <= '~'
  {
  }

  /** A tag is a numeral in quotes, and `If-Match` reads back every version a response prints. */
  lemma EtagRoundTrip(version: nat)
    requires version <= 18446744073709551615
    ensures var tag := EtagOf(version);
            && |tag| >= 3 && tag[0] == '"' == tag[|tag| - 1]
            && forall i | 0 < i < |tag| - 1 :: '0' <= tag[i] <= '9'
    ensures EtagOf(1234567890) == "\"1234567890\""
    ensures IfMatch(Some(EtagOf(version))) == Some(version)
  {
    hide Decimal, Number, Trim, TrimMatches;
    DecimalText();
    DecimalIsNumeral(version);
    DecimalParses(version);
    TagContent(Decimal(version));
  }

  /** The header is `body` between quotes, between blanks. */
  ghost predicate Framed(header: string, w1: string, q1: string, body: string, q2: string, w2: string) {
    && header == w1 + ((q1 + (body + q2)) + w2)
    && (forall i | 0 <= i < |w1| :: w1[i] == ' ' || w1[i] == '\t') && (forall i | 0 <= i < |w2| :: w2[i] == ' ' || w2[i] == '\t')
    && (forall i | 0 <= i < |q1| :: q1[i] == '"') && (forall i | 0 <= i < |q2| :: q2[i] == '"')
  }

  /** The header is the numeral of `n`, perhaps after zeros and a plus sign, between quotes, between
      blanks. */
  ghost predicate Tags(header: string, n: U64) {
    exists w1, q1, plus, z, body, q2, w2 :: Framed(header, w1, q1, body, q2, w2) && Numeral(body, plus, z, n)
  }

  /** Exactly the numerals of a version are read as it: its decimal digits, perhaps after zeros
      and a plus sign, between any number of quotes on either side and blanks around. So a weak
      tag, a list of tags or `*` is no version, as if the header were absent. */
  lemma IfMatchIff(header: string, n: U64)
    ensures IfMatch(Some(header)) == Some(n) <==>
            Tags(header, n) && forall i | 0 <= i < |header| :: ' ' <= header[i] <= '~' || header[i] == '\t'
  {
    hide Decimal, Number, TrimMatches, Numeral;
    if IfMatch(Some(header)) == Some(n) {
      var body := TrimMatches(Trim(header), IsQuote);
      NumeralOf(body, n);
      var plus, z :| Numeral(body, plus, z, n);
      FramedBody(header);
      assert Tags(header, n);
    }
    if Printable(header) {
      forall w1, q1, plus, z, body, q2, w2 | Framed(header, w1, q1, body, q2, w2) && Numeral(body, plus, z, n)
        ensures IfMatch(Some(header)) == Some(n)
      {
        NumeralParses(body, plus, z, n);
        BodyOf(header, w1, q1, body, q2, w2, n);
      }
    }
  }

  /** What is left of a printable header is what stands between quotes and blanks. */
  lemma FramedBody(header: string)
    requires Printable(header)
    ensures exists w1, q1, q2, w2 :: Framed(header, w1, q1, TrimMatches(Trim(header), IsQuote), q2, w2)
  {
    hide TrimMatches;
    var w1, w2 := Trimmed(header, IsWhitespace);
    var q1, q2 := Trimmed(Trim(header), IsQuote);
    assert forall i | 0 <= i < |w1| :: header[i] == w1[i];
    assert forall i | 0 <= i < |w2| :: header[|header| - |w2| + i] == w2[i];
    assert Trim(header) == q1 + (TrimMatches(Trim(header), IsQuote) + q2);
    assert Framed(header, w1, q1, TrimMatches(Trim(header), IsQuote), q2, w2);
  }

  lemma BodyOf(header: string, w1: string, q1: string, body: string, q2: string, w2: string, n: U64)
    requires Framed(header, w1, q1, body, q2, w2) && ParseU64(body) == Some(n)
    ensures TrimMatches(Trim(header), IsQuote) == body
  {
    hide TrimMatches, Number;
    EndsOfNumeral(body, n);
    var tag := q1 + (body + q2);
    assert tag[0] == if q1 == [] then body[0] else '"';
    assert tag[|tag| - 1] == if q2 == [] then body[|body| - 1] else '"';
    TrimMatchesFramed(w1, tag, w2, IsWhitespace);
    TrimMatchesFramed(q1, body, q2, IsQuote);
  }

  lemma EndsOfNumeral(s: string, n: U64)
    requires ParseU64(s) == Some(n)
    ensures s != [] && (IsDigit(s[0]) || s[0] == '+') && IsDigit(s[|s| - 1])
  {
    hide Number;
    if s[0] == '+' {
      assert s[1..][|s| - 2] == s[|s| - 1];
    }
  }

  /** A header with a character that no numeral has is read as no version. */
  lemma ForeignCharacter(header: string, c: char)
    requires c in header && !IsWhitespace(c) && !IsQuote(c) && !IsDigit(c) && c != '+'
    ensures IfMatch(Some(header)) == None
  {
    hide TrimMatches, IsWhitespace;
    var i :| 0 <= i < |header| && header[i] == c;
    KeptByTrim(header, IsWhitespace, i);
    var t := Trim(header);
    var j :| 0 <= j < |t| && t[j] == c;
    KeptByTrim(t, IsQuote, j);
    NoNumeral(TrimMatches(t, IsQuote), c);
  }

  /** A weak tag, a list of tags and `*`, which RFC 9110 allows in this header, each count as no
      header. */
  lemma ForeignTags()
    ensures IfMatch(Some("W/\"1\"")) == None == IfMatch(None)
    ensures IfMatch(Some("\"1\", \"2\"")) == None
    ensures IfMatch(Some("*")) == None
  {
    hide IfMatch;
    assert IfMatch(None) == None by { NoHeader(); }
    var weak, list, any := "W/\"1\"", "\"1\", \"2\"", "*";
    assert weak[0] == 'W' && list[3] == ',' && any[0] == '*';
    ForeignCharacter(weak, 'W');
    ForeignCharacter(list, ',');
    ForeignCharacter(any, '*');
  }

  lemma NoHeader()
    ensures IfMatch(None) == None
  {
  }
}
