/** The compact text of a JSON value, as the service prints it to measure it. */
module JsonText {
  import opened Json
  import opened Text

  function HexDigit(n: nat): char
    requires n < 16
  {
    if n < 10 then ('0' as int + n) as char else ('a' as int + n - 10) as char
  }

  /** One character inside a quoted string. */
  function Escaped(c: char): string {
    if c == '"' then "\\\""
    else if c == '\\' then "\\\\"
    else if c == '\n' then "\\n"
    else if c == '\r' then "\\r"
    else if c == '\t' then "\\t"
    else if c as int == 0x8 then "\\b"
    else if c as int == 0xC then "\\f"
    else if c as int < 0x20 then "\\u00" + [HexDigit(c as int / 16), HexDigit(c as int % 16)]
    else [c]
  }

  function EscapedText(s: string): string {
    if s == [] then [] else Escaped(s[0]) + EscapedText(s[1..])
  }

  function Quoted(s: string): string {
    "\"" + EscapedText(s) + "\""
  }

  function Print(v: Value): string
    decreases v, 2, 0
  {
    match v
    case Null => "null"
    case Bool(b) => if b then "true" else "false"
    case Number(text) => text
    case String(s) => Quoted(s)
    case Array(items) => "[" + PrintItems(v, 0) + "]"
    case Object(m) => "{" + PrintMembers(v, m.Keys) + "}"
  }

  function PrintItems(v: Value, i: nat): string
    requires v.Array? && i <= |v.items|
    decreases v, 1, |v.items| - i
  {
    if i == |v.items| then ""
    else Print(v.items[i]) + (if i + 1 < |v.items| then "," else "") + PrintItems(v, i + 1)
  }

  function PrintMembers(v: Value, keys: set<string>): string
    requires v.Object? && keys <= v.m.Keys
    decreases v, 1, |keys|
  {
    if keys == {} then ""
    else
      var k := MinKey(keys);
      var rest := keys - {k};
      Quoted(k) + ":" + Print(v.m[k]) + (if rest != {} then "," else "") + PrintMembers(v, rest)
  }

  // --- Its length ---

  lemma {:induction false} ByteLenJoined(s: string, t: string)
    ensures ByteLen(s + t) == ByteLen(s) + ByteLen(t)
  {
    if s == [] {
      assert s + t == t;
    } else {
      ByteLenJoined(s[1..], t);
      assert (s + t)[1..] == s[1..] + t;
    }
  }

  ghost predicate Ascii(s: string) {
    forall i | 0 <= i < |s| :: s[i] as int < 0x80
  }

  lemma {:induction false} AsciiLen(s: string)
    requires Ascii(s)
    ensures ByteLen(s) == |s|
  {
    if s != [] {
      AsciiLen(s[1..]);
    }
  }

  lemma EscapedLenIs(c: char)
    ensures ByteLen(Escaped(c)) == EscapedWidth(c)
  {
    if Escaped(c) == [c] {
      assert [c][1..] == [];
    } else {
      AsciiLen(Escaped(c));
    }
  }

  lemma {:induction false} EscapedTextLen(s: string)
    ensures ByteLen(EscapedText(s)) == EscapedLen(s)
  {
    if s != [] {
      EscapedLenIs(s[0]);
      EscapedTextLen(s[1..]);
      ByteLenJoined(Escaped(s[0]), EscapedText(s[1..]));
    }
  }

  lemma QuotedTextLen(s: string)
    ensures ByteLen(Quoted(s)) == QuotedLen(s)
  {
    EscapedTextLen(s);
    AsciiLen("\"");
    ByteLenJoined("\"" + EscapedText(s), "\"");
    ByteLenJoined("\"", EscapedText(s));
  }

  /** The length the service limits is the length of the printed text in bytes. */
  lemma {:induction false} PrintedLen(v: Value)
    ensures ByteLen(Print(v)) == SerializedLen(v)
    decreases v, 2, 0
  {
    match v
    case Null => AsciiLen("null");
    case Bool(b) => AsciiLen("true"); AsciiLen("false");
    case Number(text) =>
    case String(s) => QuotedTextLen(s);
    case Array(items) =>
      PrintedItems(v, 0);
      BracketedLen("[", PrintItems(v, 0), "]");
    case Object(m) =>
      PrintedMembers(v, m.Keys);
      BracketedLen("{", PrintMembers(v, m.Keys), "}");
  }

  lemma BracketedLen(open: string, s: string, close: string)
    requires |open| == |close| == 1 && Ascii(open) && Ascii(close)
    ensures ByteLen(open + s + close) == ByteLen(s) + 2
  {
    AsciiLen(open);
    AsciiLen(close);
    ByteLenJoined(open + s, close);
    ByteLenJoined(open, s);
  }

  lemma {:induction false} PrintedItems(v: Value, i: nat)
    requires v.Array? && i <= |v.items|
    ensures ByteLen(PrintItems(v, i)) == ItemsLen(v, i)
    decreases v, 1, |v.items| - i
  {
    if i < |v.items| {
      var one, comma := Print(v.items[i]), if i + 1 < |v.items| then "," else "";
      PrintedLen(v.items[i]);
      PrintedItems(v, i + 1);
      AsciiLen(comma);
      ByteLenJoined(one + comma, PrintItems(v, i + 1));
      ByteLenJoined(one, comma);
    }
  }

  lemma {:induction false} PrintedMembers(v: Value, keys: set<string>)
    requires v.Object? && keys <= v.m.Keys
    ensures ByteLen(PrintMembers(v, keys)) == MembersLen(v, keys)
    decreases v, 1, |keys|
  {
    if keys != {} {
      var k := MinKey(keys);
      var rest := keys - {k};
      var name, one, comma := Quoted(k), Print(v.m[k]), if rest != {} then "," else "";
      PrintedLen(v.m[k]);
      PrintedMembers(v, rest);
      QuotedTextLen(k);
      AsciiLen(comma);
      AsciiLen(":");
      ByteLenJoined(name + ":" + one + comma, PrintMembers(v, rest));
      ByteLenJoined(name + ":" + one, comma);
      ByteLenJoined(name + ":", one);
      ByteLenJoined(name, ":");
    }
  }
}
