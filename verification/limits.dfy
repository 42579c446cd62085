/** What is accepted as a key and as a value, in bytes and code points. */
module Limits {
  import opened Json
  import opened JsonText
  import opened Samples
  import opened SettingModel
  import opened Text
  import opened Wrappers

  // --- Keys ---

  /** `n` times the same character. */
  function Times(c: char, n: nat): string {
    seq(n, _ => c)
  }

  lemma {:induction false} TimesLen(c: char, n: nat)
    ensures ByteLen(Times(c, n)) == n * Utf8Width(c)
    decreases n
  {
    if n > 0 {
      assert Times(c, n)[1..] == Times(c, n - 1);
      TimesLen(c, n - 1);
      assert n * Utf8Width(c) == (n - 1) * Utf8Width(c) + Utf8Width(c);
    }
  }

  /** The same character is a key up to 128 bytes of it: 128 times a letter, 64 times a character
      from U+0080 on, 42 times one from U+0800 on, 32 times one from U+10000 on. */
  lemma KeyLimit(c: char, n: nat)
    requires !IsWhitespace(c)
    ensures NewKey(Times(c, n)).Success? <==>
            1 <= n <= if c as int < 0x80 then 128 else if c as int < 0x800 then 64 else if c as int < 0x10000 then 42 else 32
  {
    hide IsWhitespace, TrimMatches, ByteLen;
    TimesLen(c, n);
    TrimMatchesFixed(Times(c, n), IsWhitespace);
    assert Trim(Times(c, n)) == Times(c, n);
  }

  /** White space at the ends of a key is dropped: tab, line feed, vertical tab, form feed, carriage
      return, space, U+0085, U+00A0, U+1680, U+2000 to U+200A, U+2028, U+2029, U+202F, U+205F and
      U+3000, and no other character. */
  lemma KeyTrimmed(w: char)
    requires w != 'k'
    ensures NewKey([w] + "k" + [w]) ==
            if w as int in {9, 10, 11, 12, 13, 32, 133, 160, 5760, 8192, 8193, 8194, 8195, 8196, 8197, 8198, 8199, 8200, 8201, 8202,
                            8232, 8233, 8239, 8287, 12288}
            then Success("k") else Success([w] + "k" + [w])
  {
    hide TrimMatches, ByteLen;
    var s := [w] + "k" + [w];
    LenOfThree(w);
    if IsWhitespace(w) {
      assert s == [w] + ("k" + [w]);
      TrimMatchesFramed([w], "k", [w], IsWhitespace);
      assert Trim(s) == "k";
    } else {
      TrimMatchesFixed(s, IsWhitespace);
      assert Trim(s) == s;
    }
  }

  lemma LenOfThree(w: char)
    ensures ByteLen([w] + "k" + [w]) <= 128 && ByteLen("k") == 1
  {
    OneCharLen('k');
    OneCharLen(w);
    ByteLenJoined([w], "k");
    ByteLenJoined([w] + "k", [w]);
  }

  // --- Values ---

  lemma {:induction false} LettersLen(n: nat)
    ensures EscapedLen(Times('x', n)) == n
    decreases n
  {
    if n > 0 {
      assert Times('x', n)[1..] == Times('x', n - 1);
      LettersLen(n - 1);
    }
  }

  /** Only an object is a value, and only up to 65536 bytes of its compact text. */
  lemma ValueLimit(v: Value, n: nat)
    ensures !v.Object? ==> NewValue(v) == Failure(InvalidValue)
    ensures var o := Object(map["a" := String(Times('x', n))]);
            NewValue(o) == if n + 8 <= 65536 then Success(o) else Failure(InvalidValue)
  {
    hide EscapedLen;
    SingletonLen("a", String(Times('x', n)));
    LettersLen(n);
    LetterLen('a');
  }

  // --- The printed text ---

  /** How characters are escaped in a string; all others stand for themselves. */
  lemma EscapesPrinted(c: char)
    ensures Escaped('"') == "\\\"" && Escaped('\\') == "\\\\" && Escaped('\n') == "\\n" && Escaped('\r') == "\\r" && Escaped('\t') == "\\t"
    ensures Escaped(8 as char) == "\\b" && Escaped(12 as char) == "\\f"
    ensures Escaped(0 as char) == "\\u0000" && Escaped(27 as char) == "\\u001b"
    ensures c as int >= 32 && c != '"' && c != '\\' ==> Escaped(c) == [c]
  {
  }

  lemma TextPrinted()
    ensures Print(String("a\nb")) == "\"a\\nb\""
  {
    hide Escaped;
    EscapesPrinted('a');
    EscapesPrinted('b');
    var s := "a\nb";
    assert s[1..] == "\nb" && s[1..][1..] == "b" && s[1..][1..][1..] == "";
    assert EscapedText("b") == "b" by { assert EscapedText("") == ""; }
    assert EscapedText("\nb") == "\\nb";
    assert EscapedText(s) == "a\\nb";
  }

  lemma ItemsPrinted(number: string)
    ensures Print(Array([Null, Number(number)])) == "[null," + number + "]"
    ensures Print(Bool(true)) == "true" && Print(Bool(false)) == "false"
  {
    var v := Array([Null, Number(number)]);
    assert PrintItems(v, 2) == "";
    assert PrintItems(v, 1) == number;
    assert PrintItems(v, 0) == "null," + number;
    assert "[" + ("null," + number) == "[null," + number;
  }

  /** Members are printed in code-point order of their keys. */
  lemma MembersPrinted(x: string, y: string)
    ensures Print(Object(map["b" := Number(y), "a" := Number(x)])) == "{\"a\":" + x + ",\"b\":" + y + "}"
  {
    hide Quoted;
    var v := Object(map["b" := Number(y), "a" := Number(x)]);
    assert v.m.Keys == {"a", "b"};
    FirstOfTwo();
    QuotedLetter('a');
    QuotedLetter('b');
    assert PrintMembers(v, {}) == "";
    assert PrintMembers(v, {"b"}) == "\"b\":" + y;
    assert PrintMembers(v, {"a", "b"}) == "\"a\":" + x + "," + ("\"b\":" + y);
    assert "{" + ("\"a\":" + x + "," + ("\"b\":" + y)) + "}" == "{\"a\":" + x + ",\"b\":" + y + "}";
  }

  lemma FirstOfTwo()
    ensures MinKey({"a", "b"}) == "a" && {"a", "b"} - {"a"} == {"b"}
    ensures MinKey({"b"}) == "b" && {"b"} - {"b"} == {}
  {
    assert StrLe("a", "b") && !StrLe("b", "a");
  }

  lemma QuotedLetter(c: char)
    requires 'a' <= c <= 'z'
    ensures Quoted([c]) == ['"', c, '"']
  {
    assert [c][1..] == "" && EscapedText([c]) == Escaped(c) + EscapedText("");
  }
}
