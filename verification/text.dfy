/** Strings as the service uses them: code-point order, trimming and UTF-8 length. */
module Text {
  import opened Wrappers

  /** Code-point order: the order of `String` keys in a map of the service. */
  predicate StrLe(a: string, b: string) {
    a == [] || (b != [] && (a[0] < b[0] || (a[0] == b[0] && StrLe(a[1..], b[1..]))))
  }

  lemma StrLeReflexive(a: string)
    ensures StrLe(a, a)
  {
  }

  lemma StrLeTotal(a: string, b: string)
    ensures StrLe(a, b) || StrLe(b, a)
  {
  }

  lemma StrLeAntisymmetric(a: string, b: string)
    requires StrLe(a, b) && StrLe(b, a)
    ensures a == b
  {
    if a != [] && b != [] {
      StrLeAntisymmetric(a[1..], b[1..]);
      assert a == [a[0]] + a[1..] && b == [b[0]] + b[1..];
    }
  }

  lemma StrLeTransitive(a: string, b: string, c: string)
    requires StrLe(a, b) && StrLe(b, c)
    ensures StrLe(a, c)
  {
  }

  ghost predicate IsLeast(k: string, keys: set<string>) {
    k in keys && forall j | j in keys :: StrLe(k, j)
  }

  lemma LeastExists(keys: set<string>)
    requires keys != {}
    ensures exists k :: IsLeast(k, keys)
  {
    var x :| x in keys;
    var rest := keys - {x};
    if rest == {} {
      StrLeReflexive(x);
      assert keys == {x};
      assert IsLeast(x, keys);
    } else {
      LeastExists(rest);
      var y :| IsLeast(y, rest);
      StrLeTotal(x, y);
      var z := if StrLe(x, y) then x else y;
      forall j | j in keys ensures StrLe(z, j) {
        if j == x {
          StrLeReflexive(x);
        } else {
          assert StrLe(y, j);
          if z == x { StrLeTransitive(x, y, j); }
        }
      }
      assert IsLeast(z, keys);
    }
  }

  lemma LeastUnique(keys: set<string>)
    ensures forall k, l | IsLeast(k, keys) && IsLeast(l, keys) :: k == l
  {
    forall k, l | IsLeast(k, keys) && IsLeast(l, keys) ensures k == l {
      StrLeAntisymmetric(k, l);
    }
  }

  /** The first key an ordered map yields. */
  function MinKey(keys: set<string>): (k: string)
    requires keys != {}
    ensures IsLeast(k, keys)
  {
    LeastExists(keys);
    LeastUnique(keys);
    assert forall k, l | k in keys && (forall j | j in keys :: StrLe(k, j)) && l in keys && (forall j | j in keys :: StrLe(l, j)) :: IsLeast(k, keys) && IsLeast(l, keys);
    var k :| k in keys && forall j | j in keys :: StrLe(k, j);
    k
  }

  /** Bytes of one character in UTF-8. */
  function Utf8Width(c: char): (n: nat)
    ensures 1 <= n <= 4
  {
    if c as int < 0x80 then 1 else if c as int < 0x800 then 2 else if c as int < 0x10000 then 3 else 4
  }

  /** The length of a string in bytes. */
  function ByteLen(s: string): nat {
    if s == [] then 0 else Utf8Width(s[0]) + ByteLen(s[1..])
  }

  /** The Unicode White_Space property. */
  predicate IsWhitespace(c: char) {
    var n := c as int;
    || 0x9 <= n <= 0xD || n == 0x20 || n == 0x85 || n == 0xA0 || n == 0x1680
    || 0x2000 <= n <= 0x200A || n == 0x2028 || n == 0x2029 || n == 0x202F || n == 0x205F || n == 0x3000
  }

  /** Strip characters satisfying `drop` from the front of `s`. */
  function TrimStart(s: string, drop: char -> bool): (r: string)
    ensures |r| <= |s| && r == s[|s| - |r|..]
    ensures r != [] ==> !drop(r[0])
    ensures forall i | 0 <= i < |s| - |r| :: drop(s[i])
  {
    if s != [] && drop(s[0]) then
      var r := TrimStart(s[1..], drop);
      assert s[1..][|s| - 1 - |r|..] == s[|s| - |r|..];
      assert forall i | 0 < i < |s| - |r| :: s[1..][i - 1] == s[i];
      r
    else s
  }

  /** Strip characters satisfying `drop` from the end of `s`. */
  function TrimEnd(s: string, drop: char -> bool): (r: string)
    ensures |r| <= |s| && r == s[..|r|]
    ensures r != [] ==> !drop(r[|r| - 1])
    ensures forall i | |r| <= i < |s| :: drop(s[i])
  {
    if s != [] && drop(s[|s| - 1]) then TrimEnd(s[..|s| - 1], drop) else s
  }

  /** Strip characters satisfying `drop` from both ends. */
  function TrimMatches(s: string, drop: char -> bool): string {
    TrimEnd(TrimStart(s, drop), drop)
  }

  /** Strip white space from both ends. */
  function Trim(s: string): string {
    TrimMatches(s, IsWhitespace)
  }

  /** A string without droppable ends is left alone, and trimming yields such a string. */
  lemma TrimMatchesFixed(s: string, drop: char -> bool)
    ensures TrimMatches(s, drop) == s <==> s == [] || (!drop(s[0]) && !drop(s[|s| - 1]))
    ensures TrimMatches(TrimMatches(s, drop), drop) == TrimMatches(s, drop)
  {
    var t := TrimStart(s, drop);
    var u := TrimEnd(t, drop);
    if u != [] {
      assert u[0] == t[0];
    }
  }

  /** A character that is not droppable is never trimmed away. */
  lemma KeptByTrim(s: string, drop: char -> bool, i: nat)
    requires i < |s| && !drop(s[i])
    ensures s[i] in TrimMatches(s, drop)
  {
    var t := TrimStart(s, drop);
    var j := i - (|s| - |t|);
    assert t[j] == s[i];
    assert TrimEnd(t, drop)[j] == t[j];
  }

  ghost predicate AllDropped(s: string, drop: char -> bool) {
    forall i | 0 <= i < |s| :: drop(s[i])
  }

  /** Droppable characters at either end of a string that has none at its own ends. */
  lemma TrimMatchesFramed(a: string, s: string, b: string, drop: char -> bool)
    requires s != [] && !drop(s[0]) && !drop(s[|s| - 1]) && AllDropped(a, drop) && AllDropped(b, drop)
    ensures TrimMatches(a + (s + b), drop) == s
  {
    hide TrimStart, TrimEnd;
    FrontTrimmed(a, s + b, drop);
    BackTrimmed(s, b, drop);
  }

  lemma {:induction false} FrontTrimmed(a: string, s: string, drop: char -> bool)
    requires s != [] && !drop(s[0]) && AllDropped(a, drop)
    ensures TrimStart(a + s, drop) == s
  {
    if a == [] {
      assert a + s == s;
    } else {
      assert (a + s)[1..] == a[1..] + s;
      FrontTrimmed(a[1..], s, drop);
    }
  }

  lemma {:induction false} BackTrimmed(s: string, b: string, drop: char -> bool)
    requires s != [] && !drop(s[|s| - 1]) && AllDropped(b, drop)
    ensures TrimEnd(s + b, drop) == s
  {
    if b == [] {
      assert s + b == s;
    } else {
      var n := |b| - 1;
      assert (s + b)[..|s + b| - 1] == s + b[..n];
      BackTrimmed(s, b[..n], drop);
    }
  }

  /** What is trimmed away is droppable. */
  lemma Trimmed(s: string, drop: char -> bool) returns (a: string, b: string)
    ensures s == a + (TrimMatches(s, drop) + b) && AllDropped(a, drop) && AllDropped(b, drop)
  {
    hide TrimStart, TrimEnd, AllDropped;
    a := FrontDropped(s, drop);
    b := EndTrimmed(TrimStart(s, drop), drop);
  }

  lemma FrontDropped(s: string, drop: char -> bool) returns (a: string)
    ensures s == a + TrimStart(s, drop) && AllDropped(a, drop)
  {
    hide AllDropped, TrimStart;
    var k := |s| - |TrimStart(s, drop)|;
    a := s[..k];
    CutAt(s, k);
    StretchDropped(s, 0, k, drop);
  }

  lemma EndTrimmed(t: string, drop: char -> bool) returns (b: string)
    ensures t == TrimEnd(t, drop) + b && AllDropped(b, drop)
  {
    hide AllDropped, TrimEnd;
    var k := |TrimEnd(t, drop)|;
    b := t[k..];
    CutAt(t, k);
    StretchDropped(t, k, |t|, drop);
  }

  lemma CutAt(s: string, k: nat)
    requires k <= |s|
    ensures s == s[..k] + s[k..] && s[0..k] == s[..k] && s[k..|s|] == s[k..]
  {
  }

  lemma StretchDropped(s: string, lo: nat, hi: nat, drop: char -> bool)
    requires lo <= hi <= |s| && forall i | lo <= i < hi :: drop(s[i])
    ensures AllDropped(s[lo..hi], drop)
  {
  }

  // --- Cutting ---

  /** Where `c` first is in `s`; the length of `s` if it is not. */
  function IndexOf(s: string, c: char): (i: nat)
    ensures i <= |s| && (i < |s| ==> s[i] == c) && forall j | 0 <= j < i :: s[j] != c
  {
    if s == [] || s[0] == c then 0 else 1 + IndexOf(s[1..], c)
  }

  /** The part of `s` before the first `c`; all of it if there is none. */
  function UpTo(s: string, c: char): (r: string)
    ensures c !in r && r <= s && (r == s <==> c !in s)
  {
    assert IndexOf(s, c) < |s| ==> s[IndexOf(s, c)] in s;
    s[..IndexOf(s, c)]
  }

  /** The part of `s` before the first `c`, and the part after it. */
  function Cut(s: string, c: char): Option<(string, string)> {
    var i := IndexOf(s, c);
    if i < |s| then Some((s[..i], s[i + 1..])) else None
  }

  /** `s` without `prefix`. */
  function Without(prefix: string, s: string): Option<string> {
    if prefix <= s then Some(s[|prefix|..]) else None
  }

  /** The parts of `s` between the places where `c` is. */
  function Split(s: string, c: char): seq<string>
    decreases |s|
  {
    var i := IndexOf(s, c);
    if i < |s| then [s[..i]] + Split(s[i + 1..], c) else [s]
  }

  lemma IndexOfJoined(a: string, c: char, b: string)
    requires c !in a
    ensures IndexOf(a + ([c] + b), c) == |a|
  {
    var s := a + ([c] + b);
    assert s[|a|] == c;
    assert forall j | 0 <= j < |a| :: s[j] == a[j];
  }

  lemma CutJoined(a: string, c: char, b: string)
    requires c !in a
    ensures Cut(a + ([c] + b), c) == Some((a, b)) && UpTo(a + ([c] + b), c) == a
    ensures Split(a + ([c] + b), c) == [a] + Split(b, c)
  {
    var s := a + ([c] + b);
    IndexOfJoined(a, c, b);
    assert s[..|a|] == a && s[|a| + 1..] == b;
  }

  lemma NothingToSplit(s: string, c: char)
    requires c !in s
    ensures Split(s, c) == [s]
  {
  }

  /** What stands before a text without `c` stands before what is cut. */
  lemma UpToJoined(a: string, b: string, c: char)
    requires c !in a
    ensures UpTo(a + b, c) == a + UpTo(b, c)
  {
    var i := IndexOf(b, c);
    assert forall j | 0 <= j < |a| :: (a + b)[j] == a[j];
    assert forall j | 0 <= j < |b| :: (a + b)[|a| + j] == b[j];
    assert IndexOf(a + b, c) == |a| + i;
    assert (a + b)[..|a| + i] == a + b[..i];
  }

  lemma WithoutJoined(a: string, b: string)
    ensures Without(a, a + b) == Some(b)
  {
    assert a <= a + b && (a + b)[|a|..] == b;
  }
}
