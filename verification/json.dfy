/** JSON values as the service holds them, and the length of their compact text. */
module Json {
  import opened Text
  import opened Wrappers

  /** Object members are an ordered map by key, so a map is the whole content;
      a number is represented by its printed text. */
  datatype Value =
    | Null
    | Bool(b: bool)
    | Number(text: string)
    | String(s: string)
    | Array(items: seq<Value>)
    | Object(m: map<string, Value>)

  /** Bytes one character takes inside a quoted string. */
  function EscapedWidth(c: char): nat {
    if c == '"' || c == '\\' || c == '\n' || c == '\r' || c == '\t' || c as int == 0x8 || c as int == 0xC then 2
    else if c as int < 0x20 then 6
    else Utf8Width(c)
  }

  function EscapedLen(s: string): nat {
    if s == [] then 0 else EscapedWidth(s[0]) + EscapedLen(s[1..])
  }

  function QuotedLen(s: string): nat {
    EscapedLen(s) + 2
  }

  /** Length in bytes of the compact serialisation of `v`. */
  function SerializedLen(v: Value): nat
    decreases v, 2, 0
  {
    match v
    case Null => 4
    case Bool(b) => if b then 4 else 5
    case Number(text) => ByteLen(text)
    case String(s) => QuotedLen(s)
    case Array(items) => 2 + ItemsLen(v, 0)
    case Object(m) => 2 + MembersLen(v, m.Keys)
  }

  /** Items from index `i` on, separated by commas. */
  function ItemsLen(v: Value, i: nat): nat
    requires v.Array? && i <= |v.items|
    decreases v, 1, |v.items| - i
  {
    if i == |v.items| then 0
    else SerializedLen(v.items[i]) + (if i + 1 < |v.items| then 1 else 0) + ItemsLen(v, i + 1)
  }

  /** The members named by `keys` in key order, `"key":value`, separated by commas. */
  function MembersLen(v: Value, keys: set<string>): nat
    requires v.Object? && keys <= v.m.Keys
    decreases v, 1, |keys|
  {
    if keys == {} then 0
    else
      var k := MinKey(keys);
      var rest := keys - {k};
      QuotedLen(k) + 1 + SerializedLen(v.m[k]) + (if rest != {} then 1 else 0) + MembersLen(v, rest)
  }

  /** The member reached from `v` by following the keys of `path` through objects. */
  function Lookup(v: Value, path: seq<string>): Option<Value>
    decreases path
  {
    if path == [] then Some(v)
    else if v.Object? && path[0] in v.m then Lookup(v.m[path[0]], path[1..])
    else None
  }

  /** No object member, at any object-nesting depth, is null (array items are opaque). */
  ghost predicate NullFree(v: Value) {
    v.Object? ==> forall k | k in v.m :: !v.m[k].Null? && NullFree(v.m[k])
  }
}
