/** Values small enough to reason about, for the inputs at which a property fails. */
module Samples {
  import opened AuthModel
  import opened Json
  import opened MergePatch
  import opened SettingModel
  import opened Text
  import opened Wrappers

  lemma SingletonLen(k: string, v: Value)
    ensures SerializedLen(Object(map[k := v])) == QuotedLen(k) + SerializedLen(v) + 3
  {
    var o := Object(map[k := v]);
    assert o.m.Keys == {k};
    assert MinKey(o.m.Keys) == k;
    assert o.m.Keys - {k} == {};
    assert MembersLen(o, {}) == 0;
  }

  lemma LetterLen(c: char)
    requires 'a' <= c <= 'z'
    ensures QuotedLen([c]) == 3
  {
    assert [c][1..] == [] && EscapedLen([c]) == EscapedWidth(c) + EscapedLen([]);
  }

  /** `{}` */
  function Empty(): (v: SettingValue)
    ensures v == Object(map[])
  {
    Object(map[])
  }

  /** `{"b":true}` */
  function Flag(): (v: SettingValue)
    ensures v == Object(map[['b'] := Bool(true)])
  {
    hide QuotedLen;
    SingletonLen(['b'], Bool(true));
    LetterLen('b');
    Object(map[['b'] := Bool(true)])
  }

  /** `{"a":{"b":null}}` */
  function NullWithin(): (v: SettingValue)
    ensures v == Object(map[['a'] := Object(map[['b'] := Null])])
  {
    hide QuotedLen;
    SingletonLen(['b'], Null);
    SingletonLen(['a'], Object(map[['b'] := Null]));
    LetterLen('a');
    LetterLen('b');
    Object(map[['a'] := Object(map[['b'] := Null])])
  }

  /** The empty patch keeps a value, so that it merges two different ones differently. */
  lemma EmptyKeeps(v: SettingValue)
    ensures MergeValues(v, Empty()) == Success(v)
  {
    assert Merge(v, Empty()).m == v.m;
  }

  lemma FlagIsNotEmpty()
    ensures Flag() != Empty()
  {
    assert ['b'] in Flag().m;
  }

  function SampleAuthority(): Authority {
    Authority("t", "u", User)
  }
}
