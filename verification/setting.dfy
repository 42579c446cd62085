/** The settings aggregate, its value objects and its errors. */
module SettingModel {
  import opened AuthModel
  import opened Json
  import opened MergePatch
  import opened MergePatchSize
  import opened Text
  import opened Wrappers

  datatype SettingsError =
    | NotFound | InvalidKey | InvalidValue | Conflict | VersionConflict | Forbidden | Unavailable | Internal

  const MAX_KEY_BYTES := 128
  const MAX_VALUE_BYTES := 64 * 1024

  predicate ValidKey(s: string) {
    s != [] && Trim(s) == s && ByteLen(s) <= MAX_KEY_BYTES
  }

  lemma OneCharLen(c: char)
    ensures ByteLen([c]) == Utf8Width(c)
  {
    assert [c][1..] == [];
  }

  /** One character that is no white space is a key. */
  lemma OneCharKey(c: char)
    requires !IsWhitespace(c)
    ensures ValidKey([c])
  {
    hide TrimMatches, ByteLen, IsWhitespace;
    OneCharLen(c);
    TrimMatchesFixed([c], IsWhitespace);
  }

  function SampleKey(): (s: string)
    ensures ValidKey(s)
  {
    OneCharKey('k');
    ['k']
  }

  type SettingKey = s: string | ValidKey(s) witness SampleKey()

  /** A key is the trimmed text, and a key already accepted is accepted as it is. */
  function NewKey(s: string): (r: Result<SettingKey, SettingsError>)
    ensures r.Success? ==> r.value == Trim(s)
    ensures r.Failure? ==> r.error == InvalidKey && !ValidKey(Trim(s))
    ensures r == Success(s) <==> ValidKey(s)
  {
    TrimMatchesFixed(s, IsWhitespace);
    var t := Trim(s);
    if t == [] || ByteLen(t) > MAX_KEY_BYTES then Failure(InvalidKey) else Success(t)
  }

  predicate ValidValue(v: Value) {
    v.Object? && SerializedLen(v) <= MAX_VALUE_BYTES
  }

  type SettingValue = v: Value | ValidValue(v) witness Object(map[])

  function NewValue(v: Value): (r: Result<SettingValue, SettingsError>)
    ensures r == if ValidValue(v) then Success(v) else Failure(InvalidValue)
  {
    if !v.Object? then Failure(InvalidValue)
    else if SerializedLen(v) > MAX_VALUE_BYTES then Failure(InvalidValue)
    else Success(v)
  }

  /** The merge of two values, refused when the result is too long. */
  function MergeValues(v: SettingValue, patch: SettingValue): Result<SettingValue, SettingsError> {
    NewValue(Merge(v, patch))
  }

  /** A patch is refused only for the length of what it produces, which cannot happen when
      base and patch fit together. */
  lemma PatchRefusedOnlyForSize(v: SettingValue, patch: SettingValue)
    ensures MergeValues(v, patch) == Failure(InvalidValue) <==> SerializedLen(Merge(v, patch)) > MAX_VALUE_BYTES
    ensures SerializedLen(v) + SerializedLen(patch) <= MAX_VALUE_BYTES ==> MergeValues(v, patch) == Success(Merge(v, patch))
  {
    MergeSize(v, patch);
  }

  /** The immutable read model of an aggregate; instants are nanoseconds. */
  datatype SettingSnapshot = SettingSnapshot(key: SettingKey, value: SettingValue, ownership: Ownership, version: nat, updatedAt: int)
  {
    /** The aggregate after a whole-value replacement. */
    function Replaced(v: SettingValue, now: int): SettingSnapshot {
      this.(value := v, version := version + 1, updatedAt := now)
    }

    /** The aggregate after a partial merge. */
    function Patched(patch: SettingValue, now: int): Result<SettingSnapshot, SettingsError> {
      match MergeValues(value, patch)
      case Success(v) => Success(Replaced(v, now))
      case Failure(e) => Failure(e)
    }
  }

  /** The aggregate root. */
  class Setting {
    const key: SettingKey
    var value: SettingValue
    const ownership: Ownership
    var version: nat
    var updatedAt: int

    function Snapshot(): SettingSnapshot
      reads this
    {
      SettingSnapshot(key, value, ownership, version, updatedAt)
    }

    constructor New(key: SettingKey, value: SettingValue, ownership: Ownership, now: int)
      ensures Snapshot() == SettingSnapshot(key, value, ownership, 1, now)
    {
      this.key, this.value, this.ownership := key, value, ownership;
      version, updatedAt := 1, now;
    }

    constructor Restore(key: SettingKey, value: SettingValue, ownership: Ownership, version: nat, updatedAt: int)
      ensures Snapshot() == SettingSnapshot(key, value, ownership, if version < 1 then 1 else version, updatedAt)
    {
      this.key, this.value, this.ownership := key, value, ownership;
      this.version := if version < 1 then 1 else version;
      this.updatedAt := updatedAt;
    }

    constructor Clone(s: SettingSnapshot)
      ensures Snapshot() == s
    {
      key, value, ownership, version, updatedAt := s.key, s.value, s.ownership, s.version, s.updatedAt;
    }

    method SetValue(v: SettingValue, now: int)
      modifies this
      ensures Snapshot() == old(Snapshot()).Replaced(v, now)
    {
      value := v;
      version := version + 1;
      updatedAt := now;
    }

    /** A merge that grows too long is refused and leaves the aggregate as it was. */
    method ApplyPartial(patch: SettingValue, now: int) returns (r: Result<(), SettingsError>)
      modifies this
      ensures match old(Snapshot()).Patched(patch, now)
              case Success(s) => r == Success(()) && Snapshot() == s
              case Failure(e) => r == Failure(e) && Snapshot() == old(Snapshot())
    {
      var merged := MergePatch.MergePatch(value, patch);
      var v := NewValue(merged);
      if v.Failure? {
        return Failure(v.error);
      }
      value := v.value;
      version := version + 1;
      updatedAt := now;
      r := Success(());
    }
  }
}
