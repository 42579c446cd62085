/** The JSON merge patch of the settings aggregate, and how it relates to RFC 7396. */
module MergePatch {
  import opened Json
  import opened Wrappers

  /** What the service computes, independently of the order it visits members in. */
  function Merge(base: Value, patch: Value): Value
    decreases patch
  {
    if base.Object? && patch.Object? then
      Object(map k | k in base.m.Keys + patch.m.Keys && !(k in patch.m && patch.m[k].Null?) ::
        if k !in patch.m then base.m[k]
        else if k in base.m then Merge(base.m[k], patch.m[k])
        else patch.m[k])
    else patch
  }

  /** `out` is the base with every member of the patch merged in but those of `todo`. */
  ghost predicate Halfway(base: map<string, Value>, patch: map<string, Value>, todo: set<string>, out: map<string, Value>) {
    && todo <= patch.Keys
    && (forall k :: k in out <==> if k in patch && k !in todo then !patch[k].Null? else k in base)
    && (forall k | k in out && (k in todo || k !in patch) :: out[k] == base[k])
    && (forall k | k in out && k in patch && k !in todo ::
          out[k] == if k in base then Merge(base[k], patch[k]) else patch[k])
  }

  lemma HalfwayStep(base: map<string, Value>, patch: map<string, Value>, todo: set<string>, out: map<string, Value>, k: string)
    requires Halfway(base, patch, todo, out) && k in todo
    ensures k in out <==> k in base
    ensures k in base ==> out[k] == base[k]
    ensures Halfway(base, patch, todo - {k},
                    if patch[k].Null? then out - {k}
                    else out[k := if k in base then Merge(base[k], patch[k]) else patch[k]])
  {
  }

  lemma HalfwayDone(base: Value, patch: Value, out: map<string, Value>)
    requires base.Object? && patch.Object? && Halfway(base.m, patch.m, {}, out)
    ensures Object(out) == Merge(base, patch)
  {
    assert out == Merge(base, patch).m;
  }

  /** The merge as the service runs it: a copy of the base edited member by member.
      The members may be visited in any order. */
  method MergePatch(base: Value, patch: Value) returns (merged: Value)
    ensures merged == Merge(base, patch)
    decreases patch
  {
    if base.Object? && patch.Object? {
      var out := base.m;
      var todo := patch.m.Keys;
      while todo != {}
        invariant Halfway(base.m, patch.m, todo, out)
        decreases |todo|
      {
        var k :| k in todo;
        var pv := patch.m[k];
        HalfwayStep(base.m, patch.m, todo, out, k);
        if pv.Null? {
          out := out - {k};
        } else {
          var inner;
          if k in out {
            inner := MergePatch(out[k], pv);
          } else {
            inner := pv;
          }
          out := out[k := inner];
        }
        todo := todo - {k};
      }
      merged := Object(out);
      HalfwayDone(base, patch, out);
    } else {
      merged := patch;
    }
  }

  // --- RFC 7396 ---

  /** MergePatch of section 2 of RFC 7396; `target == None` is an undefined member. */
  ghost function Rfc(target: Option<Value>, patch: Value): Value
    decreases patch
  {
    if patch.Object? then
      var t := if target.Some? && target.value.Object? then target.value.m else map[];
      Object(map k | k in t.Keys + patch.m.Keys && !(k in patch.m && patch.m[k].Null?) ::
        if k !in patch.m then t[k]
        else Rfc(if k in t then Some(t[k]) else None, patch.m[k]))
    else patch
  }

  /** A null member of the patch whose parent is not an object in the base. */
  ghost predicate StrayNull(base: Value, patch: Value, parent: seq<string>, key: string) {
    && Lookup(patch, parent + [key]) == Some(Null)
    && !(Lookup(base, parent).Some? && Lookup(base, parent).value.Object?)
  }

  /** Every null member of the patch deletes from an object the base really has. */
  ghost predicate NullsLand(base: Value, patch: Value) {
    forall parent, key :: !StrayNull(base, patch, parent, key)
  }

  /** The same condition, following the structure of the patch. */
  ghost predicate Agree(base: Value, patch: Value)
    decreases patch
  {
    patch.Object? ==>
      if base.Object? then
        forall k | k in patch.m && !patch.m[k].Null? ::
          if k in base.m then Agree(base.m[k], patch.m[k]) else NullFree(patch.m[k])
      else NullFree(patch)
  }
}
