/** Laws of the settings merge patch: exactly when it is RFC 7396, and what it keeps. */
module MergePatchLaws {
  import opened Json
  import opened MergePatch
  import opened Samples
  import opened SettingModel
  import opened Wrappers

  // --- Paths ---

  /** The last step of a path, taken on what the rest of the path reaches. */
  lemma {:induction false} LookupLast(v: Value, path: seq<string>, key: string)
    ensures Lookup(v, path + [key]) ==
            match Lookup(v, path)
            case Some(Object(m)) => if key in m then Some(m[key]) else None
            case _ => None
  {
    if path == [] {
      assert (path + [key])[1..] == [];
    } else {
      assert (path + [key])[1..] == path[1..] + [key];
      if v.Object? && path[0] in v.m {
        LookupLast(v.m[path[0]], path[1..], key);
      }
    }
  }

  /** Being null-free is having no null at the end of a non-empty path. */
  lemma {:induction false} NullFreeByPaths(v: Value)
    ensures NullFree(v) <==> forall parent, key :: Lookup(v, parent + [key]) != Some(Null)
    decreases v
  {
    if NullFree(v) {
      forall parent, key ensures Lookup(v, parent + [key]) != Some(Null) {
        NullFreeHasNoNull(v, parent, key);
      }
    } else {
      var k :| k in v.m && !(!v.m[k].Null? && NullFree(v.m[k]));
      if v.m[k].Null? {
        assert ([] + [k])[0] == k && ([] + [k])[1..] == [];
        assert Lookup(v, [] + [k]) == Some(Null);
      } else {
        NullFreeByPaths(v.m[k]);
        var parent, key :| Lookup(v.m[k], parent + [key]) == Some(Null);
        assert ([k] + parent) + [key] == [k] + (parent + [key]);
        assert Lookup(v, ([k] + parent) + [key]) == Some(Null);
      }
    }
  }

  lemma {:induction false} NullFreeHasNoNull(v: Value, parent: seq<string>, key: string)
    requires NullFree(v)
    ensures Lookup(v, parent + [key]) != Some(Null)
    decreases parent
  {
    if parent == [] {
      assert (parent + [key])[1..] == [];
    } else {
      assert (parent + [key])[1..] == parent[1..] + [key];
      if v.Object? && parent[0] in v.m {
        NullFreeHasNoNull(v.m[parent[0]], parent[1..], key);
      }
    }
  }

  /** A stray null of a member is a stray null of the whole, one step deeper. */
  lemma StrayNullDeeper(base: Value, patch: Value, k: string, parent: seq<string>, key: string)
    requires base.Object? && patch.Object? && k in patch.m
    ensures StrayNull(base, patch, [k] + parent, key) <==>
            && Lookup(patch.m[k], parent + [key]) == Some(Null)
            && !(k in base.m && Lookup(base.m[k], parent).Some? && Lookup(base.m[k], parent).value.Object?)
  {
    assert ([k] + parent) + [key] == [k] + (parent + [key]);
    assert ([k] + parent)[1..] == parent;
  }

  /** The condition on paths and the condition on structure are the same. */
  lemma {:induction false} NullsLandIsAgree(base: Value, patch: Value)
    ensures NullsLand(base, patch) <==> Agree(base, patch)
    decreases patch
  {
    if !patch.Object? {
    } else if !base.Object? {
      NullFreeByPaths(patch);
      forall parent, key
        ensures StrayNull(base, patch, parent, key) <==> Lookup(patch, parent + [key]) == Some(Null)
      {
      }
    } else if NullsLand(base, patch) {
      forall k | k in patch.m && !patch.m[k].Null?
        ensures if k in base.m then Agree(base.m[k], patch.m[k]) else NullFree(patch.m[k])
      {
        if k in base.m {
          forall parent, key ensures !StrayNull(base.m[k], patch.m[k], parent, key) {
            StrayNullDeeper(base, patch, k, parent, key);
            assert !StrayNull(base, patch, [k] + parent, key);
          }
          NullsLandIsAgree(base.m[k], patch.m[k]);
        } else {
          NullFreeByPaths(patch.m[k]);
          forall parent, key ensures Lookup(patch.m[k], parent + [key]) != Some(Null) {
            StrayNullDeeper(base, patch, k, parent, key);
            assert !StrayNull(base, patch, [k] + parent, key);
          }
        }
      }
    } else {
      var parent, key :| StrayNull(base, patch, parent, key);
      assert parent != [];
      var k, rest := parent[0], parent[1..];
      assert parent == [k] + rest;
      assert (parent + [key])[0] == k;
      assert Lookup(patch, parent + [key]).Some?;
      assert k in patch.m;
      StrayNullDeeper(base, patch, k, rest, key);
      assert |rest + [key]| > 0;
      assert !patch.m[k].Null?;
      if k in base.m {
        assert StrayNull(base.m[k], patch.m[k], rest, key);
        NullsLandIsAgree(base.m[k], patch.m[k]);
      } else {
        NullFreeByPaths(patch.m[k]);
      }
    }
  }

  // --- Against RFC 7396 ---

  /** Where the base has no object, RFC 7396 strips the patch's nulls; the service does not. */
  lemma {:induction false} RfcOnNoObject(target: Option<Value>, patch: Value)
    requires target.Some? ==> !target.value.Object?
    ensures Rfc(target, patch) == patch <==> NullFree(patch)
    decreases patch
  {
    if patch.Object? {
      forall k | k in patch.m ensures Rfc(None, patch.m[k]) == patch.m[k] <==> NullFree(patch.m[k]) {
        RfcOnNoObject(None, patch.m[k]);
      }
      var r := Rfc(target, patch);
      if NullFree(patch) {
        assert r.m == patch.m;
      } else {
        var k :| k in patch.m && !(!patch.m[k].Null? && NullFree(patch.m[k]));
        assert k in r.m ==> r.m[k] != patch.m[k];
      }
    }
  }

  /** Merging a patch into itself strips its nulls as RFC 7396 would. */
  lemma {:induction false} MergeSelfIsRfc(target: Option<Value>, patch: Value)
    requires target.Some? ==> !target.value.Object?
    ensures Merge(patch, patch) == Rfc(target, patch)
    decreases patch
  {
    if patch.Object? {
      forall k | k in patch.m ensures Merge(patch.m[k], patch.m[k]) == Rfc(None, patch.m[k]) {
        MergeSelfIsRfc(None, patch.m[k]);
      }
      assert Merge(patch, patch).m == Rfc(target, patch).m;
    }
  }

  /** The service's merge is RFC 7396 exactly when every null of the patch lands in an
      object of the base. */
  lemma {:induction false} MergeIsRfcIff(base: Value, patch: Value)
    ensures Merge(base, patch) == Rfc(Some(base), patch) <==> NullsLand(base, patch)
  {
    NullsLandIsAgree(base, patch);
    MergeIsRfcIffAgree(base, patch);
  }

  lemma {:induction false} MergeIsRfcIffAgree(base: Value, patch: Value)
    ensures Merge(base, patch) == Rfc(Some(base), patch) <==> Agree(base, patch)
    decreases patch
  {
    if !(base.Object? && patch.Object?) {
      RfcOnNoObject(if base.Object? then None else Some(base), patch);
    } else {
      var m, r := Merge(base, patch).m, Rfc(Some(base), patch).m;
      forall k | k in patch.m && !patch.m[k].Null?
        ensures m[k] == r[k] <==> if k in base.m then Agree(base.m[k], patch.m[k]) else NullFree(patch.m[k])
      {
        if k in base.m {
          MergeIsRfcIffAgree(base.m[k], patch.m[k]);
        } else {
          RfcOnNoObject(None, patch.m[k]);
        }
      }
      if Agree(base, patch) {
        assert m == r;
      } else {
        var k :| k in patch.m && !patch.m[k].Null? &&
          !(if k in base.m then Agree(base.m[k], patch.m[k]) else NullFree(patch.m[k]));
        assert m[k] != r[k];
      }
    }
  }

  /** Two values the service stores on which it is not: an empty object, and a patch that
      deletes inside an object which is not there. The service keeps the null. */
  lemma RfcDiffers()
    ensures var base: SettingValue, patch: SettingValue := Empty(), NullWithin();
            && Merge(base, patch) == patch
            && Rfc(Some(base), patch) == Object(map[['a'] := Object(map[])])
            && Merge(base, patch) != Rfc(Some(base), patch)
  {
    hide Merge, Rfc;
    var inner := Object(map[['b'] := Null]);
    NewMember(['a'], inner);
    OnlyNull(['b']);
    assert ['b'] in inner.m;
    assert Object(map[]) != inner;
    assert map[['a'] := Object(map[])][['a']] != map[['a'] := inner][['a']];
  }

  /** A member the base does not have: the service copies it, RFC 7396 merges it into nothing. */
  lemma NewMember(k: string, v: Value)
    requires !v.Null?
    ensures Merge(Object(map[]), Object(map[k := v])) == Object(map[k := v])
    ensures Rfc(Some(Object(map[])), Object(map[k := v])) == Object(map[k := Rfc(None, v)])
  {
    assert Merge(Object(map[]), Object(map[k := v])).m == map[k := v];
    assert Rfc(Some(Object(map[])), Object(map[k := v])).m == map[k := Rfc(None, v)];
  }

  lemma OnlyNull(k: string)
    ensures Rfc(None, Object(map[k := Null])) == Object(map[])
  {
    assert Rfc(None, Object(map[k := Null])).m == map[];
  }

  /** Applying the service's merge a second time always gives the RFC 7396 result. */
  lemma {:induction false} MergeTwiceIsRfc(base: Value, patch: Value)
    ensures Merge(Merge(base, patch), patch) == Rfc(Some(base), patch)
    decreases patch
  {
    if !(base.Object? && patch.Object?) {
      MergeSelfIsRfc(if base.Object? then None else Some(base), patch);
    } else {
      forall k | k in patch.m && !patch.m[k].Null?
        ensures Merge(Merge(base, patch).m[k], patch.m[k])
             == Rfc(if k in base.m then Some(base.m[k]) else None, patch.m[k])
      {
        if k in base.m {
          MergeTwiceIsRfc(base.m[k], patch.m[k]);
        } else {
          MergeSelfIsRfc(None, patch.m[k]);
        }
      }
      assert Merge(Merge(base, patch), patch).m == Rfc(Some(base), patch).m;
    }
  }

  /** A patch is idempotent on a base exactly when its nulls land. */
  lemma {:induction false} MergeIdempotentIff(base: Value, patch: Value)
    ensures Merge(Merge(base, patch), patch) == Merge(base, patch) <==> NullsLand(base, patch)
  {
    MergeTwiceIsRfc(base, patch);
    MergeIsRfcIff(base, patch);
  }

  /** A null-free base stays null-free exactly when the patch's nulls land. */
  lemma {:induction false} NullFreeKeptIff(base: Value, patch: Value)
    requires NullFree(base)
    ensures NullFree(Merge(base, patch)) <==> NullsLand(base, patch)
  {
    NullsLandIsAgree(base, patch);
    NullFreeKeptIffAgree(base, patch);
  }

  lemma {:induction false} NullFreeKeptIffAgree(base: Value, patch: Value)
    requires NullFree(base)
    ensures NullFree(Merge(base, patch)) <==> Agree(base, patch)
    decreases patch
  {
    if base.Object? && patch.Object? {
      var m := Merge(base, patch).m;
      forall k | k in patch.m && !patch.m[k].Null?
        ensures !m[k].Null? && (NullFree(m[k]) <==> if k in base.m then Agree(base.m[k], patch.m[k]) else NullFree(patch.m[k]))
      {
        if k in base.m {
          NullFreeKeptIffAgree(base.m[k], patch.m[k]);
        }
      }
      assert forall k | k in m && k !in patch.m :: m[k] == base.m[k];
    }
  }

  // --- Frame ---

  /** The patch reaches an object on `path` that does not mention the next key. */
  ghost predicate Unmentioned(patch: Value, path: seq<string>)
    decreases path
  {
    && path != []
    && patch.Object?
    && (path[0] !in patch.m || Unmentioned(patch.m[path[0]], path[1..]))
  }

  /** What a patch does not mention is the same before and after, at every depth. */
  lemma {:induction false} UnmentionedUntouched(base: Value, patch: Value, path: seq<string>)
    requires Unmentioned(patch, path)
    ensures Lookup(Merge(base, patch), path) == Lookup(base, path)
    decreases path
  {
    var k := path[0];
    if k in patch.m {
      if base.Object? && k in base.m {
        UnmentionedUntouched(base.m[k], patch.m[k], path[1..]);
      } else {
        UnmentionedAbsent(patch.m[k], path[1..]);
      }
    }
  }

  lemma {:induction false} UnmentionedAbsent(patch: Value, path: seq<string>)
    requires Unmentioned(patch, path)
    ensures Lookup(patch, path) == None
    decreases path
  {
    if path[0] in patch.m {
      UnmentionedAbsent(patch.m[path[0]], path[1..]);
    }
  }

  // --- Which objects a patch can produce ---

  /** `goal` can be made out of `base`: a null member of the goal is already a null member
      of the base, at every depth at which both have an object. */
  ghost predicate Producible(base: Value, goal: Value)
    decreases goal
  {
    base.Object? && goal.Object? ==>
      forall k | k in goal.m ::
        if goal.m[k].Null? then k in base.m && base.m[k].Null?
        else k in base.m ==> Producible(base.m[k], goal.m[k])
  }

  /** The smallest patch from `base` to `goal`. */
  function Diff(base: Value, goal: Value): Value
    decreases goal
  {
    if base.Object? && goal.Object? then
      Object(map k | k in base.m.Keys + goal.m.Keys && !(k in base.m && k in goal.m && base.m[k] == goal.m[k]) ::
        if k !in goal.m then Null
        else if k in base.m then Diff(base.m[k], goal.m[k])
        else goal.m[k])
    else goal
  }

  lemma {:induction false} DiffProduces(base: Value, goal: Value)
    requires Producible(base, goal)
    ensures Merge(base, Diff(base, goal)) == goal
    ensures Diff(base, goal).Null? ==> goal.Null?
    decreases goal
  {
    if base.Object? && goal.Object? {
      var d, r := Diff(base, goal).m, Merge(base, Diff(base, goal)).m;
      forall k | k in goal.m && k in base.m && base.m[k] != goal.m[k]
        ensures Merge(base.m[k], d[k]) == goal.m[k] && !d[k].Null?
      {
        DiffProduces(base.m[k], goal.m[k]);
      }
      forall k ensures k in r <==> k in goal.m {
      }
      forall k | k in goal.m ensures r[k] == goal.m[k] {
      }
      assert r == goal.m;
    }
  }

  lemma {:induction false} MergeReaches(base: Value, patch: Value)
    ensures Producible(base, Merge(base, patch))
    decreases patch
  {
    if base.Object? && patch.Object? {
      var r := Merge(base, patch);
      forall k | k in r.m
        ensures if r.m[k].Null? then k in base.m && base.m[k].Null? else k in base.m ==> Producible(base.m[k], r.m[k])
      {
        if k in patch.m && k in base.m {
          MergeReaches(base.m[k], patch.m[k]);
        } else if k in base.m {
          ProducibleSelf(base.m[k]);
        }
      }
    }
  }

  lemma {:induction false} ProducibleSelf(v: Value)
    ensures Producible(v, v)
    decreases v
  {
    if v.Object? {
      forall k | k in v.m ensures Producible(v.m[k], v.m[k]) {
        ProducibleSelf(v.m[k]);
      }
    }
  }

  /** Some patch takes `base` to `goal` exactly when the goal is producible. */
  lemma {:induction false} PatchExistsIff(base: Value, goal: Value)
    ensures (exists patch :: Merge(base, patch) == goal) <==> Producible(base, goal)
  {
    if Producible(base, goal) {
      DiffProduces(base, goal);
    } else {
      forall patch ensures Merge(base, patch) != goal {
        MergeReaches(base, patch);
      }
    }
  }

  /** Merge patches are complete on null-free goals. */
  lemma {:induction false} NullFreeGoalsProducible(base: Value, goal: Value)
    requires NullFree(goal)
    ensures Merge(base, Diff(base, goal)) == goal
  {
    NullFreeProducible(base, goal);
    DiffProduces(base, goal);
  }

  lemma {:induction false} NullFreeProducible(base: Value, goal: Value)
    requires NullFree(goal)
    ensures Producible(base, goal)
    decreases goal
  {
    if base.Object? && goal.Object? {
      forall k | k in goal.m && k in base.m ensures Producible(base.m[k], goal.m[k]) {
        NullFreeProducible(base.m[k], goal.m[k]);
      }
    }
  }

  // --- Examples of appendix A of RFC 7396 ---

  /** Members replaced, added, removed and kept. */
  lemma RfcMembers(b: Value, c: Value)
    requires !c.Object? && !c.Null?
    ensures Rfc(Some(Object(map["a" := b])), Object(map["a" := c])) == Object(map["a" := c])
    ensures Rfc(Some(Object(map["a" := b])), Object(map["b" := c])) == Object(map["a" := b, "b" := c])
    ensures Rfc(Some(Object(map["a" := b])), Object(map["a" := Null])) == Object(map[])
    ensures Rfc(Some(Object(map["a" := b, "b" := c])), Object(map["a" := Null])) == Object(map["b" := c])
  {
    assert "a" != "b";
    var t := Object(map["a" := b]);
    assert Rfc(Some(t), Object(map["a" := c])).m == map["a" := c];
    assert Rfc(Some(t), Object(map["b" := c])).m == map["a" := b, "b" := c];
    assert Rfc(Some(t), Object(map["a" := Null])).m == map[];
    assert Rfc(Some(Object(map["a" := b, "b" := c])), Object(map["a" := Null])).m == map["b" := c];
  }

  /** Members of members. */
  lemma RfcNested(c: Value, d: Value)
    requires !d.Object? && !d.Null?
    ensures Rfc(Some(Object(map["a" := Object(map["b" := c])])), Object(map["a" := Object(map["b" := d, "c" := Null])])) ==
            Object(map["a" := Object(map["b" := d])])
  {
    assert "b" != "c";
    var base, inner := Object(map["b" := c]), Object(map["b" := d, "c" := Null]);
    assert Rfc(Some(base), inner).m == map["b" := d];
    assert Rfc(Some(Object(map["a" := base])), Object(map["a" := inner])).m == map["a" := Object(map["b" := d])];
  }

  /** What is no object is replaced, and nulls where there is no object are stripped. */
  lemma RfcStrips(c: Value, d: Value)
    requires !d.Object? && !d.Null? && !c.Object?
    ensures Rfc(Some(c), d) == d && Rfc(Some(c), Null) == Null
    ensures Rfc(Some(c), Object(map["a" := d, "c" := Null])) == Object(map["a" := d])
    ensures Rfc(Some(Object(map[])), Object(map["a" := Object(map["b" := Null])])) == Object(map["a" := Object(map[])])
  {
    assert "a" != "c";
    assert Rfc(Some(c), Object(map["a" := d, "c" := Null])).m == map["a" := d];
    assert Rfc(None, Object(map["b" := Null])).m == map[];
    assert Rfc(Some(Object(map[])), Object(map["a" := Object(map["b" := Null])])).m == map["a" := Object(map[])];
  }
}
