/** The merge never serialises longer than its base and its patch together. */
module MergePatchSize {
  import opened Json
  import opened MergePatch
  import opened Text

  /** Total weight of a finite map of weights. */
  ghost function Total(w: map<string, nat>): nat {
    if w == map[] then 0
    else
      var k := MinKey(w.Keys);
      w[k] + Total(w - {k})
  }

  lemma {:induction false} TotalWithout(w: map<string, nat>, x: string)
    requires x in w
    ensures Total(w) == w[x] + Total(w - {x})
    decreases |w|
  {
    var k := MinKey(w.Keys);
    if k != x {
      TotalWithout(w - {k}, x);
      TotalWithout(w - {x}, k);
      assert w - {k} - {x} == w - {x} - {k};
    }
  }

  /** A map dominated key by key by the sum of two others has at most their total. */
  lemma {:induction false} TotalDominated(w: map<string, nat>, u: map<string, nat>, v: map<string, nat>)
    requires forall k | k in w :: k in u || k in v
    requires forall k | k in w :: w[k] <= (if k in u then u[k] else 0) + (if k in v then v[k] else 0)
    ensures Total(w) <= Total(u) + Total(v)
    decreases |w|
  {
    if w != map[] {
      var k := MinKey(w.Keys);
      if k in u { TotalWithout(u, k); } else { assert u - {k} == u; }
      if k in v { TotalWithout(v, k); } else { assert v - {k} == v; }
      TotalDominated(w - {k}, u - {k}, v - {k});
    }
  }

  /** Bytes a member takes, its comma included. */
  ghost function MemberWeight(k: string, v: Value): nat {
    QuotedLen(k) + 1 + SerializedLen(v) + 1
  }

  ghost function Weights(m: map<string, Value>): map<string, nat> {
    map k | k in m :: MemberWeight(k, m[k])
  }

  /** The serialised members are the weights of all of them less one comma. */
  lemma {:induction false} MembersLenIsTotal(v: Value, keys: set<string>)
    requires v.Object? && keys <= v.m.Keys
    ensures MembersLen(v, keys) + (if keys == {} then 0 else 1) == Total(map k | k in keys :: MemberWeight(k, v.m[k]))
    decreases |keys|
  {
    var w := map k | k in keys :: MemberWeight(k, v.m[k]);
    assert w.Keys == keys;
    if keys != {} {
      var k := MinKey(keys);
      var rest := keys - {k};
      MembersLenIsTotal(v, rest);
      assert w - {k} == map j | j in rest :: MemberWeight(j, v.m[j]);
    }
  }

  lemma ObjectLen(m: map<string, Value>)
    ensures SerializedLen(Object(m)) == 2 + Total(Weights(m)) - (if m == map[] then 0 else 1)
  {
    MembersLenIsTotal(Object(m), m.Keys);
    assert Weights(m) == map k | k in m.Keys :: MemberWeight(k, Object(m).m[k]);
  }

  lemma {:induction false} MergeSize(base: Value, patch: Value)
    ensures SerializedLen(Merge(base, patch)) <= SerializedLen(base) + SerializedLen(patch)
    decreases patch
  {
    if base.Object? && patch.Object? {
      var m := Merge(base, patch).m;
      forall k | k in m && k in base.m && k in patch.m
        ensures SerializedLen(m[k]) <= SerializedLen(base.m[k]) + SerializedLen(patch.m[k])
      {
        MergeSize(base.m[k], patch.m[k]);
      }
      TotalDominated(Weights(m), Weights(base.m), Weights(patch.m));
      ObjectLen(m);
      ObjectLen(base.m);
      ObjectLen(patch.m);
    }
  }
}
