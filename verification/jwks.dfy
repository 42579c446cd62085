/** The cache of signing keys: the last two sets fetched from the identity provider. */
module Jwks {
  import opened Wrappers

  datatype AuthError = InvalidToken | Unavailable

  /** A key of a set; `usable` is whether a decoding key can be made of it. */
  datatype Jwk = Jwk(kid: Option<string>, material: string, usable: bool)

  type Keys = map<string, Jwk>

  /** The keys of a set by their id. A key without one is dropped, and of two keys with the same
      id the later is kept. */
  function KeysOf(jwks: seq<Jwk>): Keys {
    if jwks == [] then map[]
    else
      var k := jwks[|jwks| - 1];
      var before := KeysOf(jwks[..|jwks| - 1]);
      if k.kid.Some? then before[k.kid.value := k] else before
  }

  lemma {:induction false} LastKeyWins(jwks: seq<Jwk>, kid: string)
    ensures kid in KeysOf(jwks) <==> exists i :: 0 <= i < |jwks| && jwks[i].kid == Some(kid)
    ensures kid in KeysOf(jwks) ==>
              exists i :: 0 <= i < |jwks| && jwks[i] == KeysOf(jwks)[kid] && jwks[i].kid == Some(kid)
                          && forall j | i < j < |jwks| :: jwks[j].kid != Some(kid)
  {
    if jwks != [] {
      var n := |jwks| - 1;
      var front := jwks[..n];
      LastKeyWins(front, kid);
      if jwks[n].kid != Some(kid) && kid in KeysOf(front) {
        var i :| 0 <= i < |front| && front[i] == KeysOf(front)[kid] && front[i].kid == Some(kid)
                 && forall j | i < j < |front| :: front[j].kid != Some(kid);
        assert jwks[i] == front[i];
        assert forall j | i < j < n :: jwks[j] == front[j];
      }
    }
  }

  /** The decoding key for `kid`. */
  function KeyFromMap(keys: Keys, kid: string): Option<Jwk> {
    if kid in keys && keys[kid].usable then Some(keys[kid]) else None
  }

  /** A fetch that gives keys: it succeeded, and some key has an id. */
  predicate Gives(fetch: Option<seq<Jwk>>) {
    fetch.Some? && KeysOf(fetch.value) != map[]
  }

  /** Some key of the fetch has an id. */
  lemma GivesIff(fetch: Option<seq<Jwk>>)
    ensures Gives(fetch) <==> fetch.Some? && exists i :: 0 <= i < |fetch.value| && fetch.value[i].kid.Some?
  {
    if fetch.Some? {
      forall i | 0 <= i < |fetch.value| && fetch.value[i].kid.Some? ensures Gives(fetch) {
        LastKeyWins(fetch.value, fetch.value[i].kid.value);
      }
      if Gives(fetch) {
        var kid :| kid in KeysOf(fetch.value);
        LastKeyWins(fetch.value, kid);
      }
    }
  }

  /** The n-th last of the sets fetched; none if there were fewer. */
  function NthLast(fetched: seq<Keys>, n: nat): Keys {
    if 1 <= n <= |fetched| then fetched[|fetched| - n] else map[]
  }

  class JwksCache {
    var keys: Keys
    var previous: Keys
    ghost var fetched: seq<Keys>

    /** The cache holds the last two sets fetched, each by the ids of its keys. */
    ghost predicate Valid()
      reads this
    {
      && keys == NthLast(fetched, 1) && previous == NthLast(fetched, 2)
      && forall f: Keys, kid | f in fetched && kid in f :: f[kid].kid == Some(kid)
    }

    constructor ()
      ensures Valid() && fetched == []
    {
      keys, previous, fetched := map[], map[], [];
    }

    /** `fetch` is what the identity provider answers, if it does. */
    method Refresh(fetch: Option<seq<Jwk>>) returns (r: Result<(), AuthError>)
      requires Valid()
      modifies this
      ensures Valid()
      ensures r.Success? <==> fetch.Some? && exists i :: 0 <= i < |fetch.value| && fetch.value[i].kid.Some?
      ensures r.Failure? ==> r.error == Unavailable && fetched == old(fetched) && keys == old(keys) && previous == old(previous)
      ensures r.Success? ==> fetched == old(fetched) + [KeysOf(fetch.value)]
      ensures r.Success? ==> Shared(keys, previous) == SharedAfter(Shared(old(keys), old(previous)), [Copy, Swap(KeysOf(fetch.value))])
    {
      GivesIff(fetch);
      if fetch.None? {
        return Failure(Unavailable);
      }
      var next: Keys := map[];
      for i := 0 to |fetch.value|
        invariant next == KeysOf(fetch.value[..i])
      {
        var jwk := fetch.value[i];
        assert fetch.value[..i + 1][..i] == fetch.value[..i];
        if jwk.kid.Some? {
          next := next[jwk.kid.value := jwk];
        }
      }
      assert fetch.value[..|fetch.value|] == fetch.value;
      if next == map[] {
        return Failure(Unavailable);
      }
      AfterTwo(Shared(keys, previous), Copy, Swap(next));
      forall kid | kid in next ensures next[kid].kid == Some(kid) {
        LastKeyWins(fetch.value, kid);
      }
      previous := keys;
      keys := next;
      fetched := fetched + [next];
      r := Success(());
    }

    /** A usable key of the last set fetched is found without asking the provider, and else one
        of the set before. Otherwise the provider is asked once, and its answer is looked at, and
        then the set that was the last one before. */
    method KeyFor(kid: string, fetch: Option<seq<Jwk>>) returns (r: Result<Jwk, AuthError>)
      requires Valid()
      modifies this
      ensures Valid()
      ensures var n := |old(fetched)|;
              var inLast := n >= 1 && kid in old(fetched)[n - 1] && old(fetched)[n - 1][kid].usable;
              var inPrevious := n >= 2 && kid in old(fetched)[n - 2] && old(fetched)[n - 2][kid].usable;
              if inLast then r == Success(old(fetched)[n - 1][kid]) && fetched == old(fetched)
              else if inPrevious then r == Success(old(fetched)[n - 2][kid]) && fetched == old(fetched)
              else if fetch.None? || forall i | 0 <= i < |fetch.value| :: fetch.value[i].kid.None?
              then r == Failure(Unavailable) && fetched == old(fetched)
              else
                && fetched == old(fetched) + [KeysOf(fetch.value)]
                && r == if kid in fetched[n] && fetched[n][kid].usable then Success(fetched[n][kid]) else Failure(InvalidToken)
      ensures r.Success? ==> r.value.usable && r.value.kid == Some(kid)
    {
      var k := KeyFromMap(keys, kid);
      if k.Some? {
        return Success(k.value);
      }
      k := KeyFromMap(previous, kid);
      if k.Some? {
        return Success(k.value);
      }
      var refreshed := Refresh(fetch);
      if refreshed.Failure? {
        return Failure(refreshed.error);
      }
      k := KeyFromMap(keys, kid);
      if k.Some? {
        return Success(k.value);
      }
      k := KeyFromMap(previous, kid);
      r := if k.Some? then Success(k.value) else Failure(InvalidToken);
    }
  }

  // --- Lookups during refreshes ---

  /** The two maps as other threads see them. */
  datatype Shared = Shared(keys: Keys, previous: Keys)

  /** The two writes of a refresh, each under a lock: keep the current set as the previous one,
      then put the new set in its place. */
  datatype Write = Copy | Swap(next: Keys)

  function WrittenTo(s: Shared, w: Write): Shared {
    match w
    case Copy => s.(previous := s.keys)
    case Swap(next) => s.(keys := next)
  }

  /** The maps after writes of any number of refreshes, interleaved in any way. */
  function SharedAfter(s: Shared, writes: seq<Write>): Shared {
    if writes == [] then s else WrittenTo(SharedAfter(s, writes[..|writes| - 1]), writes[|writes| - 1])
  }

  lemma AfterNext(s: Shared, writes: seq<Write>, i: nat)
    requires i < |writes|
    ensures SharedAfter(s, writes[..i + 1]) == WrittenTo(SharedAfter(s, writes[..i]), writes[i])
  {
    assert writes[..i + 1][..i] == writes[..i];
  }

  lemma AfterEnds(s: Shared, writes: seq<Write>)
    ensures SharedAfter(s, writes[..0]) == s && SharedAfter(s, writes[..|writes|]) == SharedAfter(s, writes)
  {
    assert writes[..0] == [] && writes[..|writes|] == writes;
  }

  ghost predicate NoSwap(writes: seq<Write>, lo: nat, hi: nat) {
    forall i | lo <= i < hi && i < |writes| :: writes[i].Copy?
  }

  ghost predicate NoCopy(writes: seq<Write>, lo: nat, hi: nat) {
    forall i | lo <= i < hi && i < |writes| :: writes[i].Swap?
  }

  /** Without a swap the current set stays. */
  lemma {:induction false} KeysStay(s: Shared, writes: seq<Write>, lo: nat, hi: nat)
    requires lo <= hi <= |writes| && NoSwap(writes, lo, hi)
    ensures SharedAfter(s, writes[..hi]).keys == SharedAfter(s, writes[..lo]).keys
    decreases hi
  {
    if lo < hi {
      KeysStay(s, writes, lo, hi - 1);
      AfterNext(s, writes, hi - 1);
    }
  }

  /** Without a copy the previous set stays. */
  lemma {:induction false} PreviousStays(s: Shared, writes: seq<Write>, lo: nat, hi: nat)
    requires lo <= hi <= |writes| && NoCopy(writes, lo, hi)
    ensures SharedAfter(s, writes[..hi]).previous == SharedAfter(s, writes[..lo]).previous
    decreases hi
  {
    if lo < hi {
      PreviousStays(s, writes, lo, hi - 1);
      AfterNext(s, writes, hi - 1);
    }
  }

  /** A set has a usable key with this id. */
  predicate Has(keys: Keys, kid: string) {
    kid in keys && keys[kid].usable
  }

  /** A lookup that begins at `s`, reads the current set after `i` of the writes and the previous
      set after all of them, finds the key without fetching. */
  ghost predicate Hits(s: Shared, writes: seq<Write>, i: nat, kid: string)
    requires i <= |writes|
  {
    || Has(SharedAfter(s, writes[..i]).keys, kid)
    || Has(SharedAfter(s, writes).previous, kid)
  }

  ghost predicate LastCopyAt(writes: seq<Write>, y: nat) {
    y < |writes| && writes[y].Copy? && NoCopy(writes, y + 1, |writes|)
  }

  ghost predicate LastSwapAt(writes: seq<Write>, x: nat, n: nat) {
    x < n <= |writes| && writes[x].Swap? && NoSwap(writes, x + 1, n)
  }

  /** The set last put in place by the first `n` writes, or the one there was before them, has
      the key. */
  ghost predicate CurrentHas(s: Shared, writes: seq<Write>, n: nat, kid: string)
    requires n <= |writes|
  {
    || (NoSwap(writes, 0, n) && Has(s.keys, kid))
    || exists x: nat :: LastSwapAt(writes, x, n) && Has(writes[x].next, kid)
  }

  /** What is current after some of the writes. */
  lemma {:induction false} CurrentIs(s: Shared, writes: seq<Write>, n: nat)
    requires n <= |writes|
    ensures NoSwap(writes, 0, n) ==> SharedAfter(s, writes[..n]).keys == s.keys
    ensures forall x: nat | LastSwapAt(writes, x, n) :: SharedAfter(s, writes[..n]).keys == writes[x].next
  {
    AfterEnds(s, writes);
    if NoSwap(writes, 0, n) {
      KeysStay(s, writes, 0, n);
    }
    forall x: nat | LastSwapAt(writes, x, n) ensures SharedAfter(s, writes[..n]).keys == writes[x].next {
      AfterNext(s, writes, x);
      KeysStay(s, writes, x + 1, n);
    }
  }

  lemma {:induction false} LastSwap(writes: seq<Write>, n: nat, hi: nat) returns (x: nat)
    requires hi <= n <= |writes| && NoSwap(writes, hi, n) && !NoSwap(writes, 0, hi)
    ensures LastSwapAt(writes, x, n)
    decreases hi
  {
    if writes[hi - 1].Swap? {
      x := hi - 1;
    } else {
      x := LastSwap(writes, n, hi - 1);
    }
  }

  lemma {:induction false} LastCopy(writes: seq<Write>, hi: nat) returns (y: nat)
    requires hi <= |writes| && NoCopy(writes, hi, |writes|) && !NoCopy(writes, 0, hi)
    ensures LastCopyAt(writes, y)
    decreases hi
  {
    if writes[hi - 1].Copy? {
      y := hi - 1;
    } else {
      y := LastCopy(writes, hi - 1);
    }
  }

  lemma CurrentHasIff(s: Shared, writes: seq<Write>, n: nat, kid: string)
    requires n <= |writes|
    ensures Has(SharedAfter(s, writes[..n]).keys, kid) <==> CurrentHas(s, writes, n, kid)
  {
    hide SharedAfter, Has;
    CurrentIs(s, writes, n);
    if !NoSwap(writes, 0, n) {
      var x := LastSwap(writes, n, n);
    }
  }

  /** After the last copy, the previous set is what was current at that copy. */
  lemma CopiedSet(s: Shared, writes: seq<Write>, y: nat)
    requires LastCopyAt(writes, y)
    ensures SharedAfter(s, writes).previous == SharedAfter(s, writes[..y]).keys
  {
    AfterEnds(s, writes);
    AfterNext(s, writes, y);
    PreviousStays(s, writes, y + 1, |writes|);
  }

  /** The key was current at the last copy, or nothing was copied and the previous set has it. */
  ghost predicate Kept(s: Shared, writes: seq<Write>, kid: string) {
    || (exists y: nat :: LastCopyAt(writes, y) && CurrentHas(s, writes, y, kid))
    || (NoCopy(writes, 0, |writes|) && Has(s.previous, kid))
  }

  lemma KeptIff(s: Shared, writes: seq<Write>, kid: string)
    ensures Has(SharedAfter(s, writes).previous, kid) <==> Kept(s, writes, kid)
  {
    hide SharedAfter, Has, CurrentHas;
    AfterEnds(s, writes);
    if NoCopy(writes, 0, |writes|) {
      PreviousStays(s, writes, 0, |writes|);
    } else {
      var last := LastCopy(writes, |writes|);
    }
    forall y: nat | LastCopyAt(writes, y)
      ensures Has(SharedAfter(s, writes).previous, kid) <==> CurrentHas(s, writes, y, kid)
    {
      CopiedSet(s, writes, y);
      CurrentHasIff(s, writes, y, kid);
    }
  }

  /** Which lookups hit, for every key and every interleaving of the writes of any number of
      refreshes: the key is in the set that is current at the first read, or in the one that was
      current at the last copy before the second, or nothing was copied and it is in the set
      that was previous at the begin. */
  lemma HitsIff(s: Shared, writes: seq<Write>, i: nat, kid: string)
    requires i <= |writes|
    ensures Hits(s, writes, i, kid) <==> CurrentHas(s, writes, i, kid) || Kept(s, writes, kid)
  {
    hide SharedAfter, Has, CurrentHas, Kept;
    CurrentHasIff(s, writes, i, kid);
    KeptIff(s, writes, kid);
  }

  /** The writes of one refresh that fall between the begin and the end of a lookup: both, the
      first, none, or only the second, when the copy was made just before. */
  ghost predicate OfOneRefresh(s: Shared, writes: seq<Write>) {
    || writes == []
    || writes == [Copy]
    || (|writes| == 2 && writes[0].Copy? && writes[1].Swap?)
    || (|writes| == 1 && writes[0].Swap? && s.previous == s.keys)
  }

  /** With one refresh in flight the lookup always hits, whatever the interleaving. */
  lemma OneRefreshHits(s: Shared, writes: seq<Write>, i: nat, kid: string)
    requires i <= |writes| && kid in s.keys && s.keys[kid].usable && OfOneRefresh(s, writes)
    ensures var first, second := SharedAfter(s, writes[..i]).keys, SharedAfter(s, writes).previous;
            (kid in first && first[kid].usable) || (kid in second && second[kid].usable)
  {
    hide SharedAfter;
    HitsIff(s, writes, i, kid);
    if !NoSwap(writes, 0, i) && !NoCopy(writes, 0, |writes|) {
      assert LastCopyAt(writes, 0) && CurrentHas(s, writes, 0, kid);
    }
  }

  /** Two refreshes that overlap, the first swapping first, lose a generation: what is left as
      the previous set is the oldest of the three, so it is right only if nothing changed. */
  lemma OverlapLosesSet(s: Shared, first: Keys, second: Keys)
    ensures var overlapped := SharedAfter(s, [Copy, Copy, Swap(first), Swap(second)]);
            var serial := SharedAfter(s, [Copy, Swap(first), Copy, Swap(second)]);
            && serial.keys == overlapped.keys == second
            && serial.previous == first && overlapped.previous == s.keys
            && (serial == overlapped <==> first == s.keys)
  {
    AfterFour(s, Copy, Copy, Swap(first), Swap(second));
    AfterFour(s, Copy, Swap(first), Copy, Swap(second));
  }

  lemma AfterTwo(s: Shared, a: Write, b: Write)
    ensures SharedAfter(s, [a, b]) == WrittenTo(WrittenTo(s, a), b)
  {
    assert [a, b][..1] == [a] && [a][..0] == [];
    assert SharedAfter(s, [a]) == WrittenTo(s, a);
  }

  lemma AfterFour(s: Shared, a: Write, b: Write, c: Write, d: Write)
    ensures SharedAfter(s, [a, b, c, d]) == WrittenTo(WrittenTo(WrittenTo(WrittenTo(s, a), b), c), d)
  {
    assert [a, b, c, d][..3] == [a, b, c] && [a, b, c][..2] == [a, b] && [a, b][..1] == [a] && [a][..0] == [];
    assert SharedAfter(s, [a]) == WrittenTo(s, a);
    assert SharedAfter(s, [a, b]) == WrittenTo(WrittenTo(s, a), b);
    assert SharedAfter(s, [a, b, c]) == WrittenTo(WrittenTo(WrittenTo(s, a), b), c);
  }

  /** A lookup that misses a key of the set current at its begin, among two refreshes one after
      the other: the first swaps before its first read, the second copies before its second. */
  lemma MissedLookup(kid: string, key: Jwk, first: Keys)
    requires key.usable && (kid in first ==> !first[kid].usable)
    ensures var s, writes := Shared(map[kid := key], map[]), [Copy, Swap(first), Copy];
            SharedAfter(s, writes[..2]).keys == first == SharedAfter(s, writes).previous
    ensures !Hits(Shared(map[kid := key], map[]), [Copy, Swap(first), Copy], 2, kid)
  {
    var s, writes := Shared(map[kid := key], map[]), [Copy, Swap(first), Copy];
    assert LastSwapAt(writes, 1, 2) && LastCopyAt(writes, 2);
    assert writes[1].Swap? && writes[2].Copy?;
    HitsIff(s, writes, 2, kid);
    CurrentIs(s, writes, 2);
    CopiedSet(s, writes, 2);
  }
}
