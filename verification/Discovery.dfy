/** The merge of what the discovery sources list: first come, first kept, in the order of the sources. */
module DiscoveryMerge {
  import opened Common

  datatype Provider = Provider(id: string, trust: real)

  datatype ProviderResult<P> = ProviderResult(proxies: seq<P>, fetchedLines: nat, rejected: nat, duplicates: nat)

  /** A listed proxy, with the number of the source that lists it and its dedupe key. */
  datatype Listed<P, K> = Listed(source: nat, proxy: P, key: K)

  ghost function Tagged<P, K>(source: nat, proxies: seq<P>, key: P -> K): (all: seq<Listed<P, K>>)
    ensures |all| == |proxies|
  {
    seq(|proxies|, i requires 0 <= i < |proxies| => Listed(source, proxies[i], key(proxies[i])))
  }

  /** Everything listed, in source order. */
  ghost function AllListed<P, K>(results: seq<Option<ProviderResult<P>>>, key: P -> K): seq<Listed<P, K>>
    decreases |results|
  {
    if results == [] then []
    else
      var n := |results| - 1;
      AllListed(results[..n], key) + if results[n].Some? then Tagged(n, results[n].value.proxies, key) else []
  }

  predicate HasKey<P, K(==)>(entries: seq<Listed<P, K>>, key: K) { exists i :: 0 <= i < |entries| && entries[i].key == key }

  /** The first entry with each key, in order. */
  function Firsts<P, K(==)>(all: seq<Listed<P, K>>): seq<Listed<P, K>> {
    if all == [] then []
    else
      var n := |all| - 1;
      var before := Firsts(all[..n]);
      if HasKey(before, all[n].key) then before else before + [all[n]]
  }

  /** The cap is looked at only after an entry was taken, so a cap below one still lets one through. */
  function Kept<P, K(==)>(all: seq<Listed<P, K>>, cap: int): seq<Listed<P, K>> { Firsts(all)[..Min(|Firsts(all)|, Max(1, cap))] }

  // ------------------------------------------------------------------ what being kept means

  lemma {:induction false} SameKeys<P, K>(all: seq<Listed<P, K>>, key: K)
    ensures HasKey(Firsts(all), key) <==> HasKey(all, key)
    decreases |all|
  {
    if all != [] {
      var n := |all| - 1;
      var before, firsts := Firsts(all[..n]), Firsts(all);
      SameKeys(all[..n], key);
      if i :| 0 <= i < |all[..n]| && all[..n][i].key == key {
        assert all[i].key == key;
      }
      if i :| 0 <= i < |all| && all[i].key == key {
        assert i < n ==> all[..n][i].key == key;
      }
      if i :| 0 <= i < |before| && before[i].key == key {
        assert firsts[i].key == key;
      }
      if firsts != before {
        assert firsts[|before|] == all[n];
      }
    }
  }

  /** The entry is listed, and is the first with its key. */
  ghost predicate IsFirst<P, K>(all: seq<Listed<P, K>>, e: Listed<P, K>) {
    exists i: nat :: i < |all| && all[i] == e && !HasKey(all[..i], e.key)
  }

  ghost predicate AreFirst<P, K>(all: seq<Listed<P, K>>, entries: seq<Listed<P, K>>) {
    forall k | 0 <= k < |entries| :: IsFirst(all, entries[k])
  }

  ghost predicate DistinctKeys<P, K>(entries: seq<Listed<P, K>>) {
    forall i, j | 0 <= i < j < |entries| :: entries[i].key != entries[j].key
  }

  lemma StillFirst<P, K>(all: seq<Listed<P, K>>, more: Listed<P, K>, e: Listed<P, K>)
    requires IsFirst(all, e)
    ensures IsFirst(all + [more], e)
  {
    var i: nat :| i < |all| && all[i] == e && !HasKey(all[..i], e.key);
    var longer := all + [more];
    assert longer[..i] == all[..i] && longer[i] == e;
  }

  lemma NewIsFirst<P, K>(all: seq<Listed<P, K>>, e: Listed<P, K>)
    requires !HasKey(all, e.key)
    ensures IsFirst(all + [e], e)
  {
    var longer := all + [e];
    assert longer[..|all|] == all && longer[|all|] == e;
  }

  lemma DistinctMore<P, K>(entries: seq<Listed<P, K>>, e: Listed<P, K>)
    requires DistinctKeys(entries) && !HasKey(entries, e.key)
    ensures DistinctKeys(entries + [e])
  {
  }

  lemma {:induction false} FirstsAreFirst<P, K>(all: seq<Listed<P, K>>)
    ensures AreFirst(all, Firsts(all)) && DistinctKeys(Firsts(all))
    decreases |all|
  {
    if all != [] {
      hide IsFirst, DistinctKeys, HasKey;
      var n := |all| - 1;
      var shorter, e := all[..n], all[n];
      assert shorter + [e] == all;
      FirstsAreFirst(shorter);
      SameKeys(shorter, e.key);
      forall k | 0 <= k < |Firsts(shorter)| ensures IsFirst(all, Firsts(shorter)[k]) {
        StillFirst(shorter, e, Firsts(shorter)[k]);
      }
      if !HasKey(shorter, e.key) {
        NewIsFirst(shorter, e);
        DistinctMore(Firsts(shorter), e);
      }
    }
  }

  lemma BeginningIsDistinct<P, K>(entries: seq<Listed<P, K>>, n: nat)
    requires DistinctKeys(entries) && n <= |entries|
    ensures DistinctKeys(entries[..n])
  {
  }

  /**
   * Candidates have distinct keys, each comes from the first source that lists its key, and no key is missing unless
   * the cap was reached; they stay within the cap exactly when that is at least one, or nothing is listed at cap zero.
   */
  lemma KeptAreFirst<P, K>(all: seq<Listed<P, K>>, cap: int)
    ensures var kept := Kept(all, cap);
            && DistinctKeys(kept) && AreFirst(all, kept) && |kept| <= Max(1, cap)
            && (|kept| < Max(1, cap) ==> forall i | 0 <= i < |all| :: HasKey(kept, all[i].key))
            && (|kept| <= cap <==> cap >= 1 || (cap == 0 && all == []))
  {
    hide IsFirst, DistinctKeys, Firsts;
    FirstsAreFirst(all);
    var kept := Kept(all, cap);
    BeginningIsDistinct(Firsts(all), |kept|);
    assert |kept| == |Firsts(all)| ==> kept == Firsts(all);
    forall i | 0 <= i < |all| ensures HasKey(Firsts(all), all[i].key) {
      SameKeys(all, all[i].key);
    }
    NoneWithoutEntries(all);
  }

  lemma NoneWithoutEntries<P, K>(all: seq<Listed<P, K>>)
    ensures Firsts(all) == [] <==> all == []
  {
    if all != [] {
      SameKeys(all, all[0].key);
    }
  }

  // ------------------------------------------------------------------ the merge loop

  lemma OneMore<P, K>(all: seq<Listed<P, K>>, e: Listed<P, K>)
    ensures Firsts(all + [e]) == if HasKey(Firsts(all), e.key) then Firsts(all) else Firsts(all) + [e]
  {
    assert (all + [e])[..|all|] == all;
  }

  ghost function Proxies<P, K>(entries: seq<Listed<P, K>>): (r: seq<P>)
    ensures |r| == |entries| && forall i | 0 <= i < |r| :: r[i] == entries[i].proxy
  {
    seq(|entries|, i requires 0 <= i < |entries| => entries[i].proxy)
  }

  /** The keys seen so far, and what each is attributed to. */
  ghost predicate Attributed<P, K(!new)>(kept: seq<Listed<P, K>>, providers: seq<Provider>, seen: set<K>, sources: map<K, string>, trusts: map<K, real>) {
    && (forall k: K :: k in seen <==> HasKey(kept, k))
    && sources.Keys == seen && trusts.Keys == seen
    && forall i | 0 <= i < |kept| :: kept[i].source < |providers| && kept[i].key in sources && kept[i].key in trusts
         && sources[kept[i].key] == providers[kept[i].source].id && trusts[kept[i].key] == providers[kept[i].source].trust
  }

  lemma AttributeOne<P, K(!new)>(kept: seq<Listed<P, K>>, providers: seq<Provider>, seen: set<K>, sources: map<K, string>,
                           trusts: map<K, real>, e: Listed<P, K>)
    requires Attributed(kept, providers, seen, sources, trusts) && e.key !in seen && e.source < |providers|
    ensures Attributed(kept + [e], providers, seen + {e.key}, sources[e.key := providers[e.source].id], trusts[e.key := providers[e.source].trust])
  {
    var more := kept + [e];
    forall k: K ensures k in seen + {e.key} <==> HasKey(more, k) {
      if i :| 0 <= i < |kept| && kept[i].key == k {
        assert more[i].key == k;
      }
      assert more[|kept|].key == e.key;
    }
    forall i | 0 <= i < |kept| ensures kept[i].key != e.key {
      assert HasKey(kept, kept[i].key);
    }
  }

  ghost function Lines<P>(r: Option<ProviderResult<P>>): int { if r.Some? then r.value.fetchedLines else 0 }
  ghost function Rejects<P>(r: Option<ProviderResult<P>>): int { if r.Some? then r.value.rejected else 0 }
  ghost function Repeats<P>(r: Option<ProviderResult<P>>): int { if r.Some? then r.value.duplicates else 0 }

  /** Totals over all sources. */
  ghost function Total<P>(results: seq<Option<ProviderResult<P>>>, f: Option<ProviderResult<P>> -> int): int {
    if results == [] then 0 else Total(results[..|results| - 1], f) + f(results[|results| - 1])
  }

  /** The state of the loop after some entries. */
  ghost predicate MergedSoFar<P, K>(all: seq<Listed<P, K>>, cap: int, candidates: seq<P>, capped: bool) {
    candidates == Proxies(Kept(all, cap)) && (capped <==> |Firsts(all)| >= Max(1, cap))
  }

  lemma NothingMerged<P, K(!new)>(cap: int, providers: seq<Provider>)
    ensures MergedSoFar<P, K>([], cap, [], false) && Attributed<P, K>(Kept([], cap), providers, {}, map[], map[])
  {
  }

  /** One entry of one source: taken, or counted as a duplicate. */
  lemma MergeOne<P, K>(all: seq<Listed<P, K>>, e: Listed<P, K>, cap: int, candidates: seq<P>, capped: bool)
    requires MergedSoFar(all, cap, candidates, capped)
    ensures capped ==> Kept(all + [e], cap) == Kept(all, cap) && MergedSoFar(all + [e], cap, candidates, true)
    ensures !capped && HasKey(Kept(all, cap), e.key)
            ==> Kept(all + [e], cap) == Kept(all, cap) && MergedSoFar(all + [e], cap, candidates, false)
    ensures !capped && !HasKey(Kept(all, cap), e.key)
            ==> Kept(all + [e], cap) == Kept(all, cap) + [e]
                && MergedSoFar(all + [e], cap, candidates + [e.proxy], |candidates| + 1 >= cap)
  {
    OneMore(all, e);
    if !capped {
      assert Kept(all, cap) == Firsts(all);
      if !HasKey(Firsts(all), e.key) {
        assert Proxies(Firsts(all) + [e]) == candidates + [e.proxy];
      }
    }
  }

  method Merge<P, K(==,!new)>(providers: seq<Provider>, results: seq<Option<ProviderResult<P>>>, cap: int, key: P -> K)
    returns (candidates: seq<P>, sources: map<K, string>, trusts: map<K, real>, discovered: int, rejected: int, duplicates: int)
    requires |results| == |providers|
    ensures var all := AllListed(results, key);
            && candidates == Proxies(Kept(all, cap))
            && (exists seen: set<K> :: Attributed(Kept(all, cap), providers, seen, sources, trusts))
            && duplicates == Total(results, (r: Option<ProviderResult<P>>) => Repeats(r)) + |all| - |candidates|
    ensures discovered == Total(results, (r: Option<ProviderResult<P>>) => Lines(r))
    ensures rejected == Total(results, (r: Option<ProviderResult<P>>) => Rejects(r))
  {
    hide Kept, Firsts, HasKey, Proxies;
    NothingMerged<P, K>(cap, providers);
    var seen: set<K> := {};
    candidates, sources, trusts := [], map[], map[];
    discovered, rejected, duplicates := 0, 0, 0;
    var capped := false;
    ghost var all: seq<Listed<P, K>> := [];
    for index := 0 to |providers|
      invariant all == AllListed(results[..index], key)
      invariant MergedSoFar(all, cap, candidates, capped)
      invariant Attributed(Kept(all, cap), providers, seen, sources, trusts)
      invariant discovered == Total(results[..index], (r: Option<ProviderResult<P>>) => Lines(r))
      invariant rejected == Total(results[..index], (r: Option<ProviderResult<P>>) => Rejects(r))
      invariant duplicates == Total(results[..index], (r: Option<ProviderResult<P>>) => Repeats(r)) + |all| - |candidates|
    {
      assert results[..index + 1][..index] == results[..index];
      if results[index].Some? {
        var result := results[index].value;
        discovered := discovered + result.fetchedLines;
        rejected := rejected + result.rejected;
        duplicates := duplicates + result.duplicates;
        ghost var before, tagged := all, Tagged(index, result.proxies, key);
        for i := 0 to |result.proxies|
          invariant all == before + tagged[..i]
          invariant MergedSoFar(all, cap, candidates, capped)
          invariant Attributed(Kept(all, cap), providers, seen, sources, trusts)
          invariant duplicates == Total(results[..index + 1], (r: Option<ProviderResult<P>>) => Repeats(r)) + |all| - |candidates|
        {
          var proxy := result.proxies[i];
          var k := key(proxy);
          ghost var e := Listed(index, proxy, k);
          assert tagged[..i + 1] == tagged[..i] + [e];
          MergeOne(all, e, cap, candidates, capped);
          if capped || k in seen {
            duplicates := duplicates + 1;
          } else {
            AttributeOne(Kept(all, cap), providers, seen, sources, trusts, e);
            seen := seen + {k};
            candidates := candidates + [proxy];
            sources := sources[k := providers[index].id];
            trusts := trusts[k := providers[index].trust];
            if |candidates| >= cap {
              capped := true;
            }
          }
          all := all + [e];
        }
        assert tagged[..|tagged|] == tagged;
      }
    }
    assert results[..|results|] == results;
  }
}

/** A discovery run: fetch every source, then merge. */
module DiscoveryService {
  import opened Common
  import opened ConcurrentMap
  import opened DiscoveryMerge

  /** What each source lists, when that does not depend on the moment; sources that failed or were not asked list nothing. */
  ghost function WhatIsListed<P>(providers: seq<Provider>, fetch: (Provider, nat, nat) -> Settled<ProviderResult<P>>): (r: seq<Option<ProviderResult<P>>>)
    ensures |r| == |providers|
    ensures forall i: nat | i < |r| :: match fetch(providers[i], i, 0) case Done(list) => r[i] == Some(list) case _ => r[i] == None
  {
    seq(|providers|, i requires 0 <= i < |providers| =>
      if fetch(providers[i], i, 0).Done? then Some(fetch(providers[i], i, 0).value) else None)
  }

  /** Fetches in any order; when what a source lists does not depend on the moment, neither does the outcome. */
  method Run<P, K(==,!new)>(providers: seq<Provider>, concurrency: int, fetch: (Provider, nat, nat) -> Settled<ProviderResult<P>>,
                       abortsAt: Option<nat>, cap: int, key: P -> K)
    returns (candidates: seq<P>, sources: map<K, string>, trusts: map<K, real>, discovered: int, rejected: int, duplicates: int)
    ensures abortsAt.None? && (forall i: nat, t: nat | i < |providers| :: fetch(providers[i], i, t) == fetch(providers[i], i, 0))
            ==> var listed := WhatIsListed(providers, fetch);
                var kept := Kept(AllListed(listed, key), cap);
                && candidates == Proxies(kept) && (exists seen: set<K> :: Attributed(kept, providers, seen, sources, trusts))
                && discovered == Total(listed, (r: Option<ProviderResult<P>>) => Lines(r))
                && rejected == Total(listed, (r: Option<ProviderResult<P>>) => Rejects(r))
                && duplicates == Total(listed, (r: Option<ProviderResult<P>>) => Repeats(r))
                                 + |AllListed(listed, key)| - |candidates|
  {
    ghost var started, claims, peak, crew;
    var slots;
    slots, started, claims, peak, crew := MapWithConcurrency(providers, concurrency, fetch, abortsAt);
    var results := seq(|slots|, i requires 0 <= i < |slots| => if slots[i].Done? then Some(slots[i].value) else None);
    candidates, sources, trusts, discovered, rejected, duplicates := Merge(providers, results, cap, key);
    if abortsAt.None? && forall i: nat, t: nat | i < |providers| :: fetch(providers[i], i, t) == fetch(providers[i], i, 0) {
      forall i: nat | i < |providers| ensures results[i] == WhatIsListed(providers, fetch)[i] {
        assert started[i] == i;
        assert FromItem(providers, fetch, started, i, slots[i]);
      }
      assert results == WhatIsListed(providers, fetch);
    }
  }
}
