/** The bounded caches of the GraphQL encoder (crates/database/src/convert.rs): JSON text by length, shared
  lists and objects by count. The order in which a hash map lists its keys is left open. */
module CachePrune {
  /** Cached JSON texts; of a text only its length matters here. */
  type Size<!K> = K -> nat

  datatype JsonbPolicy = JsonbPolicy(maxEntries: nat, targetEntries: nat, maxBytes: nat, targetBytes: nat, maxEntryBytes: nat) {
    predicate ShouldPrune(entries: nat, bytes: nat) { entries > maxEntries || bytes > maxBytes }

    function TargetEntries(): nat { Least(targetEntries, maxEntries) }

    function TargetBytes(): nat { Least(targetBytes, maxBytes) }

    predicate ShouldCache(bytes: nat) { bytes <= Least(maxEntryBytes, TargetBytes()) }
  }

  const DEFAULT_JSONB: JsonbPolicy := JsonbPolicy(8_192, 6_144, 4 * 1024 * 1024, 3 * 1024 * 1024, 64 * 1024)

  function Least(a: nat, b: nat): nat { if a < b then a else b }

  function SaturatingSub(a: nat, b: nat): nat { if a < b then 0 else a - b }

  // ----- Total lengths -------------------------------------------------------------------------

  ghost function TotalLength<K(!new)>(size: Size<K>, keys: set<K>): nat {
    if keys == {} then 0
    else
      var key :| key in keys;
      size(key) + TotalLength(size, keys - {key})
  }

  lemma {:induction false} TotalWithout<K(!new)>(size: Size<K>, keys: set<K>, key: K)
    requires key in keys
    ensures TotalLength(size, keys) == size(key) + TotalLength(size, keys - {key})
  {
    var other :| other in keys && TotalLength(size, keys) == size(other) + TotalLength(size, keys - {other});
    if other != key {
      TotalWithout(size, keys - {other}, key);
      TotalWithout(size, keys - {key}, other);
      assert keys - {other} - {key} == keys - {key} - {other};
    }
  }

  // ----- The JSON cache ------------------------------------------------------------------------

  predicate LongestFirst<K>(size: Size<K>, keys: seq<K>) { forall i, j :: 0 <= i < j < |keys| ==> size(keys[i]) >= size(keys[j]) }

  predicate Distinct<K(==)>(keys: seq<K>) { forall i, j :: 0 <= i < j < |keys| ==> keys[i] != keys[j] }

  lemma LongestExists<K(!new)>(size: Size<K>, keys: set<K>)
    requires keys != {}
    ensures exists key :: key in keys && forall other :: other in keys ==> size(other) <= size(key)
  {
    var key :| key in keys;
    if keys == {key} {
      assert forall other :: other in keys ==> other == key;
    } else {
      var rest := keys - {key};
      assert rest != {};
      LongestExists(size, rest);
      var longest :| longest in rest && forall other :: other in rest ==> size(other) <= size(longest);
      var best := if size(key) >= size(longest) then key else longest;
      assert best in keys && forall other :: other in keys ==> size(other) <= size(best);
    }
  }

  /** The keys in an order of falling length; keys of one length come in any order. */
  method SortedByLength<K(==,!new)>(size: Size<K>, keys: set<K>) returns (candidates: seq<K>)
    ensures LongestFirst(size, candidates) && Distinct(candidates)
    ensures forall key :: key in candidates <==> key in keys
  {
    candidates := [];
    var rest := keys;
    while rest != {}
      invariant rest <= keys
      invariant forall key :: key in candidates <==> key in keys && key !in rest
      invariant LongestFirst(size, candidates) && Distinct(candidates)
      invariant forall i, other :: 0 <= i < |candidates| && other in rest ==> size(candidates[i]) >= size(other)
      decreases rest
    {
      LongestExists(size, rest);
      var key :| key in rest && forall other :: other in rest ==> size(other) <= size(key);
      assert key !in candidates;
      candidates := candidates + [key];
      rest := rest - {key};
    }
  }

  /** The keys left when the first `n` candidates are gone. */
  function Left<K(==)>(keys: set<K>, candidates: seq<K>, n: nat): set<K>
    requires n <= |candidates|
  {
    if n == 0 then keys else Left(keys, candidates, n - 1) - {candidates[n - 1]}
  }

  lemma {:induction false} LeftMembers<K>(keys: set<K>, candidates: seq<K>, n: nat, key: K)
    requires n <= |candidates|
    ensures key in Left(keys, candidates, n) <==> key in keys && forall i :: 0 <= i < n ==> candidates[i] != key
  {
    if n > 0 {
      LeftMembers(keys, candidates, n - 1, key);
    }
  }

  lemma StillThere<K>(keys: set<K>, candidates: seq<K>, n: nat)
    requires n < |candidates| && Distinct(candidates) && forall key :: key in candidates ==> key in keys
    ensures candidates[n] in Left(keys, candidates, n)
  {
    LeftMembers(keys, candidates, n, candidates[n]);
    assert candidates[n] in candidates;
  }

  lemma {:induction false} LeftPrefix<K>(keys: set<K>, selected: seq<K>, candidates: seq<K>, n: nat)
    requires selected <= candidates && n <= |selected|
    ensures Left(keys, selected, n) == Left(keys, candidates, n)
  {
    if n > 0 {
      LeftPrefix(keys, selected, candidates, n - 1);
    }
  }

  ghost predicate KeepsValues<K, J>(before: map<K, J>, after: map<K, J>) {
    forall key :: key in after ==> key in before && after[key] == before[key]
  }

  /** Neither target is exceeded, nor a bound that lies below its target. */
  predicate Fits(policy: JsonbPolicy, entries: nat, bytes: nat) {
    && entries <= policy.targetEntries && entries <= policy.maxEntries
    && bytes <= policy.targetBytes && bytes <= policy.maxBytes
  }

  predicate Exceeds(policy: JsonbPolicy, entries: nat, bytes: nat) { policy.maxEntries < entries || policy.maxBytes < bytes }

  /** A text is worth caching if the cache could hold it after pruning. */
  predicate WorthCaching(policy: JsonbPolicy, bytes: nat) {
    bytes <= policy.maxEntryBytes && bytes <= policy.targetBytes && bytes <= policy.maxBytes
  }

  /** The last of the first `n` candidates still had to go. */
  ghost predicate NoneTooMany<K(!new)>(size: Size<K>, keys: set<K>, candidates: seq<K>, n: nat, policy: JsonbPolicy)
    requires n <= |candidates|
  {
    n > 0 ==> !Fits(policy, |Left(keys, candidates, n - 1)|, TotalLength(size, Left(keys, candidates, n - 1)))
  }

  lemma OneLess<K(!new)>(size: Size<K>, keys: set<K>, candidates: seq<K>, n: nat)
    requires n < |candidates| && Distinct(candidates) && forall key :: key in candidates <==> key in keys
    ensures var left, next := Left(keys, candidates, n), Left(keys, candidates, n + 1);
      candidates[n] in left && |next| == |left| - 1 && TotalLength(size, left) == size(candidates[n]) + TotalLength(size, next)
  {
    LeftMembers(keys, candidates, n, candidates[n]);
    assert candidates[n] in candidates;
    TotalWithout(size, Left(keys, candidates, n), candidates[n]);
  }

  lemma NoneLeft<K(!new)>(keys: set<K>, candidates: seq<K>)
    requires forall key :: key in candidates <==> key in keys
    ensures Left(keys, candidates, |candidates|) == {}
  {
    forall key ensures key !in Left(keys, candidates, |candidates|) {
      LeftMembers(keys, candidates, |candidates|, key);
    }
  }

  /** How many of the candidates have to go. */
  method SelectKeys<K(==,!new)>(size: Size<K>, candidates: seq<K>, len: nat, bytes: nat, policy: JsonbPolicy, ghost keys: set<K>)
    returns (selected: seq<K>)
    requires Distinct(candidates) && (forall key :: key in candidates <==> key in keys)
    requires len == |keys| && bytes == TotalLength(size, keys)
    ensures selected <= candidates && NoneTooMany(size, keys, candidates, |selected|, policy)
    ensures Fits(policy, |Left(keys, candidates, |selected|)|, TotalLength(size, Left(keys, candidates, |selected|)))
  {
    var projectedLen: nat, projectedBytes: nat := len, bytes;
    selected := [];
    for i := 0 to |candidates|
      invariant selected == candidates[..i]
      invariant Projected(size, keys, candidates, i, projectedLen, projectedBytes)
      invariant NoneTooMany(size, keys, candidates, i, policy)
    {
      if projectedLen <= policy.TargetEntries() && projectedBytes <= policy.TargetBytes() {
        return;
      }
      ProjectNext(size, keys, candidates, i, projectedLen, projectedBytes, policy);
      TakeNext(candidates, i);
      projectedLen := SaturatingSub(projectedLen, 1);
      projectedBytes := SaturatingSub(projectedBytes, size(candidates[i]));
      selected := selected + [candidates[i]];
    }
    NoneLeft(keys, candidates);
  }

  lemma TakeNext<K>(candidates: seq<K>, i: nat)
    requires i < |candidates|
    ensures candidates[..i + 1] == candidates[..i] + [candidates[i]]
  {}

  ghost predicate Projected<K(!new)>(size: Size<K>, keys: set<K>, candidates: seq<K>, n: nat, len: nat, bytes: nat) {
    n <= |candidates| && len == |Left(keys, candidates, n)| && bytes == TotalLength(size, Left(keys, candidates, n))
  }

  lemma ProjectNext<K(!new)>(size: Size<K>, keys: set<K>, candidates: seq<K>, n: nat, len: nat, bytes: nat, policy: JsonbPolicy)
    requires n < |candidates| && Distinct(candidates) && forall key :: key in candidates <==> key in keys
    requires Projected(size, keys, candidates, n, len, bytes) && !Fits(policy, len, bytes)
    ensures Projected(size, keys, candidates, n + 1, SaturatingSub(len, 1), SaturatingSub(bytes, size(candidates[n])))
    ensures NoneTooMany(size, keys, candidates, n + 1, policy)
  {
    OneLess(size, keys, candidates, n);
  }

  /** What pruning leaves of the keys: within the targets, no longer key than any that went, and none
      gone that could have stayed. */
  ghost predicate Pruned<K(!new)>(size: Size<K>, before: set<K>, after: set<K>, policy: JsonbPolicy) {
    && after <= before
    && Fits(policy, |after|, TotalLength(size, after))
    && (forall gone, kept :: gone in before - after && kept in after ==> size(kept) <= size(gone))
    && (after != before ==> NeededLast(size, before - after, after, policy))
  }

  ghost predicate NeededLast<K(!new)>(size: Size<K>, gone: set<K>, after: set<K>, policy: JsonbPolicy) {
    exists last :: last in gone && !Fits(policy, |after| + 1, TotalLength(size, after) + size(last))
  }

  lemma LongerGone<K(!new)>(size: Size<K>, keys: set<K>, candidates: seq<K>, n: nat, gone: K, kept: K)
    requires LongestFirst(size, candidates) && n <= |candidates| && kept in candidates
    requires gone in keys && gone !in Left(keys, candidates, n) && kept in Left(keys, candidates, n)
    ensures size(kept) <= size(gone)
  {
    LeftMembers(keys, candidates, n, gone);
    LeftMembers(keys, candidates, n, kept);
    var i :| 0 <= i < n && candidates[i] == gone;
    var j :| 0 <= j < |candidates| && candidates[j] == kept;
  }

  lemma SelectionPrunes<K(!new)>(size: Size<K>, keys: set<K>, candidates: seq<K>, n: nat, policy: JsonbPolicy)
    requires LongestFirst(size, candidates) && Distinct(candidates) && n <= |candidates|
    requires forall key :: key in candidates <==> key in keys
    requires NoneTooMany(size, keys, candidates, n, policy)
    requires Fits(policy, |Left(keys, candidates, n)|, TotalLength(size, Left(keys, candidates, n)))
    ensures Pruned(size, keys, Left(keys, candidates, n), policy)
  {
    var left := Left(keys, candidates, n);
    forall key | key in left ensures key in keys {
      LeftMembers(keys, candidates, n, key);
    }
    forall gone, kept | gone in keys - left && kept in left ensures size(kept) <= size(gone) {
      LongerGone(size, keys, candidates, n, gone, kept);
    }
    if n > 0 {
      OneLess(size, keys, candidates, n - 1);
      LeftMembers(keys, candidates, n - 1, candidates[n - 1]);
      assert candidates[n - 1] in keys - left;
    }
  }

  class EncodeCache<!K(==,!new), J> {
    const size: Size<K>
    var jsonb: map<K, J>
    var jsonbBytes: nat
    var objects: set<nat>
    var lists: set<nat>
    var fieldKeys: map<string, J>

    constructor (size: Size<K>)
      ensures this.size == size && jsonb == map[] && jsonbBytes == 0 && objects == {} && lists == {} && fieldKeys == map[]
    {
      this.size := size;
      jsonb, jsonbBytes, objects, lists, fieldKeys := map[], 0, {}, {}, map[];
    }

    /** The byte counter is the total length of the cached keys. */
    ghost predicate Accounted()
      reads this
    {
      jsonbBytes == TotalLength(size, jsonb.Keys)
    }

    /** Prunes to the targets, longest keys first and none too many. */
    method PruneJsonb(policy: JsonbPolicy)
      requires Accounted()
      modifies this`jsonb, this`jsonbBytes
      ensures Accounted()
      ensures !Exceeds(policy, |old(jsonb)|, old(jsonbBytes)) ==> jsonb == old(jsonb)
      ensures Exceeds(policy, |old(jsonb)|, old(jsonbBytes)) ==> Pruned(size, old(jsonb.Keys), jsonb.Keys, policy)
      ensures KeepsValues(old(jsonb), jsonb)
    {
      if !policy.ShouldPrune(|jsonb|, jsonbBytes) {
        return;
      }
      ghost var keys := jsonb.Keys;
      assert |jsonb| == |keys|;
      var candidates := SortedByLength(size, jsonb.Keys);
      var selected := SelectKeys(size, candidates, |jsonb|, jsonbBytes, policy, keys);
      SelectionPrunes(size, keys, candidates, |selected|, policy);
      LeftPrefix(keys, selected, candidates, |selected|);
      RemoveKeys(selected);
    }

    method RemoveKeys(selected: seq<K>)
      requires Accounted() && Distinct(selected) && forall key :: key in selected ==> key in jsonb
      modifies this`jsonb, this`jsonbBytes
      ensures Accounted() && jsonb.Keys == Left(old(jsonb.Keys), selected, |selected|)
      ensures KeepsValues(old(jsonb), jsonb)
    {
      for i := 0 to |selected|
        invariant Accounted() && jsonb.Keys == Left(old(jsonb.Keys), selected, i)
        invariant KeepsValues(old(jsonb), jsonb)
      {
        StillThere(old(jsonb.Keys), selected, i);
        RemoveKey(selected[i]);
      }
    }

    method RemoveKey(key: K)
      requires Accounted() && key in jsonb
      modifies this`jsonb, this`jsonbBytes
      ensures Accounted() && jsonb == old(jsonb) - {key}
    {
      TotalWithout(size, jsonb.Keys, key);
      assert (jsonb - {key}).Keys == jsonb.Keys - {key};
      if key in jsonb {
        jsonb := jsonb - {key};
        jsonbBytes := SaturatingSub(jsonbBytes, size(key));
      }
    }

    /** Within the bounds that trigger pruning. */
    ghost predicate WithinBounds(policy: JsonbPolicy)
      reads this
    {
      Accounted() && !Exceeds(policy, |jsonb|, jsonbBytes)
    }

    ghost predicate Coherent(parse: K -> J)
      reads this
    {
      forall key :: key in jsonb ==> jsonb[key] == parse(key)
    }

    /** The parsed JSON text, from the cache if it is there. The cache stays within its bounds. */
    method JsonbToJs(json: K, parse: K -> J, policy: JsonbPolicy) returns (value: J)
      requires WithinBounds(policy) && Coherent(parse)
      modifies this`jsonb, this`jsonbBytes
      ensures value == parse(json)
      ensures WithinBounds(policy) && Coherent(parse)
      ensures json in old(jsonb) || !WorthCaching(policy, size(json)) ==> jsonb == old(jsonb)
      ensures json !in old(jsonb) && WorthCaching(policy, size(json)) ==>
                if Exceeds(policy, |old(jsonb)| + 1, old(jsonbBytes) + size(json))
                then Pruned(size, old(jsonb.Keys) + {json}, jsonb.Keys, policy)
                else jsonb == old(jsonb)[json := value]
    {
      if json in jsonb {
        return jsonb[json];
      }
      value := parse(json);
      if policy.ShouldCache(size(json)) {
        ghost var keys := jsonb.Keys;
        jsonbBytes := jsonbBytes + size(json);
        jsonb := jsonb[json := value];
        TotalWithout(size, jsonb.Keys, json);
        assert jsonb.Keys - {json} == keys && jsonb.Keys == keys + {json};
        assert |jsonb| == |keys + {json}| == |keys| + 1;
        PruneJsonb(policy);
      }
    }

    // ----- Shared entries ----------------------------------------------------------------------

    /** Evicts objects and lists until at most the target number are left. Of the entries that are still
        alive no more go than the target asks for, and all from the larger side if it has enough. */
    method PruneShared(maxEntries: nat, targetEntries: nat, alive: set<nat>)
      modifies this`objects, this`lists
      ensures objects <= old(objects) && lists <= old(lists)
      ensures |old(objects)| + |old(lists)| <= maxEntries ==> objects == old(objects) && lists == old(lists)
      ensures |old(objects)| + |old(lists)| > maxEntries ==>
                && objects <= alive && lists <= alive
                && |objects| + |lists| == Least(Least(targetEntries, maxEntries), |old(objects) * alive| + |old(lists) * alive|)
                && LargerPays(old(objects) * alive, old(lists) * alive, objects, lists)
    {
      if |objects| + |lists| <= maxEntries {
        return;
      }
      objects := objects * alive;
      lists := lists * alive;
      var target := Least(targetEntries, maxEntries);
      ghost var total, o, l := |objects| + |lists|, objects, lists;
      while |objects| + |lists| > target
        invariant objects <= old(objects) * alive && lists <= old(lists) * alive
        invariant |objects| + |lists| == total || target <= |objects| + |lists| <= total
        invariant objects <= o && lists <= l && (|objects| + |lists| == total ==> objects == o && lists == l)
        invariant LargerPays(o, l, objects, lists)
        invariant target < |objects| + |lists| < total ==> if |o| >= |l| then objects == {} else lists == {}
        decreases |objects| + |lists|
      {
        var toRemove := SaturatingSub(|objects| + |lists|, target);
        SubsetSize(objects, o);
        SubsetSize(lists, l);
        if |objects| >= |lists| {
          objects := Evict(objects, toRemove);
        } else {
          lists := Evict(lists, toRemove);
        }
      }
    }

    /** Drops field keys until the target number are left. */
    method PruneFieldKeys(maxEntries: nat, targetEntries: nat)
      modifies this`fieldKeys
      ensures forall key :: key in fieldKeys ==> key in old(fieldKeys) && fieldKeys[key] == old(fieldKeys[key])
      ensures |old(fieldKeys)| <= maxEntries ==> fieldKeys == old(fieldKeys)
      ensures |old(fieldKeys)| > maxEntries ==> |fieldKeys| == Least(targetEntries, maxEntries)
    {
      if |fieldKeys| <= maxEntries {
        return;
      }
      var target := Least(targetEntries, maxEntries);
      var toRemove := SaturatingSub(|fieldKeys|, target);
      if toRemove == 0 {
        return;
      }
      assert |fieldKeys| == |fieldKeys.Keys|;
      var keys := TakeKeys(fieldKeys.Keys, toRemove);
      fieldKeys := fieldKeys - keys;
      assert fieldKeys.Keys == old(fieldKeys).Keys - keys;
      assert |fieldKeys| == |fieldKeys.Keys|;
    }
  }

  lemma SubsetSize<T>(a: set<T>, b: set<T>)
    requires a <= b
    ensures |a| <= |b| && (|a| == |b| ==> a == b)
  {
    assert |b - a| == |b| - |a|;
  }

  /** Entries go from the side with more of them, objects on a tie; from the other one only once it is empty. */
  ghost predicate LargerPays(objects: set<nat>, lists: set<nat>, objects': set<nat>, lists': set<nat>) {
    if |objects| >= |lists| then lists' == lists || objects' == {} else objects' == objects || lists' == {}
  }

  /** Some `count` of the keys, or all if there are fewer. */
  method TakeKeys<T(==)>(keys: set<T>, count: nat) returns (taken: set<T>)
    ensures taken <= keys && |taken| == Least(count, |keys|)
  {
    taken := {};
    var rest := keys;
    while |taken| < count && rest != {}
      invariant rest !! taken && rest + taken == keys && |taken| <= count
      decreases rest
    {
      var key :| key in rest;
      rest := rest - {key};
      taken := taken + {key};
    }
    assert |keys| == |rest| + |taken| by {
      assert keys == rest + taken;
    }
  }

  method Evict(entries: set<nat>, count: nat) returns (left: set<nat>)
    ensures left <= entries && |left| == SaturatingSub(|entries|, if count > 1 then count else 1)
  {
    var keys := TakeKeys(entries, if count > 1 then count else 1);
    left := entries - keys;
    assert |entries| == |left| + |keys| by {
      assert entries == left + keys && left !! keys;
    }
  }
}
