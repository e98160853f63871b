/** The cache manager: a memory level in front of the stored manifests and results. */
module CacheManager {
  import opened Sequences
  import opened CacheManifest
  import opened CacheStore

  datatype WarmupResult = WarmupResult(requested: nat, loaded: nat, missing: nat)

  class Manager {
    var manifestFiles: map<string, Manifest>
    var resultFiles: map<string, Value>
    var manifestMemory: map<Key, Manifest>
    var resultMemory: map<Key, Value>

    constructor ()
      ensures Valid() && Disk() == EMPTY
    {
      manifestFiles, resultFiles, manifestMemory, resultMemory := map[], map[], map[], map[];
    }

    /** What storage holds. */
    function Disk(): Store
      reads this
    {
      Store(manifestFiles, resultFiles)
    }

    /** Every entry in memory is what storage holds for its key. */
    ghost predicate Valid()
      reads this
    {
      && NamedAfterKeys(Disk())
      && (forall k :: k in manifestMemory ==>
            HasPrefix(k) && Hash(k) in manifestFiles && manifestMemory[k] == manifestFiles[Hash(k)])
      && (forall k :: k in resultMemory ==>
            HasPrefix(k) && Hash(k) in resultFiles && resultMemory[k] == resultFiles[Hash(k)])
    }

    method StoreManifest(manifest: Manifest)
      requires Valid() && HasPrefix(manifest.cacheKey)
      modifies this`manifestFiles, this`manifestMemory
      ensures Valid()
      ensures Disk() == old(Disk()).(manifests := old(manifestFiles)[Hash(manifest.cacheKey) := manifest])
    {
      forall k | k in manifestMemory ensures Hash(k) == Hash(manifest.cacheKey) ==> k == manifest.cacheKey {
        KeysShareFilesIff(k, manifest.cacheKey);
      }
      manifestFiles := manifestFiles[Hash(manifest.cacheKey) := manifest];
      manifestMemory := manifestMemory[manifest.cacheKey := manifest];
    }

    method GetManifest(cacheKey: Key) returns (r: Option<Manifest>)
      requires Valid() && HasPrefix(cacheKey)
      modifies this`manifestMemory
      ensures Valid()
      ensures r == if Hash(cacheKey) in manifestFiles then Some(manifestFiles[Hash(cacheKey)]) else None
    {
      if cacheKey in manifestMemory {
        return Some(manifestMemory[cacheKey]);
      }
      if Hash(cacheKey) !in manifestFiles {
        return None;
      }
      var manifest := manifestFiles[Hash(cacheKey)];
      manifestMemory := manifestMemory[cacheKey := manifest];
      r := Some(manifest);
    }

    method StoreValue(cacheKey: Key, value: Value)
      requires Valid() && HasPrefix(cacheKey)
      modifies this`resultFiles, this`resultMemory
      ensures Valid()
      ensures Disk() == old(Disk()).(values := old(resultFiles)[Hash(cacheKey) := value])
    {
      forall k | k in resultMemory ensures Hash(k) == Hash(cacheKey) ==> k == cacheKey {
        KeysShareFilesIff(k, cacheKey);
      }
      resultFiles := resultFiles[Hash(cacheKey) := value];
      resultMemory := resultMemory[cacheKey := value];
    }

    method GetStoredValue(cacheKey: Key) returns (r: Option<Value>)
      requires Valid() && HasPrefix(cacheKey)
      modifies this`resultMemory
      ensures Valid()
      ensures r == if Hash(cacheKey) in resultFiles then Some(resultFiles[Hash(cacheKey)]) else None
    {
      if cacheKey in resultMemory {
        return Some(resultMemory[cacheKey]);
      }
      if Hash(cacheKey) !in resultFiles {
        return None;
      }
      var value := resultFiles[Hash(cacheKey)];
      resultMemory := resultMemory[cacheKey := value];
      r := Some(value);
    }

    /** The same result as without any memory. */
    method GetValue(cacheKey: Key, now: int) returns (r: Option<Value>)
      requires Valid() && HasPrefix(cacheKey)
      modifies this
      ensures Valid()
      ensures r == GetResult(old(Disk()), cacheKey, now)
      ensures Disk() == AfterGet(old(Disk()), cacheKey, now)
    {
      var manifest := GetManifest(cacheKey);
      if manifest.None? || !IsValid(manifest.value, now) {
        if manifest.Some? {
          manifestMemory := manifestMemory - {cacheKey};
          resultMemory := resultMemory - {cacheKey};
        }
        return None;
      }
      KeysShareFilesIff(cacheKey, manifest.value.cacheKey);
      StoreManifest(TouchManifest(manifest.value, now));
      r := GetStoredValue(cacheKey);
    }

    method PutEntry(manifest: Manifest, value: Value)
      requires Valid() && HasPrefix(manifest.cacheKey)
      modifies this
      ensures Valid() && Disk() == AfterPut(old(Disk()), manifest, value)
    {
      StoreManifest(manifest);
      StoreValue(manifest.cacheKey, value);
    }

    method InvalidateEntry(cacheKey: Key, reason: Reason, details: string, now: int)
      requires Valid() && HasPrefix(cacheKey)
      modifies this
      ensures Valid() && Disk() == AfterInvalidate(old(Disk()), cacheKey, reason, details, now)
    {
      var manifest := GetManifest(cacheKey);
      if manifest.None? {
        return;
      }
      KeysShareFilesIff(cacheKey, manifest.value.cacheKey);
      StoreManifest(InvalidateManifest(manifest.value, reason, details, now));
      resultMemory := resultMemory - {cacheKey};
    }

    /** Preloading changes nothing on disk; it counts the keys that `get` would find. */
    method WarmUp(cacheKeys: seq<Key>, now: int) returns (r: WarmupResult)
      requires Valid() && forall k :: k in cacheKeys ==> HasPrefix(k)
      modifies this`manifestMemory, this`resultMemory
      ensures Valid()
      ensures r.requested == |cacheKeys| && r.loaded + r.missing == r.requested
      ensures r.loaded == |set i | 0 <= i < |cacheKeys| && GetResult(Disk(), cacheKeys[i], now).Some?|
    {
      var loaded, missing := 0, 0;
      for i := 0 to |cacheKeys|
        invariant Valid()
        invariant loaded + missing == i && loaded == CountUsable(Disk(), cacheKeys[..i], now)
      {
        assert cacheKeys[..i + 1][..i] == cacheKeys[..i];
        var manifest := GetManifest(cacheKeys[i]);
        if manifest.None? || !IsValid(manifest.value, now) {
          missing := missing + 1;
          continue;
        }
        var value := GetStoredValue(cacheKeys[i]);
        if value.None? {
          missing := missing + 1;
          continue;
        }
        loaded := loaded + 1;
      }
      assert cacheKeys[..|cacheKeys|] == cacheKeys;
      CountsUsable(Disk(), cacheKeys, now);
      r := WarmupResult(|cacheKeys|, loaded, missing);
    }

    /** `invalidateBySlice` and `invalidateByStage`: finds the manifests first, then invalidates each. */
    method InvalidateWithin(scope: Scope, reason: Reason, details: string, now: int) returns (count: nat)
      requires Valid()
      modifies this
      ensures Valid() && Disk() == AfterInvalidateScope(old(Disk()), scope, reason, details, now)
      ensures count == |set h | h in old(manifestFiles) && scope.Covers(old(manifestFiles)[h])|
    {
      hide InvalidateNames, AfterInvalidate, AfterInvalidateScope, InvalidateManifest, Hash, HasPrefix;
      ghost var was := Disk();
      var found := set h | h in manifestFiles && scope.Covers(manifestFiles[h]);
      var names := manifestFiles;
      var rest := found;
      Invalidating(was, {}, "", scope, reason, details, now);
      assert found - rest == {};
      while rest != {}
        invariant Valid() && rest <= found
        invariant Disk() == InvalidateNames(was, found - rest, reason, details, now)
        decreases rest
      {
        var h :| h in rest;
        NameOfKey(was, h);
        assert h !in found - rest;
        Invalidating(was, found - rest, h, scope, reason, details, now);
        InvalidateEntry(names[h].cacheKey, reason, details, now);
        assert found - rest + {h} == found - (rest - {h});
        rest := rest - {h};
      }
      assert found - rest == found;
      Invalidating(was, found, "", scope, reason, details, now);
      count := |found|;
    }

    method ClearAll()
      modifies this
      ensures Valid() && Disk() == EMPTY
    {
      manifestFiles, resultFiles := map[], map[];
      manifestMemory, resultMemory := map[], map[];
    }

    /** Removes the files of every entry that is invalid or expired. */
    method PruneDead(now: int) returns (pruned: nat)
      requires Valid()
      modifies this
      ensures Valid() && Disk() == AfterPrune(old(Disk()), now)
      ensures pruned == |Dead(old(Disk()), now)|
    {
      ghost var was := Disk();
      var allManifests := manifestFiles;
      var rest, removed := allManifests.Keys, {};
      while rest != {}
        invariant Valid() && rest <= allManifests.Keys
        invariant removed !! rest && forall h :: h in Dead(was, now) <==> h in removed || (h in rest && !IsValid(allManifests[h], now))
        invariant Disk() == Store(was.manifests - removed, was.values - removed)
        decreases rest
      {
        var h :| h in rest;
        var manifest := allManifests[h];
        if !IsValid(manifest, now) {
          NameOfKey(was, h);
          RemoveFiles(manifest.cacheKey);
          removed := removed + {h};
        }
        rest := rest - {h};
      }
      assert removed == Dead(was, now);
      pruned := |removed|;
    }

    method RemoveFiles(cacheKey: Key)
      requires Valid() && HasPrefix(cacheKey)
      modifies this
      ensures Valid()
      ensures manifestFiles == old(manifestFiles) - {Hash(cacheKey)}
      ensures resultFiles == old(resultFiles) - {Hash(cacheKey)}
    {
      forall k | HasPrefix(k) ensures Hash(k) == Hash(cacheKey) ==> k == cacheKey {
        KeysShareFilesIff(k, cacheKey);
      }
      manifestFiles := manifestFiles - {Hash(cacheKey)};
      resultFiles := resultFiles - {Hash(cacheKey)};
      manifestMemory := manifestMemory - {cacheKey};
      resultMemory := resultMemory - {cacheKey};
    }
  }

  /** The manifests of these files invalidated. */
  ghost function InvalidateNames(s: Store, names: set<string>, reason: Reason, details: string, now: int): Store {
    s.(manifests := map h | h in s.manifests ::
         if h in names then InvalidateManifest(s.manifests[h], reason, details, now) else s.manifests[h])
  }

  lemma NameOfKey(s: Store, h: string)
    requires NamedAfterKeys(s) && h in s.manifests
    ensures HasPrefix(s.manifests[h].cacheKey) && Hash(s.manifests[h].cacheKey) == h
  {
  }

  /** One by one leads to the bulk invalidation. */
  lemma Invalidating(s: Store, names: set<string>, h: string, scope: Scope, reason: Reason, details: string, now: int)
    ensures InvalidateNames(s, {}, reason, details, now) == s
    ensures h in s.manifests && h !in names && HasPrefix(s.manifests[h].cacheKey) && Hash(s.manifests[h].cacheKey) == h ==>
              AfterInvalidate(InvalidateNames(s, names, reason, details, now), s.manifests[h].cacheKey, reason, details, now)
              == InvalidateNames(s, names + {h}, reason, details, now)
    ensures names == (set x | x in s.manifests && scope.Covers(s.manifests[x])) ==>
              InvalidateNames(s, names, reason, details, now) == AfterInvalidateScope(s, scope, reason, details, now)
  {
    assert InvalidateNames(s, {}, reason, details, now).manifests == s.manifests;
  }

  lemma {:induction false} CountsUsable(s: Store, keys: seq<Key>, now: int)
    ensures CountUsable(s, keys, now) == |set i | 0 <= i < |keys| && GetResult(s, keys[i], now).Some?|
  {
    hide GetResult;
    var all := set i | 0 <= i < |keys| && GetResult(s, keys[i], now).Some?;
    if keys == [] {
      assert all == {};
    } else {
      var n := |keys| - 1;
      var front := keys[..n];
      CountsUsable(s, front, now);
      var before := set i | 0 <= i < |front| && GetResult(s, front[i], now).Some?;
      assert forall i :: 0 <= i < n ==> front[i] == keys[i];
      assert all == before + if GetResult(s, keys[n], now).Some? then {n} else {};
    }
  }

  function CountUsable(s: Store, keys: seq<Key>, now: int): nat {
    if keys == [] then 0
    else
      CountUsable(s, keys[..|keys| - 1], now) + if GetResult(s, keys[|keys| - 1], now).Some? then 1 else 0
  }
}
