/**
 * The cache as a plain store without any memory in front of it, and what its `get` means in terms
 * of the calls made before.
 */
module CacheStore {
  import opened Sequences
  import opened CacheManifest

  type Key = string
  type Value = string

  const PREFIX: string := "cache:"

  predicate HasPrefix(key: Key) {
    PREFIX <= key
  }

  /** `cacheKey.replace(/^cache:/, '')`: the name of the files of a key. */
  function Hash(key: Key): string {
    if HasPrefix(key) then key[|PREFIX|..] else key
  }

  /** Two keys share their files exactly when one is the other without its prefix. */
  lemma KeysShareFilesIff(a: Key, b: Key)
    ensures Hash(a) == Hash(b) <==>
            a == b || (a == PREFIX + b && !HasPrefix(b)) || (b == PREFIX + a && !HasPrefix(a))
  {
    assert HasPrefix(a) ==> a == PREFIX + a[|PREFIX|..];
    assert HasPrefix(b) ==> b == PREFIX + b[|PREFIX|..];
    assert (PREFIX + b)[|PREFIX|..] == b && (PREFIX + a)[|PREFIX|..] == a;
  }

  /** The two directories of the cache, by file name. */
  datatype Store = Store(manifests: map<string, Manifest>, values: map<string, Value>)

  const EMPTY := Store(map[], map[])

  /** Each manifest file is named after the key in it. */
  ghost predicate NamedAfterKeys(s: Store) {
    forall h :: h in s.manifests ==> HasPrefix(s.manifests[h].cacheKey) && Hash(s.manifests[h].cacheKey) == h
  }

  // ----- the calls -----

  function GetResult(s: Store, key: Key, now: int): Option<Value> {
    if Hash(key) in s.manifests && IsValid(s.manifests[Hash(key)], now) && Hash(key) in s.values
    then Some(s.values[Hash(key)]) else None
  }

  function AfterGet(s: Store, key: Key, now: int): Store {
    if Hash(key) in s.manifests && IsValid(s.manifests[Hash(key)], now)
    then s.(manifests := s.manifests[Hash(key) := TouchManifest(s.manifests[Hash(key)], now)]) else s
  }

  function AfterPut(s: Store, m: Manifest, value: Value): Store {
    Store(s.manifests[Hash(m.cacheKey) := m], s.values[Hash(m.cacheKey) := value])
  }

  function AfterInvalidate(s: Store, key: Key, reason: Reason, details: string, now: int): Store {
    if Hash(key) in s.manifests
    then s.(manifests := s.manifests[Hash(key) := InvalidateManifest(s.manifests[Hash(key)], reason, details, now)])
    else s
  }

  /** Which manifests a bulk invalidation is after: those of a slice, or of one of its stages. */
  datatype Scope = Scope(sliceId: string, stageId: Option<string>) {
    predicate Covers(m: Manifest) {
      m.sliceId == sliceId && (stageId.Some? ==> m.stageId == stageId.value)
    }
  }

  function AfterInvalidateScope(s: Store, scope: Scope, reason: Reason, details: string, now: int): Store {
    s.(manifests := map h | h in s.manifests ::
         if scope.Covers(s.manifests[h]) then InvalidateManifest(s.manifests[h], reason, details, now)
         else s.manifests[h])
  }

  function Dead(s: Store, now: int): set<string> {
    set h | h in s.manifests && !IsValid(s.manifests[h], now)
  }

  function AfterPrune(s: Store, now: int): Store {
    Store(s.manifests - Dead(s, now), s.values - Dead(s, now))
  }

  // ----- runs -----

  datatype Step =
    | Get(key: Key, now: int)
    | Put(manifest: Manifest, value: Value, now: int)
    | Invalidate(key: Key, reason: Reason, details: string, now: int)
    | InvalidateScope(scope: Scope, reason: Reason, details: string, now: int)
    | Warmup(now: int)
    | Prune(now: int)
    | Clear(now: int)

  function Apply(s: Store, step: Step): Store {
    match step
    case Get(key, now) => AfterGet(s, key, now)
    case Put(m, value, _) => AfterPut(s, m, value)
    case Invalidate(key, reason, details, now) => AfterInvalidate(s, key, reason, details, now)
    case InvalidateScope(scope, reason, details, now) => AfterInvalidateScope(s, scope, reason, details, now)
    case Warmup(_) => s
    case Prune(now) => AfterPrune(s, now)
    case Clear(_) => EMPTY
  }

  function Run(steps: seq<Step>): Store {
    if steps == [] then EMPTY else Apply(Run(steps[..|steps| - 1]), steps[|steps| - 1])
  }

  /** Keys carry the prefix. */
  predicate PrefixedKeys(step: Step) {
    && (step.Get? || step.Invalidate? ==> HasPrefix(step.key))
    && (step.Put? ==> HasPrefix(step.manifest.cacheKey))
  }

  /** The clock does not run backwards, and `now` is not before the last call. */
  ghost predicate Timely(steps: seq<Step>, now: int) {
    && (forall k :: 0 <= k < |steps| ==> PrefixedKeys(steps[k]) && steps[k].now <= now)
    && (forall i, j :: 0 <= i < j < |steps| ==> steps[i].now <= steps[j].now)
  }

  // ----- what the calls mean -----

  /** What the last `put` of a key stored, and whether it has been invalidated since. */
  datatype Entry = Nothing | Stored(manifest: Manifest, value: Value, invalidated: bool)

  /** Only `put`, the invalidations and `clear` matter. */
  function LastPut(steps: seq<Step>, key: Key): Entry {
    if steps == [] then Nothing else AfterStep(LastPut(steps[..|steps| - 1], key), steps[|steps| - 1], key)
  }

  function AfterStep(before: Entry, step: Step, key: Key): Entry {
    match step
    case Put(m, value, _) => if m.cacheKey == key then Stored(m, value, false) else before
    case Invalidate(k, _, _, _) =>
      if k == key && before.Stored? then before.(invalidated := true) else before
    case InvalidateScope(scope, _, _, _) =>
      if before.Stored? && scope.Covers(before.manifest) then before.(invalidated := true) else before
    case Clear(_) => Nothing
    case _ => before
  }

  /** The value last put, unless it was invalidated since, put as invalid, or has expired. */
  function Usable(e: Entry, now: int): Option<Value> {
    if e.Stored? && !e.invalidated && IsValid(e.manifest, now) then Some(e.value) else None
  }

  /** What the files of a key hold, given the entry. */
  ghost predicate FilesMatch(s: Store, e: Entry, key: Key, now: int) {
    var h := Hash(key);
    match e
    case Nothing => h !in s.manifests
    case Stored(m, value, invalidated) =>
      if h in s.manifests then
        && h in s.values && s.values[h] == value
        && s.manifests[h].expiresAt == m.expiresAt
        && s.manifests[h].sliceId == m.sliceId && s.manifests[h].stageId == m.stageId
        && (s.manifests[h].status.Invalidated? <==> invalidated || m.status.Invalidated?)
      else invalidated || !IsValid(m, now)
  }

  lemma StepKeepsFilesMatch(s: Store, e: Entry, steps: seq<Step>, key: Key, now: int)
    requires steps != [] && Timely(steps, now) && HasPrefix(key)
    requires FilesMatch(s, e, key, steps[|steps| - 1].now)
    requires e == LastPut(steps[..|steps| - 1], key)
    ensures FilesMatch(Apply(s, steps[|steps| - 1]), LastPut(steps, key), key, now)
  {
    hide LastPut, Hash;
    var step := steps[|steps| - 1];
    assert PrefixedKeys(step) && step.now <= now;
    if step.Get? || step.Invalidate? {
      KeysShareFilesIff(step.key, key);
    } else if step.Put? {
      KeysShareFilesIff(step.manifest.cacheKey, key);
    }
    assert LastPut(steps, key) == AfterStep(e, step, key) by { LastPutStep(steps, key); }
  }

  lemma LastPutStep(steps: seq<Step>, key: Key)
    requires steps != []
    ensures LastPut(steps, key) == AfterStep(LastPut(steps[..|steps| - 1], key), steps[|steps| - 1], key)
  {
  }

  lemma {:induction false} RunMatches(steps: seq<Step>, key: Key, now: int)
    requires Timely(steps, now) && HasPrefix(key)
    ensures FilesMatch(Run(steps), LastPut(steps, key), key, now)
  {
    if steps != [] {
      var front, last := steps[..|steps| - 1], steps[|steps| - 1];
      assert Timely(front, last.now);
      RunMatches(front, key, last.now);
      StepKeepsFilesMatch(Run(front), LastPut(front, key), steps, key, now);
    }
  }

  /**
   * After any run, `get` returns the value last put under the key while it is valid and unexpired,
   * and nothing otherwise.
   */
  lemma GetReturnsLastPut(steps: seq<Step>, key: Key, now: int)
    requires Timely(steps, now) && HasPrefix(key)
    ensures GetResult(Run(steps), key, now) == Usable(LastPut(steps, key), now)
  {
    RunMatches(steps, key, now);
  }

  // ----- consequences -----

  predicate MattersTo(step: Step) {
    step.Put? || step.Invalidate? || step.InvalidateScope? || step.Clear?
  }

  lemma Ignored(e: Entry, step: Step, key: Key)
    requires !MattersTo(step)
    ensures AfterStep(e, step, key) == e
  {
  }

  lemma {:induction false} LastPutSkips(before: seq<Step>, step: Step, after: seq<Step>, key: Key)
    requires !MattersTo(step)
    ensures LastPut(before + [step] + after, key) == LastPut(before + after, key)
  {
    hide AfterStep;
    if after == [] {
      Ignored(LastPut(before, key), step, key);
      assert before + [step] + after == before + [step] && before + after == before;
      assert (before + [step])[..|before|] == before;
    } else {
      var front := after[..|after| - 1];
      assert (before + [step] + after)[..|before + [step] + after| - 1] == before + [step] + front;
      assert (before + after)[..|before + after| - 1] == before + front;
      LastPutSkips(before, step, front, key);
    }
  }

  lemma TimelyWithoutOne(before: seq<Step>, step: Step, after: seq<Step>, now: int)
    requires Timely(before + [step] + after, now)
    ensures Timely(before + after, now)
  {
    var with, without := before + [step] + after, before + after;
    var n := |before|;
    forall j | 0 <= j < |without| ensures PrefixedKeys(without[j]) && without[j].now <= now {
      assert without[j] == with[if j < n then j else j + 1];
    }
    forall i, j | 0 <= i < j < |without| ensures without[i].now <= without[j].now {
      assert without[i] == with[if i < n then i else i + 1];
      assert without[j] == with[if j < n then j else j + 1];
    }
  }

  /** Pruning, warming up and reading change the result of no later `get`. */
  lemma PruneIsInvisible(before: seq<Step>, step: Step, after: seq<Step>, key: Key, now: int)
    requires step.Prune? || step.Warmup? || step.Get?
    requires Timely(before + [step] + after, now) && HasPrefix(key)
    ensures GetResult(Run(before + [step] + after), key, now) == GetResult(Run(before + after), key, now)
  {
    var with, without := before + [step] + after, before + after;
    TimelyWithoutOne(before, step, after, now);
    GetReturnsLastPut(with, key, now);
    GetReturnsLastPut(without, key, now);
    LastPutSkips(before, step, after, key);
  }

  lemma UsableEnds(e: Entry, earlier: int, now: int)
    requires earlier <= now && Usable(e, earlier) == None
    ensures Usable(e, now) == None
  {
  }

  lemma NotRevivedBy(e: Entry, step: Step, key: Key, now: int)
    requires !(step.Put? && step.manifest.cacheKey == key) && Usable(e, now) == None
    ensures Usable(AfterStep(e, step, key), now) == None
  {
  }

  /** Without a new `put` an entry does not come back to life. */
  lemma {:induction false} NoRevival(before: seq<Step>, after: seq<Step>, key: Key, earlier: int, now: int)
    requires earlier <= now
    requires forall k :: 0 <= k < |after| ==> !(after[k].Put? && after[k].manifest.cacheKey == key)
    requires Usable(LastPut(before, key), earlier) == None
    ensures Usable(LastPut(before + after, key), now) == None
  {
    hide Usable, AfterStep, LastPut;
    if after == [] {
      assert before + after == before;
      UsableEnds(LastPut(before, key), earlier, now);
    } else {
      var front, all := after[..|after| - 1], before + after;
      assert all[..|all| - 1] == before + front && all[|all| - 1] == after[|after| - 1];
      NoRevival(before, front, key, earlier, now);
      LastPutStep(all, key);
      NotRevivedBy(LastPut(before + front, key), after[|after| - 1], key, now);
    }
  }

  /** Once a `get` finds nothing, every later one finds nothing until the key is put again. */
  lemma DeathIsPermanent(before: seq<Step>, after: seq<Step>, key: Key, earlier: int, now: int)
    requires Timely(before, earlier) && Timely(before + after, now) && earlier <= now && HasPrefix(key)
    requires forall k :: 0 <= k < |after| ==> !(after[k].Put? && after[k].manifest.cacheKey == key)
    requires GetResult(Run(before), key, earlier) == None
    ensures GetResult(Run(before + after), key, now) == None
  {
    GetReturnsLastPut(before, key, earlier);
    NoRevival(before, after, key, earlier, now);
    GetReturnsLastPut(before + after, key, now);
  }

  /** A bulk invalidation kills the keys in its scope and no other. */
  lemma InvalidationHitsScopeOnly(before: seq<Step>, step: Step, key: Key, now: int)
    requires step.InvalidateScope? && Timely(before + [step], now) && HasPrefix(key)
    ensures
      var e := LastPut(before, key);
      GetResult(Run(before + [step]), key, now) ==
      if e.Stored? && step.scope.Covers(e.manifest) then None else GetResult(Run(before), key, now)
  {
    var all := before + [step];
    assert all[..|all| - 1] == before;
    assert Timely(before, now) by {
      assert forall k :: 0 <= k < |before| ==> before[k] == all[k];
    }
    GetReturnsLastPut(before, key, now);
    GetReturnsLastPut(all, key, now);
  }

  /** Keys that differ in the prefix only, concretely: one is found although only the other was put. */
  lemma UnprefixedKeyFindsOther(m: Manifest, value: Value, now: int)
    requires m.cacheKey == "cache:a" && IsValid(m, now)
    ensures LastPut([Put(m, value, now)], "a") == Nothing
    ensures GetResult(Run([Put(m, value, now)]), "a", now) == Some(value)
  {
    var steps := [Put(m, value, now)];
    assert steps[..0] == [] && Hash("cache:a") == "a" == Hash("a");
    assert Run(steps) == Apply(EMPTY, steps[0]);
    assert LastPut(steps, "a") == AfterStep(Nothing, steps[0], "a");
  }

  // ----- the calls, one by one -----

  lemma TimelyFront(before: seq<Step>, step: Step, now: int)
    requires Timely(before + [step], now)
    ensures Timely(before, now) && (before + [step])[..|before|] == before
  {
    var all := before + [step];
    assert all[..|before|] == before;
    assert forall k :: 0 <= k < |before| ==> before[k] == all[k];
  }

  /** Right after a `put` the value is found up to the expiry time, and other keys are found as before. */
  lemma PutIsFound(before: seq<Step>, m: Manifest, value: Value, at: int, key: Key, now: int)
    requires Timely(before + [Put(m, value, at)], now) && HasPrefix(key)
    ensures GetResult(Run(before + [Put(m, value, at)]), key, now) ==
            if key != m.cacheKey then GetResult(Run(before), key, now)
            else if m.status != CacheStatus.Invalidated && (m.expiresAt.Some? ==> now <= m.expiresAt.value) then Some(value)
            else None
  {
    var all := before + [Put(m, value, at)];
    TimelyFront(before, Put(m, value, at), now);
    GetReturnsLastPut(before, key, now);
    GetReturnsLastPut(all, key, now);
  }

  /** An invalidated key is not found, and other keys are found as before. */
  lemma InvalidateKills(before: seq<Step>, step: Step, key: Key, now: int)
    requires step.Invalidate? && Timely(before + [step], now) && HasPrefix(key)
    ensures GetResult(Run(before + [step]), key, now) ==
            if key == step.key then None else GetResult(Run(before), key, now)
  {
    TimelyFront(before, step, now);
    GetReturnsLastPut(before, key, now);
    GetReturnsLastPut(before + [step], key, now);
  }

  /** After a `clear` nothing is found. */
  lemma ClearForgets(before: seq<Step>, step: Step, key: Key, now: int)
    requires step.Clear? && Timely(before + [step], now) && HasPrefix(key)
    ensures GetResult(Run(before + [step]), key, now) == None
  {
    TimelyFront(before, step, now);
    GetReturnsLastPut(before + [step], key, now);
  }

  /** A bulk invalidation kills what was put for its slice, at its stage if it names one, and nothing else. */
  lemma SliceInvalidationKills(before: seq<Step>, m: Manifest, value: Value, at: int, step: Step, key: Key, now: int)
    requires step.InvalidateScope? && key == m.cacheKey && HasPrefix(key)
    requires Timely(before + [Put(m, value, at)] + [step], now)
    ensures GetResult(Run(before + [Put(m, value, at)] + [step]), key, now) ==
            if m.sliceId == step.scope.sliceId && (step.scope.stageId == None || step.scope.stageId == Some(m.stageId)) then None
            else GetResult(Run(before + [Put(m, value, at)]), key, now)
  {
    var first := before + [Put(m, value, at)];
    TimelyFront(first, step, now);
    InvalidationHitsScopeOnly(first, step, key, now);
    assert first[..|first| - 1] == before;
  }

  /** A `get` that finds a usable manifest dates it and changes nothing else on disk; any other changes nothing. */
  lemma GetOnlyDates(s: Store, key: Key, now: int)
    ensures AfterGet(s, key, now).values == s.values && AfterGet(s, key, now).manifests.Keys == s.manifests.Keys
    ensures forall h :: h in s.manifests ==>
              AfterGet(s, key, now).manifests[h] ==
              if h == Hash(key) && !s.manifests[h].status.Invalidated? && !IsExpired(s.manifests[h], now)
              then s.manifests[h].(lastAccessedAt := now) else s.manifests[h]
  {
  }

  /** An invalidation records its reason with the manifest and leaves the value file. */
  lemma InvalidationIsRecorded(s: Store, key: Key, reason: Reason, details: string, now: int)
    requires Hash(key) in s.manifests
    ensures
      var t := AfterInvalidate(s, key, reason, details, now);
      && t.values == s.values && t.manifests.Keys == s.manifests.Keys
      && t.manifests[Hash(key)].invalidation == Some(Invalidation(reason, details, now))
      && t.manifests[Hash(key)].status.Invalidated?
      && forall h :: h in s.manifests && h != Hash(key) ==> t.manifests[h] == s.manifests[h]
  {
  }

  /** Pruning removes manifest and value of what is invalidated or past its time, and keeps everything else. */
  lemma PruneRemovesDead(s: Store, now: int, h: string)
    ensures
      var dead := h in s.manifests &&
                  (s.manifests[h].status.Invalidated? || (s.manifests[h].expiresAt.Some? && s.manifests[h].expiresAt.value < now));
      var t := AfterPrune(s, now);
      && (h in t.manifests <==> h in s.manifests && !dead) && (h in t.manifests ==> t.manifests[h] == s.manifests[h])
      && (h in t.values <==> h in s.values && !dead) && (h in t.values ==> t.values[h] == s.values[h])
  {
  }
}
