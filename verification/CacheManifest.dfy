/** Cache manifests: the records that decide whether a cached value may be used. */
module CacheManifest {
  import opened Sequences

  datatype CacheStatus = Valid | Invalidated | Expired

  datatype Reason = InputChanged | DependencyChanged | ContractChanged | Manual | Timeout

  datatype Invalidation = Invalidation(reason: Reason, details: string, timestamp: int)

  /** Times are in milliseconds. */
  datatype Manifest = Manifest(
    cacheKey: string,
    sliceId: string,
    stageId: string,
    status: CacheStatus,
    invalidation: Option<Invalidation>,
    createdAt: int,
    lastAccessedAt: int,
    expiresAt: Option<int>)

  function CreateManifest(cacheKey: string, sliceId: string, stageId: string, ttlSeconds: int, now: int): Manifest {
    Manifest(cacheKey, sliceId, stageId, Valid, None, now, now,
             if ttlSeconds == 0 then None else Some(now + ttlSeconds * 1000))
  }

  function InvalidateManifest(m: Manifest, reason: Reason, details: string, now: int): Manifest {
    m.(status := Invalidated, invalidation := Some(Invalidation(reason, details, now)))
  }

  function TouchManifest(m: Manifest, now: int): Manifest {
    m.(lastAccessedAt := now)
  }

  predicate IsExpired(m: Manifest, now: int) {
    m.expiresAt.Some? && m.expiresAt.value < now
  }

  /** The status `Expired` alone does not make a manifest invalid. */
  predicate IsValid(m: Manifest, now: int) {
    !m.status.Invalidated? && !IsExpired(m, now)
  }

  /** The documented reading: neither invalidated nor expired, the status included. */
  predicate IsValidAsDocumented(m: Manifest, now: int) {
    !m.status.Invalidated? && !m.status.Expired? && !IsExpired(m, now)
  }

  /** The code agrees with it unless the status says expired before the expiry time does. */
  lemma ValidAsDocumentedIff(m: Manifest, now: int)
    ensures (IsValid(m, now) <==> IsValidAsDocumented(m, now)) <==> (m.status.Expired? ==> IsExpired(m, now))
  {
  }

  /** A manifest marked as expired that is still taken as valid, concretely. */
  lemma ExpiredStatusIsValid(m: Manifest)
    requires m == CreateManifest("cache:a", "slice", "stage", 60, 0).(status := Expired)
    ensures IsValid(m, 60000) && !IsValidAsDocumented(m, 60000)
  {
  }

  /** A new manifest is valid up to the end of its time to live, or for ever without one. */
  lemma NewManifestLives(cacheKey: string, sliceId: string, stageId: string, ttlSeconds: int, now: int, later: int)
    ensures IsValid(CreateManifest(cacheKey, sliceId, stageId, ttlSeconds, now), later) <==>
            ttlSeconds == 0 || later <= now + ttlSeconds * 1000
  {
  }

  /** Touching changes the validity at no time, and what is invalid stays so. */
  lemma ValidityOnlyEnds(m: Manifest, reason: Reason, details: string, touched: int, now: int, later: int)
    requires now <= later
    ensures IsValid(TouchManifest(m, touched), later) <==> IsValid(m, later)
    ensures !IsValid(m, now) ==> !IsValid(m, later)
    ensures !IsValid(InvalidateManifest(m, reason, details, touched), later)
  {
  }

  /** Touching and invalidating change what they are for and nothing else. */
  lemma OnlyTheirFields(m: Manifest, reason: Reason, details: string, now: int)
    ensures TouchManifest(m, now).lastAccessedAt == now
    ensures TouchManifest(m, now).(lastAccessedAt := m.lastAccessedAt) == m
    ensures InvalidateManifest(m, reason, details, now).status == Invalidated
    ensures InvalidateManifest(m, reason, details, now).invalidation == Some(Invalidation(reason, details, now))
    ensures InvalidateManifest(m, reason, details, now).(status := m.status, invalidation := m.invalidation) == m
  {
  }
}
