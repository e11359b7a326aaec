/** Properties of sequences of repository calls: the optimistic-concurrency
    protocol, the insert/get/delete lifecycle, and what the ignore-version
    policy gives up. "Concurrent" calls are sequential interleavings of
    atomic steps. Each follows from the contracts of the operations. */
module Protocol {
  import opened Wrappers
  import opened Entities
  import opened Errors
  import opened DocumentStore
  import opened MongoRepository

  /** With the version check, a successful update never wraps the counter:
      the stored version becomes the caller's version plus one, which is
      above the version it replaced. */
  lemma StoredVersionAfterUpdate(repo: Repository, s: Store, e: Entity, now: Timestamp)
    requires !IgnoreVersion(repo)
    requires Update(repo, s, Some(e), now).result.Ok?
    ensures e.id.Some? && e.id.value in s
    ensures var t := Update(repo, s, Some(e), now).store;
            && e.id.value in t
            && t[e.id.value].version == e.version + 1
            && s[e.id.value].version < t[e.id.value].version
  {
  }

  /** With the version check, no update ever lowers a stored version. */
  lemma UpdateNeverLowersVersions(repo: Repository, s: Store, entity: Option<Entity>, now: Timestamp)
    requires !IgnoreVersion(repo)
    ensures var t := Update(repo, s, entity, now).store;
            forall k :: k in s ==> k in t && s[k].version <= t[k].version
  {
  }

  /** Updating the entity a Get just returned succeeds in either mode and
      raises the stored version by exactly one (unless the counter is at
      its maximum, where the increment wraps). */
  lemma FreshReadUpdateSucceeds(repo: Repository, s: Store, id: string, now: Timestamp)
    requires id in s && s[id].version < Int64Max
    ensures var e := Get(s, Some(id)).value;
            var o := Update(repo, s, Some(e), now);
            && o.result.Ok?
            && o.store[id].version == s[id].version + 1
  {
  }

  /** Two updates built from the same read: the first succeeds, the second
      submits the same new version, finds it already stored, and is rejected
      with the conflict error without touching the store. */
  lemma SameReadUpdatesConflict(repo: Repository, s: Store, id: string, now1: Timestamp, now2: Timestamp)
    requires !IgnoreVersion(repo)
    requires id in s && s[id].version < Int64Max
    ensures var e := Get(s, Some(id)).value;
            var o1 := Update(repo, s, Some(e), now1);
            var o2 := Update(repo, o1.store, Some(e), now2);
            && o1.result.Ok?
            && o2.result.Err? && o2.result.error.Raised? && KindOf(o2.result.error.error) == ConflictKind
            && o2.store == o1.store
  {
  }

  /** More generally, with the version check an update built from a stale
      read (the store already holds a version at least as new as the one it
      would write) is rejected and changes nothing. */
  lemma StaleUpdateRejected(repo: Repository, s: Store, e: Entity, now: Timestamp)
    requires !IgnoreVersion(repo)
    requires e.id.Some? && e.id.value in s && e.version < Int64Max
    requires s[e.id.value].version >= e.version + 1
    ensures var o := Update(repo, s, Some(e), now);
            o.result.Err? && KindOf(o.result.error.error) == ConflictKind && o.store == s
  {
  }

  /** With the version check an update whose id is not stored is rejected
      with the same conflict error as a stale one: the code does not tell the
      two apart. */
  lemma MissingIdUpdateConflicts(repo: Repository, s: Store, e: Entity, now: Timestamp)
    requires !IgnoreVersion(repo)
    requires e.id.None? || e.id.value !in s
    ensures var o := Update(repo, s, Some(e), now);
            o.result.Err? && KindOf(o.result.error.error) == ConflictKind && o.store == s
  {
  }

  /** With the version check off, the second of two updates built from the
      same read also succeeds and overwrites the first: the first write is
      lost. The two clock readings must differ as stored values, or the
      second write is a no-op and is reported as a missing entity. */
  lemma IgnoreVersionLosesUpdate(repo: Repository, s: Store, id: string, now1: Timestamp, now2: Timestamp)
    requires IgnoreVersion(repo)
    requires id in s && s[id].version < Int64Max && now1 != now2
    ensures var e := Get(s, Some(id)).value;
            var o1 := Update(repo, s, Some(e), now1);
            var o2 := Update(repo, o1.store, Some(e), now2);
            && o1.result.Ok? && o2.result.Ok?
            && o2.store[id].version == o1.store[id].version
            && o2.store[id].updatedDate == now2
  {
  }

  /** With the version check off, an update of a missing id raises the plain
      entity error and changes nothing. */
  lemma IgnoreVersionMissingId(repo: Repository, s: Store, e: Entity, now: Timestamp)
    requires IgnoreVersion(repo)
    requires e.id.None? || e.id.value !in s
    ensures var o := Update(repo, s, Some(e), now);
            && o.result.Err? && KindOf(o.result.error.error) == EntityKind
            && o.result.error.error.message == EntityMissingMessage && o.store == s
  {
  }

  /** Inserting the same object twice: the first call gives it an id, so
      the second call keeps that id and is rejected as a duplicate. */
  lemma InsertSameObjectTwice(s: Store, e: Entity, id1: string, id2: string,
                              c1: Timestamp, u1: Timestamp, c2: Timestamp, u2: Timestamp)
    requires Insert(s, Some(e), id1, c1, u1).result.Ok?
    ensures var o1 := Insert(s, Some(e), id1, c1, u1);
            var o2 := Insert(o1.store, o1.argument, id2, c2, u2);
            && o2.result.Err? && KindOf(o2.result.error.error) == DuplicateKind
            && o2.store == o1.store
  {
  }

  /** A Get after a successful Insert returns what Insert returned. */
  lemma InsertThenGet(s: Store, e: Entity, freshId: string, created: Timestamp, updated: Timestamp)
    requires Insert(s, Some(e), freshId, created, updated).result.Ok?
    ensures var o := Insert(s, Some(e), freshId, created, updated);
            Get(o.store, o.result.value.id) == Some(o.result.value)
  {
  }

  /** After a Delete, a Get of the same id finds nothing. */
  lemma DeleteThenGet(s: Store, id: Option<string>)
    ensures Get(Delete(s, id).store, id).None?
  {
  }

  /** The whole lifecycle of a freshly constructed entity: Insert stores it
      at version 0 under the generated id, Get returns it, and the first
      Update writes version 1. */
  lemma NewEntityLifecycle(repo: Repository, s: Store, fields: map<string, Value>, freshId: string,
                           created: Timestamp, updated: Timestamp, now: Timestamp)
    requires freshId !in s
    ensures var o1 := Insert(s, Some(NewEntity(fields)), freshId, created, updated);
            && o1.result.Ok?
            && o1.result.value.id == Some(freshId) && o1.result.value.version == 0
            && var e := Get(o1.store, Some(freshId));
               && e == Some(o1.result.value)
               && var o2 := Update(repo, o1.store, e, now);
                  && o2.result.Ok? && o2.result.value.version == 1
                  && o2.result.value.version > o1.result.value.version
  {
  }

  /** With the version check, an entity stored at the largest version can
      never be updated again: the unchecked increment writes the smallest
      `long`, no stored version is below it, and every attempt throws the
      conflict error. */
  lemma MaxVersionAlwaysConflicts(repo: Repository, s: Store, e: Entity, now: Timestamp)
    requires !IgnoreVersion(repo)
    requires e.id.Some? && e.id.value in s && s[e.id.value].version == Int64Max
    ensures var o := Update(repo, s, Some(e), now);
            o.result.Err? && KindOf(o.result.error.error) == ConflictKind && o.store == s
  {
  }
}
