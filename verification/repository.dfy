/** `MongoRepository<T>` over the abstract store: every operation is a pure
    function (or, where the driver enumerates the collection, a method) from
    the store before the call to its outcome and the store after it. */
module MongoRepository {
  import opened Wrappers
  import opened Entities
  import opened Errors
  import opened Guard
  import opened DocumentStore
  import opened IdOrder
  import opened Paging

  const MissingConnectionStringMessage := "Missing MongoDB connection string"
  const InsertDuplicateMessage := "Insert failed because the entity already exists!"
  const UpdateConflictMessage := "Update failed because entity versions conflict!"
  const EntityMissingMessage := "Entity does not exist."
  /** Stands for the driver's message rejecting a negative skip; the text
      is a placeholder, not the driver's wording. */
  const NegativeSkipMessage := "negative skip"

  /** A repository instance: the collection it writes to and what its
      `IgnoreVersion()` answers. */
  datatype Repository = Repository(collectionName: string, ignoreVersion: bool)

  /** One call of Insert or Update: what it returned or threw, the store
      afterwards, and the caller's entity object afterwards (the code mutates
      it in place, whether the write then succeeds or not). */
  datatype Step = Step(result: Result<Entity, Failure>, store: Store, argument: Option<Entity>)

  predicate EndsWithS(name: string) {
    |name| > 0 && name[|name| - 1] == 's'
  }

  /** The type name pluralised by appending "s" unless it already ends in "s". */
  function BuildCollectionName(typeName: string): (name: string)
    ensures EndsWithS(name)
    ensures typeName <= name && |name| <= |typeName| + 1
    ensures EndsWithS(typeName) <==> name == typeName
  {
    if EndsWithS(typeName) then typeName else typeName + "s"
  }

  /** Pluralising a plural changes nothing. */
  lemma CollectionNameIdempotent(typeName: string)
    ensures BuildCollectionName(BuildCollectionName(typeName)) == BuildCollectionName(typeName)
  {
  }

  /** The constructor: a null connection string is an argument error; a
      failure of the driver while parsing the connection string or opening
      the database (`connectFault`, outside any handler) escapes as a driver
      error; a driver failure while opening the collection
      (`collectionFault`) becomes a `RepositoryException`. */
  function NewRepository(typeName: string, connectionString: Option<string>,
                         connectFault: Option<string>, collectionFault: Option<string>): (r: Result<Repository, Failure>)
    ensures r.Ok? <==> connectionString.Some? && connectFault.None? && collectionFault.None?
    ensures connectionString.None? ==> r == Err(ArgumentInvalid(MissingConnectionStringMessage))
    ensures connectionString.Some? && connectFault.Some? ==> r == Err(DriverFailure(connectFault.value))
    ensures connectionString.Some? && connectFault.None? && collectionFault.Some? ==>
              r.Err? && r.error.Raised? && KindOf(r.error.error) == RepositoryKind
              && r.error.error.message == collectionFault.value
    ensures r.Ok? ==> r.value.collectionName == BuildCollectionName(typeName) && !IgnoreVersion(r.value)
  {
    if connectionString.None? then Err(ArgumentInvalid(MissingConnectionStringMessage))
    else if connectFault.Some? then Err(DriverFailure(connectFault.value))
    else if collectionFault.Some? then Err(Raised(NewRepositoryException(collectionFault.value)))
    else Ok(Repository(BuildCollectionName(typeName), false))
  }

  /** The version-check policy hook; the base repository answers false. */
  function IgnoreVersion(repo: Repository): bool {
    repo.ignoreVersion
  }

  /** Insert: null guard, id assignment when the id is null, two clock
      readings for the timestamps, then a single insert that fails when the
      id is taken. */
  function Insert(s: Store, entity: Option<Entity>, freshId: string, created: Timestamp, updated: Timestamp): (o: Step)
    ensures entity.None? ==> o.result == Err(ArgumentNull("entity")) && o.store == s && o.argument.None?
    ensures entity.Some? ==>
              var e, a := entity.value, o.argument;
              && a.Some?
              && a.value.id == (if e.id.Some? then e.id else Some(freshId))
              && a.value.createdDate == created && a.value.updatedDate == updated
              && a.value.version == e.version && a.value.metadata == e.metadata && a.value.fields == e.fields
    ensures entity.Some? ==> (o.result.Ok? <==> o.argument.value.id.value !in s)
    ensures o.result.Ok? ==>
              o.result.value.id.Some? &&
              var k := o.result.value.id.value;
              && o.argument == Some(o.result.value)
              && o.store.Keys == s.Keys + {k} && o.store[k] == o.result.value && SameExcept(s, o.store, k)
    ensures o.result.Err? ==> o.store == s
    ensures entity.Some? && o.result.Err? ==>
              && o.result.error.Raised? && KindOf(o.result.error.error) == DuplicateKind
              && CarriedEntity(o.result.error.error) == o.argument
              && Inner(o.result.error.error) == Some(DuplicateKey(o.argument.value.id.value))
  {
    match ThrowIfNull(entity, "entity")
    case Err(failure) => Step(Err(failure), s, entity)
    case Ok(_) =>
      var e := entity.value;
      var withId := if e.id.None? then e.(id := Some(freshId)) else e;
      var stamped := withId.(createdDate := created, updatedDate := updated);
      match InsertOne(s, stamped)
      case Ok(t) => Step(Ok(stamped), t, Some(stamped))
      case Err(key) =>
        Step(Err(Raised(NewEntityDuplicateException(stamped, InsertDuplicateMessage, Some(DuplicateKey(key))))), s, Some(stamped))
  }

  /** What a zero-match test of the replace result sees: nothing matched,
      or nothing was modified. */
  predicate NothingReplaced(r: ReplaceResult) {
    r.matchedCount == 0 || !(r.modifiedCount > 0)
  }

  /** Update: null guard, re-stamp and bump the version on the caller's
      entity, then one conditional replace. With the version check the
      filter is "same id AND stored version < new version" and a zero match
      is always a conflict; without it the filter is the id alone and a zero
      match is a plain entity error. */
  function Update(repo: Repository, s: Store, entity: Option<Entity>, now: Timestamp): (o: Step)
    ensures entity.None? ==> o.result == Err(ArgumentNull("entity")) && o.store == s && o.argument.None?
    ensures entity.Some? ==>
              var e, a := entity.value, o.argument;
              && a.Some?
              && a.value.id == e.id && a.value.createdDate == e.createdDate && a.value.updatedDate == now
              && a.value.version == Increment(e.version)
              && a.value.metadata == e.metadata && a.value.fields == e.fields
    ensures o.result.Ok? ==>
              o.result.value.id.Some? &&
              var k := o.result.value.id.value;
              && o.argument == Some(o.result.value)
              && k in s
              && o.store.Keys == s.Keys && o.store[k] == o.result.value && SameExcept(s, o.store, k)
    ensures o.result.Err? ==> o.store == s
    ensures entity.Some? && !IgnoreVersion(repo) ==>
              var a := o.argument.value;
              o.result.Ok? <==> a.id.Some? && a.id.value in s && s[a.id.value].version < a.version
    ensures entity.Some? && !IgnoreVersion(repo) && o.result.Err? ==>
              && o.result.error.Raised? && KindOf(o.result.error.error) == ConflictKind
              && CarriedEntity(o.result.error.error) == o.argument
              && o.result.error.error.message == UpdateConflictMessage
    ensures entity.Some? && IgnoreVersion(repo) ==>
              var a := o.argument.value;
              o.result.Ok? <==> a.id.Some? && a.id.value in s && s[a.id.value] != a
    ensures entity.Some? && IgnoreVersion(repo) && o.result.Err? ==>
              && o.result.error.Raised? && KindOf(o.result.error.error) == EntityKind
              && CarriedEntity(o.result.error.error) == o.argument
              && o.result.error.error.message == EntityMissingMessage
  {
    match ThrowIfNull(entity, "entity")
    case Err(failure) => Step(Err(failure), s, entity)
    case Ok(_) =>
      var e := entity.value;
      var bumped := e.(updatedDate := now, version := Increment(e.version));
      if !IgnoreVersion(repo) then
        var replaced := ReplaceOne(s, IdEqualsVersionBelow(bumped.id, bumped.version), bumped);
        if NothingReplaced(replaced.result) then
          Step(Err(Raised(NewEntityConflictException(bumped, UpdateConflictMessage, None))), replaced.store, Some(bumped))
        else
          Step(Ok(bumped), replaced.store, Some(bumped))
      else
        var replaced := ReplaceOne(s, IdEquals(bumped.id), bumped);
        if NothingReplaced(replaced.result) then
          Step(Err(Raised(NewEntityException(bumped, EntityMissingMessage, None))), replaced.store, Some(bumped))
        else
          Step(Ok(bumped), replaced.store, Some(bumped))
  }

  /** Get: the stored entity with that id, or none for a missing or null id.
      The store is not an output, so it cannot change. */
  function Get(s: Store, id: Option<string>): (r: Option<Entity>)
    ensures r.Some? <==> id.Some? && id.value in s
    ensures r.Some? ==> r.value == s[id.value] && r.value.id == id
  {
    FindById(s, id)
  }

  /** Delete: removes the entity with that id, with no version check, and
      returns it; a missing or null id returns none and changes nothing. */
  function Delete(s: Store, id: Option<string>): (r: Removal)
    ensures r.removed == Get(s, id)
    ensures r.removed.None? ==> r.store == s
    ensures r.removed.Some? ==>
              id.value !in r.store && r.store.Keys == s.Keys - {id.value} && SameExcept(s, r.store, id.value)
  {
    FindOneAndDelete(s, id)
  }

  /** GetAll: every stored entity exactly once, in whatever order the
      driver enumerates them. */
  method GetAll(s: Store) returns (all: seq<Entity>)
    ensures ListsStore(s, all)
    ensures |all| == |s|
  {
    all := [];
    var remaining := s.Keys;
    while remaining != {}
      invariant remaining <= s.Keys
      invariant forall i :: 0 <= i < |all| ==>
                  all[i].id.Some? && all[i].id.value in s.Keys - remaining && s[all[i].id.value] == all[i]
      invariant forall k :: k in s.Keys - remaining ==> s[k] in all
      invariant DistinctKeys(all)
      invariant |all| + |remaining| == |s|
      decreases remaining
    {
      var k :| k in remaining;
      all := all + [s[k]];
      remaining := remaining - {k};
    }
  }

  /** Pagination: the collection sorted by id in the requested direction,
      then `skip` documents skipped and at most `top` taken (0 meaning no
      limit). The driver rejects a negative skip. */
  method Pagination(s: Store, top: Int32, skip: Int32, ascending: bool) returns (r: Result<seq<Entity>, Failure>)
    ensures r.Err? <==> skip < 0
    ensures r.Err? ==> r.error == DriverFailure(NegativeSkipMessage)
    ensures r.Ok? ==> IsPage(s, skip, top, ascending, r.value)
  {
    if skip < 0 {
      return Err(DriverFailure(NegativeSkipMessage));
    }
    var all := GetAll(s);
    var sorted := SortById(all, ascending);
    SortedListsStore(s, all, sorted, ascending);
    WindowIsPage(s, sorted, skip, top, ascending);
    r := Ok(Window(sorted, skip, top));
  }

  /** Sorting a listing of the store yields a listing of the store. */
  lemma SortedListsStore(s: Store, all: seq<Entity>, sorted: seq<Entity>, ascending: bool)
    requires ListsStore(s, all) && |all| == |s|
    requires StrictlySorted(sorted, ascending) && multiset(sorted) == multiset(all)
    ensures ListsStore(s, sorted) && |sorted| == |s|
  {
    assert |sorted| == |multiset(sorted)| == |multiset(all)| == |all|;
    forall i | 0 <= i < |sorted|
      ensures sorted[i].id.Some? && sorted[i].id.value in s && s[sorted[i].id.value] == sorted[i]
    {
      assert sorted[i] in multiset(all);
    }
    forall k | k in s
      ensures s[k] in sorted
    {
      assert s[k] in multiset(sorted);
    }
    forall i, j | 0 <= i < j < |sorted|
      ensures Key(sorted[i]) != Key(sorted[j])
    {
      BeforeStrictTotal(Key(sorted[i]), Key(sorted[i]), Key(sorted[i]), ascending);
    }
  }

  /** Windowing a sorted listing of the store gives the page. */
  lemma WindowIsPage(s: Store, sorted: seq<Entity>, skip: nat, top: int, ascending: bool)
    requires ListsStore(s, sorted) && |sorted| == |s| && StrictlySorted(sorted, ascending)
    ensures IsPage(s, skip, top, ascending, Window(sorted, skip, top))
  {
    var page := Window(sorted, skip, top);
    forall i | 0 <= i < |page|
      ensures Rank(s, Key(page[i]), ascending) == skip + i
    {
      RankOfSorted(s, sorted, ascending, skip + i);
    }
  }
}
