# Versioned MongoDB repository — a Dafny model

This project models the core of `MongoRepository<T>`, a generic data-access
layer that stores entities in a MongoDB collection and guards updates with
optimistic concurrency: every entity carries a 64-bit `Version`, and an
update is a conditional replace "same `Id` AND stored `Version` < new
`Version`", the store-side equivalent of a compare-and-swap.

The MongoDB collection is replaced by an abstract store, a map from `_id` to
the stored entity (`DocumentStore.Store`, whose entries always carry their own
key as `Id`). The driver calls the repository makes (`InsertOneAsync`,
`ReplaceOneAsync`, `Find`, `FindOneAndDeleteAsync`) become pure, atomic
single-document steps over that map. The repository operations are written in
terms of those steps, as the C# is, and their contracts state the protocol in
terms of the store. Each call returns its outcome (a value or the exception
it throws), the store afterwards and, for Insert and Update, the caller's
entity object afterwards, because the code mutates that object in place even
when the write then fails.

Modules:

- `Wrappers` — `Option` (a nullable reference) and `Result` (return or throw).
- `Entities` — the `Entity` record (`Id`, `CreatedDate`, `UpdatedDate`,
  `Version`, `Metadata`, plus the concrete type's own fields), its
  constructor defaults and C#'s unchecked `long` increment.
- `Errors` — the exception hierarchy as a datatype: five kinds with their
  internal codes, the is-a relation, the entity an entity error carries, the
  inner cause; plus `ArgumentNullException`, the constructor's
  `ArgumentException` and uncaught driver errors.
- `Guard` — `ThrowIfNull`.
- `DocumentStore` — the abstract collection and the driver steps.
- `IdOrder` — the id order the server sorts by, and a verified insertion
  sort.
- `Paging` — skip/limit windowing and an independent description of a page
  by rank.
- `MongoRepository` — collection naming, the constructor's error paths,
  Insert, Update (both policies), Get, Delete, GetAll, Pagination.
- `Protocol` — lemmas over sequences of calls: the concurrency rule, the
  lifecycle, what the ignore-version policy gives up.

Behaviour of the code that is easy to misread, and that the model follows:

- In version-check mode a zero match always raises the conflict error.
  This covers both an absent id and a stale version. The code never
  re-probes to tell "not found" from "version conflict"
  (`Protocol.MissingIdUpdateConflicts`).
- Insert does not write version 0 explicitly. It stores the caller's
  `Version` unchanged, which is 0 for a freshly constructed entity.
- Insert reads the clock twice, so `CreatedDate` and `UpdatedDate` are two
  separate readings (`created`, `updated`).
- Pagination always sorts by `Id`. Its `orderBy` argument is never used.
- The zero-match test also fires when a match modifies nothing. The
  model's driver reports a modified count of 0 when the replacement equals
  the stored document. With the version check this never happens: the new
  version always differs from the stored one. Without the check, replacing
  a document with an identical one raises "Entity does not exist." even
  though the id exists. `MongoRepository.Update` states exactly this
  condition.
- `Version++` runs unchecked on a `long`, so the largest version wraps to
  the smallest. In version-check mode an entity stored at the largest
  version can therefore never be updated again. Every attempt writes the
  smallest `long`, the filter "stored `Version` < new `Version`" matches
  nothing, and the conflict error is thrown each time
  (`Protocol.MaxVersionAlwaysConflicts`). The lemmas about successful
  updates therefore assume a stored version below the largest `long`.

## Model

| member | source | states |
|---|---|---|
| `MongoRepository.BuildCollectionName` | src/Repository.MongoDb.Net/Core.Repository.MongoDb/MongoRepository.cs:91-95 | the result ends in "s", extends the type name by at most one character, and equals the type name exactly when the type name already ends in "s" |
| `MongoRepository.CollectionNameIdempotent` | src/Repository.MongoDb.Net/Core.Repository.MongoDb/MongoRepository.cs:91-95 | pluralising an already pluralised name changes nothing |
| `MongoRepository.NewRepository` | src/Repository.MongoDb.Net/Core.Repository.MongoDb/MongoRepository.cs:56-85 | a null connection string is an ArgumentException; a failure while parsing the connection string or opening the database escapes uncaught as the driver's own error; a failure while opening the collection becomes a RepositoryException with the driver's message; otherwise the repository uses the pluralised name and does not ignore versions |
| `MongoRepository.Insert` | src/Repository.MongoDb.Net/Core.Repository.MongoDb/MongoRepository.cs:105-126 | a null entity throws ArgumentNullException("entity") before the store is touched; a null id is replaced by the generated one, a non-null id is kept; both timestamps are stamped, nothing else changes; the call succeeds iff the id is absent, and then the store gains exactly that entity under its id and nothing else changes; otherwise it throws the duplicate error carrying the stamped entity and the store is unchanged |
| `MongoRepository.Update` | src/Repository.MongoDb.Net/Core.Repository.MongoDb/MongoRepository.cs:136-175 | a null entity throws ArgumentNullException("entity") and the store is unchanged; the caller's entity gets the new `UpdatedDate` and the unchecked increment of `Version` (+ 1, with the largest `long` wrapping to the smallest) whatever the outcome; with the version check it succeeds iff the id is stored with a smaller version, replacing only that entry, else throws the conflict error and the store is unchanged; without it, it succeeds iff the id is stored (and the write is not a no-op), else throws "Entity does not exist." |
| `MongoRepository.IgnoreVersion` | src/Repository.MongoDb.Net/Core.Repository.MongoDb/MongoRepository.cs:236-239 | the overridable version-check policy; it answers false for every repository built by `NewRepository`, as the base class does (stated by `NewRepository`'s contract) |
| `MongoRepository.NothingReplaced` | src/Repository.MongoDb.Net/Core.Repository.MongoDb/MongoRepository.cs:161 | the zero-match test shared by both branches of Update (lines 161 and 168): nothing matched, or nothing was modified; acknowledgement and modified-count availability are taken as given |
| `MongoRepository.Get` | src/Repository.MongoDb.Net/Core.Repository.MongoDb/MongoRepository.cs:184-187 | returns the stored entity for a present id, none for a missing or null id; the store is not an output |
| `MongoRepository.Delete` | src/Repository.MongoDb.Net/Core.Repository.MongoDb/MongoRepository.cs:195-198 | returns what Get would have returned; for a present id removes exactly that entry; for a missing or null id leaves the store unchanged |
| `MongoRepository.GetAll` | src/Repository.MongoDb.Net/Core.Repository.MongoDb/MongoRepository.cs:206-209 | lists every stored entity exactly once and nothing else |
| `MongoRepository.Pagination` | src/Repository.MongoDb.Net/Core.Repository.MongoDb/MongoRepository.cs:221-229 | a negative skip is a driver error; otherwise the i-th result is the stored entity with exactly skip + i ids before it in the requested direction, and the page holds what remains after skipping, capped by the limit (0 meaning no limit) |
| `Paging.PageUnique` | src/Repository.MongoDb.Net/Core.Repository.MongoDb/MongoRepository.cs:221-229 | a page is determined by the store, skip, limit and direction, so repeated calls on an unchanged collection return the same page |
| `Paging.RankOfSorted` | src/Repository.MongoDb.Net/Core.Repository.MongoDb/MongoRepository.cs:225-228 | in a listing of the store sorted by id, each entity's position equals the number of stored ids before it |
| `Paging.Window` | src/Repository.MongoDb.Net/Core.Repository.MongoDb/MongoRepository.cs:223 | skip-then-limit returns the elements from position skip onwards, as many as the page size allows |
| `IdOrder.SortById` | src/Repository.MongoDb.Net/Core.Repository.MongoDb/MongoRepository.cs:225-228 | the result is a permutation of the input, strictly ordered by id in the requested direction |
| `IdOrder.BeforeStrictTotal` | src/Repository.MongoDb.Net/Core.Repository.MongoDb/MongoRepository.cs:226-228 | the id order is a strict total order, ascending or descending |
| `DocumentStore.InsertOne` | src/Repository.MongoDb.Net/Core.Repository.MongoDb/MongoRepository.cs:118 | a write error iff the id is taken; otherwise the store gains the document under its id and nothing else changes |
| `DocumentStore.ReplaceOne` | src/Repository.MongoDb.Net/Core.Repository.MongoDb/MongoRepository.cs:154-159 | matches one document iff the filter selects a stored document; a modified count of 0 means the store is unchanged; a match replaces that entry |
| `DocumentStore.FindById` | src/Repository.MongoDb.Net/Core.Repository.MongoDb/MongoRepository.cs:186 | finds a document iff one with that id is stored |
| `DocumentStore.FindOneAndDelete` | src/Repository.MongoDb.Net/Core.Repository.MongoDb/MongoRepository.cs:197 | returns the document it finds and removes only that entry; finding none changes nothing |
| `Protocol.StoredVersionAfterUpdate` | src/Repository.MongoDb.Net/Core.Repository.MongoDb/MongoRepository.cs:141-162 | with the version check, a successful update stores the caller's version + 1, which is above the version it replaced |
| `Protocol.UpdateNeverLowersVersions` | src/Repository.MongoDb.Net/Core.Repository.MongoDb/MongoRepository.cs:150-162 | with the version check, no update lowers or removes any stored version |
| `Protocol.FreshReadUpdateSucceeds` | src/Repository.MongoDb.Net/Core.Repository.MongoDb.Tests/MongoRepositoryTest.cs:129-149 | when the stored version is below the largest `long`, updating what Get just returned succeeds in either mode and raises the stored version by exactly one |
| `Protocol.SameReadUpdatesConflict` | src/Repository.MongoDb.Net/Core.Repository.MongoDb.Tests/MongoRepositoryTest.cs:151-169 | when the stored version is below the largest `long`, of two updates built from the same read the first succeeds and the second throws the conflict error and leaves the store unchanged |
| `Protocol.StaleUpdateRejected` | src/Repository.MongoDb.Net/Core.Repository.MongoDb/MongoRepository.cs:150-162 | when the caller's version is below the largest `long`, an update whose new version (caller's + 1) is not above the stored one throws the conflict error and changes nothing |
| `Protocol.MissingIdUpdateConflicts` | src/Repository.MongoDb.Net/Core.Repository.MongoDb/MongoRepository.cs:161-162 | with the version check, an update of an absent or null id throws the same conflict error, and changes nothing |
| `Protocol.IgnoreVersionLosesUpdate` | src/Repository.MongoDb.Net/Core.Repository.MongoDb/MongoRepository.cs:164-170 | without the version check and with clock readings that differ at the store's precision, both updates built from the same read succeed and the second overwrites the first |
| `Protocol.IgnoreVersionMissingId` | src/Repository.MongoDb.Net/Core.Repository.MongoDb/MongoRepository.cs:164-170 | without the version check, an update of an absent id throws the plain entity error "Entity does not exist." and changes nothing |
| `Protocol.MaxVersionAlwaysConflicts` | src/Repository.MongoDb.Net/Core.Repository.MongoDb/MongoRepository.cs:143-162 | with the version check, an entity stored at the largest `long` version can never be updated: every update wraps to the smallest `long`, matches nothing, throws the conflict error and changes nothing |
| `Protocol.InsertSameObjectTwice` | src/Repository.MongoDb.Net/Core.Repository.MongoDb.Tests/MongoRepositoryTest.cs:111-124 | inserting the same object twice fails the second time with the duplicate error and an unchanged store |
| `Protocol.InsertThenGet` | src/Repository.MongoDb.Net/Core.Repository.MongoDb.Tests/MongoRepositoryTest.cs:19-33 | Get after a successful Insert returns the inserted entity (its timestamps as the store keeps them) |
| `Protocol.DeleteThenGet` | src/Repository.MongoDb.Net/Core.Repository.MongoDb.Tests/MongoRepositoryTest.cs:53-73 | Get after Delete of the same id returns none |
| `Protocol.NewEntityLifecycle` | src/Repository.MongoDb.Net/Core/Entity.cs:11-24 | a new entity is inserted under the generated id at version 0, read back unchanged (at the store's timestamp precision), and its first update writes version 1 |
| `Entities.NewEntity` | src/Repository.MongoDb.Net/Core/Entity.cs:21-24 | a new entity has a null id, version 0, default timestamps and a non-null empty metadata map |
| `Entities.Increment` | src/Repository.MongoDb.Net/Core.Repository.MongoDb/MongoRepository.cs:143 | the successor, except that the largest `long` wraps to the smallest; the result is larger exactly when no wrap occurs |
| `Errors.Code` | src/Repository.MongoDb.Net/Core/CoreException.cs:8-20 | the `InternalExceptionCode` each class answers: 1000 for CoreException, 2000, 2100, 2200 and 2300 for the four subclasses (their overrides) |
| `Errors.KindOf` | src/Repository.MongoDb.Net/Core/Repository/EntityException.cs:5 | the runtime class of an error: each of the five constructor shapes belongs to exactly one exception class (the class declarations of the five files) |
| `Errors.Inner` | src/Repository.MongoDb.Net/Core/CoreException.cs:27-30 | the `InnerException` an error was built with; a RepositoryException, whose only constructor takes a message alone, never has one |
| `Errors.ErrorCode` | src/Repository.MongoDb.Net/Core/CoreException.cs:14-20 | the `InternalExceptionCode` of an error instance: the code of its class |
| `Errors.Parent` | src/Repository.MongoDb.Net/Core/Repository/EntityConflictException.cs:9 | each class's direct base: Repository and Entity derive from Core, Duplicate and Conflict from Entity (the class declarations of the five files) |
| `Errors.IsA` | src/Repository.MongoDb.Net/Core/Repository/EntityDuplicateException.cs:10 | the is-a relation of the class hierarchy: a kind is itself or derives from the other through its base classes |
| `Errors.CarriedEntity` | src/Repository.MongoDb.Net/Core/Repository/EntityException.cs:7 | an error carries an entity iff its kind is EntityException or derives from it |
| `Errors.NewCoreException` | src/Repository.MongoDb.Net/Core/CoreException.cs:14-30 | code 1000, the given message and inner cause, no entity |
| `Errors.NewRepositoryException` | src/Repository.MongoDb.Net/Core/Repository/RepositoryException.cs:10-24 | code 2000, a Core error but not an Entity error, the given message, no inner cause, no entity |
| `Errors.NewEntityException` | src/Repository.MongoDb.Net/Core/Repository/EntityException.cs:5-25 | code 2100, a Core error, carries the given entity, message and inner cause |
| `Errors.NewEntityDuplicateException` | src/Repository.MongoDb.Net/Core/Repository/EntityDuplicateException.cs:10-26 | code 2200, an Entity and hence Core error, carries the given entity, message and inner cause |
| `Errors.NewEntityConflictException` | src/Repository.MongoDb.Net/Core/Repository/EntityConflictException.cs:9-25 | code 2300, an Entity and hence Core error, carries the given entity, message and inner cause |
| `Errors.CodesDistinct` | src/Repository.MongoDb.Net/Core/CoreException.cs:8-12 | the five codes are pairwise distinct |
| `Errors.Hierarchy` | src/Repository.MongoDb.Net/Core/Repository/EntityException.cs:5 | every kind is a CoreException; exactly Entity, Duplicate and Conflict are EntityExceptions; only RepositoryException is a RepositoryException |
| `Guard.ThrowIfNull` | src/Repository.MongoDb.Net/Core/Utils/Guard.cs:12-16 | a null source throws ArgumentNullException naming the parameter; a non-null one returns normally |

## Left out

- The driver calls of the constructor (`MongoUrl`, `MongoClient`, `GetDatabase`, `GetCollection`) are not modelled. Their outcomes are parameters: `connectFault` is a failure while parsing the connection string or opening the database, which escapes uncaught; `collectionFault` is a failure of `GetCollection`, which the constructor wraps in a RepositoryException.
- The one-time registration of serialization conventions (MongoClassMapHelper.cs and the static constructor) is library configuration. Documents are stored verbatim, so null-field omission and the extra-elements mapping into `Metadata` are not modelled.
- `async`, `Task` and `CancellationToken` are not modelled: each operation is one synchronous atomic step. Store-side atomicity is assumed. Concurrent calls are sequential interleavings.
- `ObjectId.GenerateNewId()` is a foreign id generator. The generated id is a parameter (`freshId`); if it collides, the model reports the duplicate error, as the server would.
- `DateTime.UtcNow` readings are opaque `Timestamp` parameters. No date arithmetic is done. A `Timestamp` stands for a reading as the store keeps it, in whole milliseconds; the caller's in-memory object may hold finer ticks, so "read back unchanged" and "the readings differ" are meant at the store's precision.
- Unacknowledged writes and an unavailable modified count are not modelled: the replace result is treated as acknowledged with its modified count available.
- Insert's catch of `MongoWriteException` is modelled only for the duplicate-id case. Other write errors are not modelled.
- The `orderBy` argument of Pagination is not modelled, because the code never uses it.
- The driver's batching, and a negative limit's single-batch behaviour, are not modelled. A negative limit is taken by its magnitude.
- Which order GetAll enumerates in is not modelled: the model's order is arbitrary.
- `MongoRepository.BuildCollectionName`: C#'s culture-sensitive `EndsWith("s")` is modelled as an ordinal test of the last character. Culture-ignorable trailing characters are not modelled.
- `Entity.IgnoreVersion()` is an abstract method on the entity. The repository never calls it (it consults its own `IgnoreVersion()`), so it is not modelled.
- ProductRepository.cs only fixes the type parameter. IRepository.cs, IEntity.cs and IVersionable.cs are interface declarations already covered by the entity and repository models.
- `Errors.CarriedEntity`: the entity an entity error carries is typed as an `Entity`, while the C# constructors take any `object`, possibly null. Every call site in the repository passes the guarded, non-null entity. The "iff" is therefore about the errors the model builds, not about `new EntityException(null, …)`.
- Exception messages and inner causes are opaque values. Only their presence and identity are modelled. The private setter of `EntityException.Entity` corresponds to the immutability of the datatype.
