/** The error taxonomy: the `CoreException` hierarchy with its internal
    codes, plus the two framework exceptions the repository lets escape. */
module Errors {
  import opened Wrappers
  import opened Entities

  const CoreExceptionCode: int := 1000
  const RepositoryExceptionCode: int := 2000
  const EntityExceptionCode: int := 2100
  const EntityDuplicateExceptionCode: int := 2200
  const EntityConflictExceptionCode: int := 2300

  /** One kind per exception class of the hierarchy. */
  datatype Kind = CoreKind | RepositoryKind | EntityKind | DuplicateKind | ConflictKind

  /** `InternalExceptionCode` as each class overrides it. */
  function Code(k: Kind): int {
    match k
    case CoreKind => CoreExceptionCode
    case RepositoryKind => RepositoryExceptionCode
    case EntityKind => EntityExceptionCode
    case DuplicateKind => EntityDuplicateExceptionCode
    case ConflictKind => EntityConflictExceptionCode
  }

  /** The direct base class of each kind; `CoreKind` is the root. */
  function Parent(k: Kind): Option<Kind> {
    match k
    case CoreKind => None
    case RepositoryKind => Some(CoreKind)
    case EntityKind => Some(CoreKind)
    case DuplicateKind => Some(EntityKind)
    case ConflictKind => Some(EntityKind)
  }

  function Depth(k: Kind): nat {
    match k
    case CoreKind => 0
    case RepositoryKind => 1
    case EntityKind => 1
    case DuplicateKind => 2
    case ConflictKind => 2
  }

  /** The is-a relation of the class hierarchy: `k` is `ancestor` or derives
      from it through `Parent`. */
  predicate IsA(k: Kind, ancestor: Kind)
    decreases Depth(k)
  {
    k == ancestor || (Parent(k).Some? && IsA(Parent(k).value, ancestor))
  }

  /** The inner exception a constructor was given, kept opaque. */
  datatype Cause = DuplicateKey(key: string) | Other(description: string)

  /** An instance of one of the five exception classes. */
  datatype CoreError =
    | Core(message: string, inner: Option<Cause>)
    | RepositoryFailure(message: string)
    | EntityFailure(entity: Entity, message: string, inner: Option<Cause>)
    | Duplicate(entity: Entity, message: string, inner: Option<Cause>)
    | Conflict(entity: Entity, message: string, inner: Option<Cause>)

  /** Anything an operation of the repository can throw. */
  datatype Failure =
    | ArgumentNull(paramName: string)
    | ArgumentInvalid(message: string)
    | Raised(error: CoreError)
    | DriverFailure(message: string)

  /** The runtime class of an error. */
  function KindOf(e: CoreError): Kind {
    match e
    case Core(_, _) => CoreKind
    case RepositoryFailure(_) => RepositoryKind
    case EntityFailure(_, _, _) => EntityKind
    case Duplicate(_, _, _) => DuplicateKind
    case Conflict(_, _, _) => ConflictKind
  }

  /** `InternalExceptionCode` of an error. */
  function ErrorCode(e: CoreError): int {
    Code(KindOf(e))
  }

  /** `InnerException`; a `RepositoryException` never has one. */
  function Inner(e: CoreError): (r: Option<Cause>)
    ensures r.Some? ==> KindOf(e) != RepositoryKind
  {
    if e.RepositoryFailure? then None else e.inner
  }

  /** The `Entity` property, which only `EntityException` and its
      subclasses have. */
  function CarriedEntity(e: CoreError): (r: Option<Entity>)
    ensures r.Some? <==> IsA(KindOf(e), EntityKind)
  {
    match e
    case EntityFailure(x, _, _) => Some(x)
    case Duplicate(x, _, _) => Some(x)
    case Conflict(x, _, _) => Some(x)
    case _ => None
  }

  /** Both `CoreException` constructors; `inner == None` is the one-argument form. */
  function NewCoreException(message: string, inner: Option<Cause>): (e: CoreError)
    ensures ErrorCode(e) == CoreExceptionCode
    ensures e.message == message && Inner(e) == inner
    ensures CarriedEntity(e).None?
  {
    Core(message, inner)
  }

  /** The only `RepositoryException` constructor: a message, no inner cause. */
  function NewRepositoryException(message: string): (e: CoreError)
    ensures ErrorCode(e) == RepositoryExceptionCode
    ensures IsA(KindOf(e), CoreKind) && !IsA(KindOf(e), EntityKind)
    ensures e.message == message && Inner(e).None? && CarriedEntity(e).None?
  {
    RepositoryFailure(message)
  }

  /** Both `EntityException` constructors. */
  function NewEntityException(entity: Entity, message: string, inner: Option<Cause>): (e: CoreError)
    ensures ErrorCode(e) == EntityExceptionCode
    ensures IsA(KindOf(e), CoreKind)
    ensures CarriedEntity(e) == Some(entity)
    ensures e.message == message && Inner(e) == inner
  {
    EntityFailure(entity, message, inner)
  }

  /** Both `EntityDuplicateException` constructors. */
  function NewEntityDuplicateException(entity: Entity, message: string, inner: Option<Cause>): (e: CoreError)
    ensures ErrorCode(e) == EntityDuplicateExceptionCode
    ensures IsA(KindOf(e), EntityKind) && IsA(KindOf(e), CoreKind)
    ensures CarriedEntity(e) == Some(entity)
    ensures e.message == message && Inner(e) == inner
  {
    Duplicate(entity, message, inner)
  }

  /** Both `EntityConflictException` constructors. */
  function NewEntityConflictException(entity: Entity, message: string, inner: Option<Cause>): (e: CoreError)
    ensures ErrorCode(e) == EntityConflictExceptionCode
    ensures IsA(KindOf(e), EntityKind) && IsA(KindOf(e), CoreKind)
    ensures CarriedEntity(e) == Some(entity)
    ensures e.message == message && Inner(e) == inner
  {
    Conflict(entity, message, inner)
  }

  /** The five codes are pairwise distinct, so a code identifies its kind. */
  lemma CodesDistinct(a: Kind, b: Kind)
    ensures Code(a) == Code(b) <==> a == b
  {
  }

  /** Every kind is a `CoreException`; exactly the entity-carrying kinds are
      `EntityException`s. */
  lemma Hierarchy(k: Kind)
    ensures IsA(k, CoreKind)
    ensures IsA(k, EntityKind) <==> k == EntityKind || k == DuplicateKind || k == ConflictKind
    ensures IsA(k, RepositoryKind) <==> k == RepositoryKind
  {
  }
}
