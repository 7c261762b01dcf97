/** The employee store (repository/EmployeeRepository.java) as a map from id
    to row, and the behaviour this model assumes of the persistence layer's
    `save`:
    - a record whose id is null is inserted under a freshly generated id;
    - a record whose id is set but not stored is inserted under that id
      (the id generator keeps an id the entity already carries);
    - a record whose id is stored is merged onto that row: a version that
      differs from the stored one is rejected as stale; a record whose
      updatable columns all equal the row's leaves the row as it is (the
      flush finds nothing dirty and issues no UPDATE, so the version stays);
      otherwise the row takes the record's values, its version advances by
      one and its `createdAt` column (not updatable) keeps the stored value;
    - the @NotNull `jobTitle` is checked before anything is written;
    - on insert a negative version is seeded with 0, and both timestamps
      are stamped with the clock reading (on insert only). */
module Repository {
  import opened Wrappers
  import opened Uuids
  import opened Domain
  import opened Errors

  type Store = map<Uuid, Employee>

  /** What the table guarantees of every row: it sits under its own id, its
      job title is not null and its creation time has been stamped. */
  predicate Persisted(store: Store) {
    forall k :: k in store ==>
      store[k].id == Some(k) && Persistable(store[k]) && store[k].createdAt.Some?
  }

  /** Every stored row except the one under `k` is the same in both stores. */
  predicate OthersUnchanged(before: Store, after: Store, k: Uuid) {
    forall j :: j in before && j != k ==> j in after && after[j] == before[j]
  }

  /** `findById`. */
  function FindById(store: Store, k: Uuid): (r: Option<Employee>)
    ensures r.Some? <==> k in store
    ensures r.Some? ==> r.value == store[k]
  {
    if k in store then Some(store[k]) else None
  }

  /** A successful write: the new store and the entity the call hands back. */
  datatype Saved = Saved(store: Store, entity: Employee)

  /** Insert `e` as a new row under `k`. The seeded version and the
      timestamps are written back into the entity handed back. */
  function Insert(store: Store, e: Employee, k: Uuid, now: Instant): (r: Result<Saved, Failure>)
    requires k !in store
    ensures !Persistable(e) ==> r == Err(ConstraintViolation)
    ensures Persistable(e) ==> r.Ok? && r.value.store.Keys == store.Keys + {k}
    ensures r.Ok? ==> OthersUnchanged(store, r.value.store, k)
    ensures r.Ok? ==> r.value.store[k] == r.value.entity
    ensures r.Ok? ==> r.value.entity.version >= 0
    ensures r.Ok? && e.version >= 0 ==> r.value.entity.version == e.version
    ensures r.Ok? ==>
      r.value.entity == e.(version := SeedVersion(e.version), id := Some(k), createdAt := Some(now), updatedAt := Some(now))
  {
    if !Persistable(e) then Err(ConstraintViolation)
    else
      var row := e.(version := SeedVersion(e.version), id := Some(k), createdAt := Some(now), updatedAt := Some(now));
      Ok(Saved(store[k := row], row))
  }

  /** The dirty check of a flush: some updatable column of `e` differs from
      the stored row. The id, the version and the non-updatable `createdAt`
      take no part. */
  predicate ColumnsDiffer(stored: Employee, e: Employee) {
    || stored.title != e.title
    || stored.firstName != e.firstName
    || stored.lastName != e.lastName
    || stored.jobTitle != e.jobTitle
    || stored.pictureUrl != e.pictureUrl
    || stored.updatedAt != e.updatedAt
  }

  /** Merge `e` onto the stored row under `k`. The entity handed back is the
      one passed in: the version advance happens when the row is written,
      after the caller has read its reply. A merge that changes no updatable
      column writes nothing, so neither the version nor the @NotNull check
      comes into play. */
  function Merge(store: Store, e: Employee, k: Uuid): (r: Result<Saved, Failure>)
    requires k in store
    ensures store[k].version != e.version ==> r == Err(OptimisticLock)
    ensures store[k].version == e.version && !ColumnsDiffer(store[k], e) ==> r == Ok(Saved(store, e))
    ensures store[k].version == e.version && ColumnsDiffer(store[k], e) && !Persistable(e) ==>
      r == Err(ConstraintViolation)
    ensures store[k].version == e.version && (Persistable(e) || !ColumnsDiffer(store[k], e)) ==> r.Ok?
    ensures r.Ok? ==> r.value.store.Keys == store.Keys && OthersUnchanged(store, r.value.store, k)
    ensures r.Ok? ==> r.value.entity == e
    ensures r.Ok? && ColumnsDiffer(store[k], e) ==>
      r.value.store[k] == e.(id := Some(k), version := NextVersion(store[k].version), createdAt := store[k].createdAt)
    ensures r.Ok? ==>
      r.value.store[k].version == if ColumnsDiffer(store[k], e) then NextVersion(store[k].version) else store[k].version
    ensures r.Ok? ==> r.value.store[k].createdAt == store[k].createdAt
  {
    if store[k].version != e.version then Err(OptimisticLock)
    else if !ColumnsDiffer(store[k], e) then Ok(Saved(store, e))
    else if !Persistable(e) then Err(ConstraintViolation)
    else
      var row := e.(id := Some(k), version := NextVersion(e.version), createdAt := store[k].createdAt);
      Ok(Saved(store[k := row], e))
  }

  /** `save`. `freshId` stands for the id the generator would produce; it is
      consulted only for a record without an id. */
  function Save(store: Store, e: Employee, freshId: Uuid, now: Instant): (r: Result<Saved, Failure>)
    requires e.id.None? ==> freshId !in store
    ensures Persisted(store) && !Persistable(e) ==> r.Err?
    ensures r.Ok? ==> SavedKey(e, freshId) in r.value.store
    ensures r.Ok? && Persisted(store) ==> Persistable(r.value.store[SavedKey(e, freshId)])
    ensures r.Ok? ==> r.value.store.Keys == store.Keys + {SavedKey(e, freshId)}
    ensures r.Ok? ==> OthersUnchanged(store, r.value.store, SavedKey(e, freshId))
  {
    match e.id
    case None => Insert(store, e, freshId, now)
    case Some(k) => if k in store then Merge(store, e, k) else Insert(store, e, k, now)
  }

  /** The key a record is saved under. */
  function SavedKey(e: Employee, freshId: Uuid): Uuid {
    if e.id.Some? then e.id.value else freshId
  }

  /** A write never breaks the guarantees the table gives of its rows. */
  lemma SavePreservesPersisted(store: Store, e: Employee, freshId: Uuid, now: Instant)
    requires e.id.None? ==> freshId !in store
    requires Persisted(store)
    ensures Save(store, e, freshId, now).Ok? ==> Persisted(Save(store, e, freshId, now).value.store)
  {
  }
}
