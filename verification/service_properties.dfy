/** Properties that relate several calls of the service layer. */
module ServiceProperties {
  import opened Wrappers
  import opened Uuids
  import opened Domain
  import opened Dto
  import opened Errors
  import opened Mapper
  import opened Specification
  import opened Repository
  import opened Service

  /** A successful update keeps every row well-formed. */
  lemma UpdatePreservesPersisted(store: Store, k: Uuid, d: EmployeeDto)
    requires Persisted(store)
    ensures UpdateEmployee(store, k, d).Ok? ==> Persisted(UpdateEmployee(store, k, d).value.store)
  {
  }

  /** A successful create keeps every row well-formed. */
  lemma CreatePreservesPersisted(store: Store, d: EmployeeDto, freshId: Uuid, now: Instant)
    requires Persisted(store)
    requires d.id.None? ==> freshId !in store
    ensures CreateEmployee(store, d, freshId, now).Ok? ==> Persisted(CreateEmployee(store, d, freshId, now).value.store)
  {
  }

  /** Two successive updates at the same version: when the first changes
      the row, it advances the version by one, so the second one, whatever
      else it carries, has a stale version and is rejected, leaving the
      first one's store in place. */
  lemma RepeatedUpdateIsStale(store: Store, k: Uuid, d: EmployeeDto, d2: EmployeeDto)
    requires Persisted(store)
    requires k in store && store[k].version == d.version
    requires d.jobTitle.Some?
    requires DtoChangesRow(store[k], d)
    requires d2.version == d.version
    ensures UpdateEmployee(store, k, d).Ok?
    ensures UpdateEmployee(store, k, d).value.store[k].version == NextVersion(d.version)
    ensures Persisted(UpdateEmployee(store, k, d).value.store)
    ensures UpdateEmployee(UpdateEmployee(store, k, d).value.store, k, d2) == Err(OptimisticLock)
  {
  }

  /** Submitting an update that changes nothing: no row is written, the
      version stays, and submitting it again succeeds the same way. */
  lemma RepeatedUnchangedUpdateSucceeds(store: Store, k: Uuid, d: EmployeeDto)
    requires Persisted(store)
    requires k in store && store[k].version == d.version
    requires !DtoChangesRow(store[k], d)
    ensures UpdateEmployee(store, k, d) == Ok(Reply(store, d.(id := Some(ToString(k)))))
    ensures UpdateEmployee(UpdateEmployee(store, k, d).value.store, k, d) == UpdateEmployee(store, k, d)
  {
  }

  /** Reading a row back after updating it gives the DTO that was sent, with
      the row's own id, and the version advanced exactly when the update
      changed the row. */
  lemma ReadAfterUpdate(store: Store, k: Uuid, d: EmployeeDto)
    requires Persisted(store)
    requires UpdateEmployee(store, k, d).Ok?
    ensures k in store
    ensures GetEmployeeById(UpdateEmployee(store, k, d).value.store, k)
      == Ok(d.(id := Some(ToString(k)),
               version := if DtoChangesRow(store[k], d) then NextVersion(d.version) else d.version))
  {
  }

  /** An update leaves every other row reading as before. */
  lemma UpdateLeavesOthers(store: Store, k: Uuid, d: EmployeeDto, j: Uuid)
    requires Persisted(store)
    requires UpdateEmployee(store, k, d).Ok?
    requires j != k
    ensures GetEmployeeById(UpdateEmployee(store, k, d).value.store, j) == GetEmployeeById(store, j)
  {
  }

  /** Reading a row back after creating it without an id gives the DTO that
      was sent, with the generated id and a negative version seeded with 0;
      the create's own reply is that same DTO. */
  lemma ReadAfterCreate(store: Store, d: EmployeeDto, freshId: Uuid, now: Instant)
    requires d.id.None? && freshId !in store
    requires d.jobTitle.Some?
    ensures CreateEmployee(store, d, freshId, now).Ok?
    ensures GetEmployeeById(CreateEmployee(store, d, freshId, now).value.store, freshId)
      == Ok(d.(id := Some(ToString(freshId)), version := if d.version < 0 then 0 else d.version))
    ensures GetEmployeeById(CreateEmployee(store, d, freshId, now).value.store, freshId)
      == Ok(CreateEmployee(store, d, freshId, now).value.dto)
  {
  }

  /** A create request without a job title is refused at validation and
      writes nothing; the service behind it refuses it too, on any store
      whose rows all have a job title. */
  lemma CreateWithoutJobTitleRefused(store: Store, d: EmployeeDto, freshId: Uuid, now: Instant)
    requires d.id.None? ==> freshId !in store
    requires d.jobTitle.None?
    ensures ValidatedCreate(store, d, freshId, now).Err?
    ensures ValidatedCreate(store, d, freshId, now).error.ValidationFailed?
    ensures Persisted(store) ==> CreateEmployee(store, d, freshId, now).Err?
  {
  }

  /** The empty filter keeps every listed key. */
  lemma {:induction false} EmptyFilterKeepsAll(listing: seq<Uuid>, store: Store)
    requires forall i :: 0 <= i < |listing| ==> listing[i] in store
    ensures MatchingKeys(listing, store, EmptyFilter) == listing
  {
    if listing != [] {
      var init := listing[..|listing| - 1];
      EmptyFilterKeepsAll(init, store);
      EmptyFilterMatchesAll(store[listing[|listing| - 1]]);
      assert listing == init + [listing[|listing| - 1]];
    }
  }

  /** Searching with every filter field null returns one DTO for every
      stored row, in listing order. */
  lemma EmptyFilterReturnsAll(store: Store, listing: seq<Uuid>)
    requires IsListing(listing, store)
    ensures DtosOf(store, MatchingKeys(listing, store, EmptyFilter)) == DtosOf(store, listing)
  {
    EmptyFilterKeepsAll(listing, store);
  }

  /** Whether a row is returned depends only on that row and the filter:
      two stores holding the same row under `k` agree on returning it. */
  lemma SelectionIsPerRow(s1: Store, l1: seq<Uuid>, s2: Store, l2: seq<Uuid>, f: EmployeeFilter, k: Uuid)
    requires Persisted(s1) && IsListing(l1, s1)
    requires Persisted(s2) && IsListing(l2, s2)
    requires k in s1 && k in s2 && s1[k] == s2[k]
    ensures EmployeeToDto(s1[k]) in DtosOf(s1, MatchingKeys(l1, s1, f))
        <==> EmployeeToDto(s2[k]) in DtosOf(s2, MatchingKeys(l2, s2, f))
  {
    SearchResultMembers(s1, l1, f, k);
    SearchResultMembers(s2, l2, f, k);
  }

  /** Two seeded rows that differ in their last names. */
  const IdA: Uuid := seq(32, _ => 10)
  const IdB: Uuid := seq(32, _ => 11)
  const RowA: Employee := Employee(0, Some(IdA), Some("Miss"), Some("Kathrine"), Some("Dale"),
                                   Some("Backend Developer"), None, Some(1), Some(1))
  const RowB: Employee := Employee(0, Some(IdB), Some("Mr"), Some("John"), Some("Wick"),
                                   Some("Front End Developer"), None, Some(1), Some(1))
  const Seeded: Store := map[IdA := RowA, IdB := RowB]

  /** The seeded store meets the table invariant and `[IdA, IdB]` lists it. */
  lemma SeededStore()
    ensures Persisted(Seeded) && IsListing([IdA, IdB], Seeded)
  {
    assert IdA != IdB by {
      assert IdA[0] != IdB[0];
    }
  }

  /** Filtering the seeded store by last name "Dale" selects A alone. */
  lemma SeededFilter()
    ensures MatchingKeys([IdA, IdB], Seeded, EmployeeFilter(None, Some("Dale"), None, None)) == [IdA]
  {
    SeededStore();
    var f := EmployeeFilter(None, Some("Dale"), None, None);
    assert [IdA, IdB][..1] == [IdA];
    assert [IdA][..0] == [];
    assert !Matches(f, RowB) by {
      assert "Wick"[0] != "Dale"[0];
    }
  }

  /** Filtering by last name "Dale" selects A alone; updating A's job title
      at version 0 succeeds and leaves it at version 1; a second update at
      version 0, to another job title, is rejected as stale. */
  lemma SeededScenario()
    ensures Persisted(Seeded) && IsListing([IdA, IdB], Seeded)
    ensures MatchingKeys([IdA, IdB], Seeded, EmployeeFilter(None, Some("Dale"), None, None)) == [IdA]
    ensures var d := EmployeeToDto(RowA).(jobTitle := Some("Software Manager"));
      var d2 := EmployeeToDto(RowA).(jobTitle := Some("HR Manager"));
      && UpdateEmployee(Seeded, IdA, d).Ok?
      && UpdateEmployee(Seeded, IdA, d).value.store[IdA].version == 1
      && UpdateEmployee(UpdateEmployee(Seeded, IdA, d).value.store, IdA, d2) == Err(OptimisticLock)
  {
    SeededStore();
    SeededFilter();
    var d := EmployeeToDto(RowA).(jobTitle := Some("Software Manager"));
    var d2 := EmployeeToDto(RowA).(jobTitle := Some("HR Manager"));
    assert DtoChangesRow(RowA, d) by {
      assert "Software Manager"[0] != "Backend Developer"[0];
    }
    RepeatedUpdateIsStale(Seeded, IdA, d, d2);
  }
}
