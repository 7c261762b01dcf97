/** The service layer (service/impl/EmployeeServiceImpl.java) over the
    abstract store. Every operation takes the store and, when it writes,
    returns the new one; an error returns no store, so the caller's store is
    the one that stays (the transaction rolls back). */
module Service {
  import opened Wrappers
  import opened Uuids
  import opened Domain
  import opened Dto
  import opened Errors
  import opened Mapper
  import opened Specification
  import opened Repository

  /** A successful write: the store afterwards and the DTO sent back. */
  datatype Reply = Reply(store: Store, dto: EmployeeDto)

  /** The row a create stores for `d` under `k` at time `now`. */
  function CreatedRow(d: EmployeeDto, k: Uuid, now: Instant): Employee {
    Employee(SeedVersion(d.version), Some(k), d.title, d.firstName, d.lastName, d.jobTitle, d.pictureUrl, Some(now), Some(now))
  }

  /** Some DTO property differs from the stored row's column: copying the
      DTO onto the row leaves something for the flush to write. */
  predicate DtoChangesRow(row: Employee, d: EmployeeDto) {
    || row.title != d.title
    || row.firstName != d.firstName
    || row.lastName != d.lastName
    || row.jobTitle != d.jobTitle
    || row.pictureUrl != d.pictureUrl
  }

  /** `createEmployee`: map the DTO to a new entity and save it. `freshId`
      is the id the generator chooses when the DTO carries none. A DTO
      naming a stored id overwrites that row with the entity the mapper
      built, whose `updatedAt` is null: unless that row already equals it
      column for column, the row is written and its version advances. */
  function CreateEmployee(store: Store, d: EmployeeDto, freshId: Uuid, now: Instant): (r: Result<Reply, Failure>)
    requires d.id.None? ==> freshId !in store
    ensures d.id.Some? && !IsUuidText(d.id.value) ==> r == Err(MalformedId(d.id.value))
    ensures d.jobTitle.None? && Persisted(store) ==> r.Err?
    ensures d.id.None? && d.jobTitle.Some? ==>
      r == Ok(Reply(store[freshId := CreatedRow(d, freshId, now)],
                    d.(id := Some(ToString(freshId)), version := SeedVersion(d.version))))
    ensures d.id.Some? && IsUuidText(d.id.value) && FromString(d.id.value).value !in store && d.jobTitle.Some? ==>
      var k := FromString(d.id.value).value;
      r == Ok(Reply(store[k := CreatedRow(d, k, now)], d.(id := Some(ToString(k)), version := SeedVersion(d.version))))
    ensures d.id.Some? && IsUuidText(d.id.value) && FromString(d.id.value).value in store ==>
      var k := FromString(d.id.value).value;
      store[k].version != d.version ==> r == Err(OptimisticLock)
    ensures d.id.Some? && IsUuidText(d.id.value) && FromString(d.id.value).value in store ==>
      var k := FromString(d.id.value).value;
      store[k].version == d.version && !DtoChangesRow(store[k], d) && store[k].updatedAt.None? ==>
        r == Ok(Reply(store, d.(id := Some(ToString(k)))))
    ensures d.id.Some? && IsUuidText(d.id.value) && FromString(d.id.value).value in store && d.jobTitle.Some? ==>
      var k := FromString(d.id.value).value;
      store[k].version == d.version && (DtoChangesRow(store[k], d) || store[k].updatedAt.Some?) ==>
        && r.Ok?
        && r.value.store.Keys == store.Keys
        && OthersUnchanged(store, r.value.store, k)
        && r.value.store[k] == Employee(NextVersion(d.version), Some(k), d.title, d.firstName, d.lastName,
                                        d.jobTitle, d.pictureUrl, store[k].createdAt, None)
        && r.value.dto == d.(id := Some(ToString(k)))
  {
    var e :- DtoToEmployee(d);
    var saved :- Save(store, e, freshId, now);
    Ok(Reply(saved.store, EmployeeToDto(saved.entity)))
  }

  /** The create endpoint: `@Valid` rejects the DTO before the service runs. */
  function ValidatedCreate(store: Store, d: EmployeeDto, freshId: Uuid, now: Instant): (r: Result<Reply, Failure>)
    requires d.id.None? ==> freshId !in store
    ensures !ValidDto(d) ==> r == Err(ValidationFailed(Violations(d)))
    ensures ValidDto(d) && d.id.None? ==> r.Ok? && r.value.store.Keys == store.Keys + {freshId}
  {
    if !ValidDto(d) then Err(ValidationFailed(Violations(d)))
    else CreateEmployee(store, d, freshId, now)
  }

  /** `updateEmployee`: optimistic-lock check against the stored version,
      then merge the DTO onto the stored row and save it. A DTO that changes
      no column leaves the store as it is. */
  function UpdateEmployee(store: Store, k: Uuid, d: EmployeeDto): (r: Result<Reply, Failure>)
    requires Persisted(store)
    ensures k !in store ==> r == Err(NotFound(k))
    ensures k in store && store[k].version != d.version ==> r == Err(OptimisticLock)
    ensures k in store && store[k].version == d.version && d.jobTitle.None? ==> r == Err(ConstraintViolation)
    ensures k in store && store[k].version == d.version && d.jobTitle.Some? ==> r.Ok?
    ensures k in store && store[k].version == d.version && !DtoChangesRow(store[k], d) ==> r.Ok? && r.value.store == store
    ensures r.Ok? ==> k in store && r.value.store.Keys == store.Keys && OthersUnchanged(store, r.value.store, k)
    ensures r.Ok? ==>
      var row := r.value.store[k];
      && row.id == Some(k)
      && row.version == (if DtoChangesRow(store[k], d) then NextVersion(store[k].version) else store[k].version)
      && row.createdAt == store[k].createdAt && row.updatedAt == store[k].updatedAt
      && row.title == d.title && row.firstName == d.firstName && row.lastName == d.lastName
      && row.jobTitle == d.jobTitle && row.pictureUrl == d.pictureUrl
    ensures r.Ok? ==> r.value.dto == d.(id := Some(ToString(k)))
  {
    match FindById(store, k)
    case None => Err(NotFound(k))
    case Some(found) =>
      if found.version != d.version then Err(OptimisticLock)
      else
        var merged := UpdateFromDto(d, found);
        assert merged.id == Some(k);
        // The merged entity carries the stored id k, so save merges: the id
        // handed in for the generator and the clock reading are never read.
        var unusedFreshId := k;
        var unusedClock: Instant := 0;
        var saved :- Save(store, merged, unusedFreshId, unusedClock);
        MergeReadsBackAsDto(d, found);
        Ok(Reply(saved.store, EmployeeToDto(saved.entity)))
  }

  /** `getEmployeeById`: the stored row as a DTO, or NotFound. */
  function GetEmployeeById(store: Store, k: Uuid): (r: Result<EmployeeDto, Failure>)
    ensures k !in store ==> r == Err(NotFound(k))
    ensures k in store ==> r.Ok? && r.value == EmployeeToDto(store[k])
  {
    match FindById(store, k)
    case None => Err(NotFound(k))
    case Some(e) => Ok(EmployeeToDto(e))
  }

  /** No element occurs twice. */
  predicate NoDuplicates<T(==)>(s: seq<T>) {
    forall i, j :: 0 <= i < j < |s| ==> s[i] != s[j]
  }

  /** A listing of the store: every stored key exactly once, in the order
      the store returns its rows. */
  predicate IsListing(listing: seq<Uuid>, store: Store) {
    && (forall i :: 0 <= i < |listing| ==> listing[i] in store)
    && (forall k :: k in store ==> k in listing)
    && NoDuplicates(listing)
  }

  /** The keys of a listing whose rows the filter selects, in listing order. */
  function MatchingKeys(listing: seq<Uuid>, store: Store, f: EmployeeFilter): (ks: seq<Uuid>)
    requires forall i :: 0 <= i < |listing| ==> listing[i] in store
    ensures |ks| <= |listing|
    ensures forall i :: 0 <= i < |ks| ==> ks[i] in store
  {
    if listing == [] then []
    else
      var last := listing[|listing| - 1];
      MatchingKeys(listing[..|listing| - 1], store, f) + (if Matches(f, store[last]) then [last] else [])
  }

  /** A key is among the matching keys exactly when it is listed and its row matches. */
  lemma {:induction false} MatchingKeysMembers(listing: seq<Uuid>, store: Store, f: EmployeeFilter)
    requires forall i :: 0 <= i < |listing| ==> listing[i] in store
    ensures forall k :: k in MatchingKeys(listing, store, f) <==> k in listing && Matches(f, store[k])
  {
    if listing != [] {
      var init := listing[..|listing| - 1];
      MatchingKeysMembers(init, store, f);
      assert listing == init + [listing[|listing| - 1]];
    }
  }

  /** Matching keys drawn from a listing without duplicates have none either. */
  lemma {:induction false} MatchingKeysNoDuplicates(listing: seq<Uuid>, store: Store, f: EmployeeFilter)
    requires forall i :: 0 <= i < |listing| ==> listing[i] in store
    requires NoDuplicates(listing)
    ensures NoDuplicates(MatchingKeys(listing, store, f))
  {
    if listing != [] {
      var init := listing[..|listing| - 1];
      var last := listing[|listing| - 1];
      assert NoDuplicates(init);
      MatchingKeysNoDuplicates(init, store, f);
      MatchingKeysMembers(init, store, f);
      var ks0 := MatchingKeys(init, store, f);
      var ks := MatchingKeys(listing, store, f);
      assert last !in init by {
        assert listing == init + [last];
      }
      forall i, j | 0 <= i < j < |ks|
        ensures ks[i] != ks[j]
      {
        assert ks[i] == ks0[i];
        if j >= |ks0| {
          assert ks[j] == last;
          assert ks0[i] in ks0;
        } else {
          assert ks[j] == ks0[j];
        }
      }
    }
  }

  /** The DTOs of the rows under the given keys, in order. */
  function DtosOf(store: Store, ks: seq<Uuid>): (ds: seq<EmployeeDto>)
    requires forall i :: 0 <= i < |ks| ==> ks[i] in store
    ensures |ds| == |ks|
    ensures forall i :: 0 <= i < |ks| ==> ds[i] == EmployeeToDto(store[ks[i]])
  {
    seq(|ks|, i requires 0 <= i < |ks| => EmployeeToDto(store[ks[i]]))
  }

  /** Two stored rows with the same DTO are the same row. */
  lemma DtoIdentifiesRow(store: Store, k: Uuid, j: Uuid)
    requires Persisted(store) && k in store && j in store
    requires EmployeeToDto(store[k]) == EmployeeToDto(store[j])
    ensures k == j
  {
  }

  /** The DTOs found after examining the first `i` listed rows. */
  function SearchPrefix(store: Store, listing: seq<Uuid>, f: EmployeeFilter, i: nat): seq<EmployeeDto>
    requires forall n :: 0 <= n < |listing| ==> listing[n] in store
    requires i <= |listing|
  {
    DtosOf(store, MatchingKeys(listing[..i], store, f))
  }

  /** One filtering step: the next listed row adds its DTO when it matches. */
  lemma SearchStep(store: Store, listing: seq<Uuid>, f: EmployeeFilter, i: nat)
    requires forall n :: 0 <= n < |listing| ==> listing[n] in store
    requires i < |listing|
    ensures SearchPrefix(store, listing, f, i + 1) ==
      SearchPrefix(store, listing, f, i)
      + (if Matches(f, store[listing[i]]) then [EmployeeToDto(store[listing[i]])] else [])
  {
    assert listing[..i + 1][..i] == listing[..i];
  }

  /** Before any row is examined nothing is found; after all of them the
      DTOs of the whole listing's matching keys are. */
  lemma SearchPrefixEnds(store: Store, listing: seq<Uuid>, f: EmployeeFilter)
    requires forall n :: 0 <= n < |listing| ==> listing[n] in store
    ensures SearchPrefix(store, listing, f, 0) == []
    ensures SearchPrefix(store, listing, f, |listing|) == DtosOf(store, MatchingKeys(listing, store, f))
  {
    assert listing[..|listing|] == listing;
  }

  /** The DTOs of the matching keys hold a stored row's DTO exactly when the filter selects the row. */
  lemma SearchResultMembers(store: Store, listing: seq<Uuid>, f: EmployeeFilter, k: Uuid)
    requires Persisted(store)
    requires IsListing(listing, store)
    requires k in store
    ensures EmployeeToDto(store[k]) in DtosOf(store, MatchingKeys(listing, store, f)) <==> Matches(f, store[k])
  {
    var ks := MatchingKeys(listing, store, f);
    var found := DtosOf(store, ks);
    MatchingKeysMembers(listing, store, f);
    if EmployeeToDto(store[k]) in found {
      var n :| 0 <= n < |found| && found[n] == EmployeeToDto(store[k]);
      DtoIdentifiesRow(store, k, ks[n]);
      assert ks[n] in ks;
    }
    if Matches(f, store[k]) {
      assert k in ks;
      var n :| 0 <= n < |ks| && ks[n] == k;
      assert found[n] == EmployeeToDto(store[k]);
    }
  }

  /** The search result holds, of all stored rows, exactly the DTOs of the matching ones. */
  lemma SearchResultSelects(store: Store, listing: seq<Uuid>, f: EmployeeFilter)
    requires Persisted(store)
    requires IsListing(listing, store)
    ensures forall k :: k in store ==>
      (EmployeeToDto(store[k]) in DtosOf(store, MatchingKeys(listing, store, f)) <==> Matches(f, store[k]))
  {
    forall k | k in store
      ensures EmployeeToDto(store[k]) in DtosOf(store, MatchingKeys(listing, store, f)) <==> Matches(f, store[k])
    {
      SearchResultMembers(store, listing, f, k);
    }
  }

  /** No stored row contributes two DTOs. */
  lemma SearchResultNoDuplicates(store: Store, listing: seq<Uuid>, f: EmployeeFilter)
    requires Persisted(store)
    requires IsListing(listing, store)
    ensures NoDuplicates(DtosOf(store, MatchingKeys(listing, store, f)))
  {
    var ks := MatchingKeys(listing, store, f);
    var found := DtosOf(store, ks);
    MatchingKeysNoDuplicates(listing, store, f);
    forall i, j | 0 <= i < j < |found|
      ensures found[i] != found[j]
    {
      if found[i] == found[j] {
        DtoIdentifiesRow(store, ks[i], ks[j]);
      }
    }
  }

  /** The search result over a whole listing: the DTOs of exactly the
      matching rows, none twice. */
  lemma SearchResult(store: Store, listing: seq<Uuid>, f: EmployeeFilter)
    requires Persisted(store)
    requires IsListing(listing, store)
    ensures forall k :: k in store ==>
      (EmployeeToDto(store[k]) in DtosOf(store, MatchingKeys(listing, store, f)) <==> Matches(f, store[k]))
    ensures NoDuplicates(DtosOf(store, MatchingKeys(listing, store, f)))
  {
    SearchResultSelects(store, listing, f);
    SearchResultNoDuplicates(store, listing, f);
  }

  /** The query's loop over the listed rows: the DTO of every row the
      filter selects, in listing order. */
  method CollectMatching(store: Store, listing: seq<Uuid>, f: EmployeeFilter) returns (found: seq<EmployeeDto>)
    requires forall n :: 0 <= n < |listing| ==> listing[n] in store
    ensures found == DtosOf(store, MatchingKeys(listing, store, f))
  {
    found := [];
    var i := 0;
    SearchPrefixEnds(store, listing, f);
    while i < |listing|
      invariant 0 <= i <= |listing|
      invariant found == SearchPrefix(store, listing, f, i)
    {
      SearchStep(store, listing, f, i);
      var e := store[listing[i]];
      if Matches(f, e) {
        found := found + [EmployeeToDto(e)];
      }
      i := i + 1;
    }
  }

  /** `searchAndFilterEmployees`: null for a null filter; otherwise one DTO
      per stored row the filter selects, in the order the store lists them. */
  method SearchAndFilterEmployees(store: Store, listing: seq<Uuid>, filter: Option<EmployeeFilter>)
    returns (r: Option<seq<EmployeeDto>>)
    requires Persisted(store)
    requires IsListing(listing, store)
    ensures filter.None? <==> r.None?
    ensures filter.Some? ==> r.value == DtosOf(store, MatchingKeys(listing, store, filter.value))
    ensures filter.Some? ==> forall k :: k in store ==>
      (EmployeeToDto(store[k]) in r.value <==> Matches(filter.value, store[k]))
    ensures filter.Some? ==> NoDuplicates(r.value)
  {
    if filter.None? {
      return None;
    }
    var found := CollectMatching(store, listing, filter.value);
    SearchResult(store, listing, filter.value);
    r := Some(found);
  }

  /** The entity properties a listing can be sorted by. */
  const SortableProperties: set<string> :=
    {"version", "id", "title", "firstName", "lastName", "jobTitle", "pictureUrl", "createdAt", "updatedAt"}

  /** The first-result position of the store's paged read: the page's long
      offset `page * pageSize`, narrowed to an `int` before the query runs. */
  function PageOffset(page: Int32, pageSize: Int32): Int32 {
    NarrowToInt(page * pageSize)
  }

  /** An offset past the `int` range wraps: at page 2^29 of size 4 it becomes
      the smallest `int`, at page 2^30 of size 4 it is back at 0. Within the
      range it is the offset itself. */
  lemma PageOffsetNarrows(page: Int32, pageSize: Int32)
    ensures PageOffset(0x2000_0000, 4) == MinInt
    ensures PageOffset(0x4000_0000, 4) == 0
    ensures page * pageSize <= MaxInt && page >= 0 && pageSize >= 1 ==> PageOffset(page, pageSize) == page * pageSize
  {
    assert 0x2000_0000 * 4 == IntRange / 2;
    assert 0x4000_0000 * 4 == IntRange;
  }

  /** `getAllEmployees`: one page of the rows in the order `sorted` gives
      (the store's ascending order on `sortBy`). Page numbers start at 0.
      The rows are read from position `PageOffset(page, pageSize)`; a
      negative position is refused by the query. */
  method GetAllEmployees(store: Store, sorted: seq<Uuid>, page: Int32, pageSize: Int32, sortBy: string)
    returns (r: Result<seq<EmployeeDto>, Failure>)
    requires IsListing(sorted, store)
    ensures page < 0 || pageSize < 1 ==> r == Err(InvalidPageRequest)
    ensures page >= 0 && pageSize >= 1 && sortBy !in SortableProperties ==> r == Err(UnknownSortProperty(sortBy))
    ensures page >= 0 && pageSize >= 1 && sortBy in SortableProperties && PageOffset(page, pageSize) < 0 ==>
      r == Err(NegativeFirstResult)
    ensures page >= 0 && pageSize >= 1 && sortBy in SortableProperties && PageOffset(page, pageSize) >= 0 ==> r.Ok?
    ensures page >= 0 && pageSize >= 1 && sortBy in SortableProperties && page * pageSize <= MaxInt ==> r.Ok?
    ensures r.Ok? ==> |r.value| <= pageSize
    ensures r.Ok? ==> PageOffset(page, pageSize) >= 0
    ensures r.Ok? ==> |r.value| > 0 ==> PageOffset(page, pageSize) + |r.value| <= |sorted|
    ensures r.Ok? ==> |r.value| < pageSize ==> PageOffset(page, pageSize) + |r.value| >= |sorted|
    ensures r.Ok? ==> forall i :: 0 <= i < |r.value| ==>
      r.value[i] == EmployeeToDto(store[sorted[PageOffset(page, pageSize) + i]])
    ensures r.Ok? && page * pageSize <= MaxInt ==> forall i :: 0 <= i < |r.value| ==>
      r.value[i] == EmployeeToDto(store[sorted[page * pageSize + i]])
  {
    if page < 0 || pageSize < 1 {
      return Err(InvalidPageRequest);
    }
    if sortBy !in SortableProperties {
      return Err(UnknownSortProperty(sortBy));
    }
    var start := PageOffset(page, pageSize);
    if start < 0 {
      return Err(NegativeFirstResult);
    }
    var rows: seq<EmployeeDto> := [];
    var i := 0;
    while i < pageSize && start + i < |sorted|
      invariant 0 <= i <= pageSize
      invariant start + i <= |sorted| || i == 0
      invariant |rows| == i
      invariant forall n :: 0 <= n < i ==> rows[n] == EmployeeToDto(store[sorted[start + n]])
    {
      rows := rows + [EmployeeToDto(store[sorted[start + i]])];
      i := i + 1;
    }
    r := Ok(rows);
  }
}

