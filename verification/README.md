# Employee management service — Dafny model

A model of the service layer of a Spring CRUD service for employee records,
with the record store abstracted to a map from id to row. It covers:

- the **Employee** entity (`Domain`): its optimistic-lock `version`, nullable
  string properties, the non-null `jobTitle` persistence constraint and the
  eight-argument constructor's id rule;
- the **transfer objects** (`Dto`): `EmployeeDTO` with its bean-validation
  limits as the validator's violation set, and the sparse `EmployeeFilter`;
- the **mapper** (`Mapper`): null-preserving id conversion to and from the
  UUID text form (`Uuids`), entity↔DTO mapping, and the merge of a DTO onto
  an entity that never overwrites the id;
- the **filter specification** (`Specification`): one exact-equality clause
  per set filter field, conjoined;
- the **store** (`Repository`): `findById` and the behaviour assumed of
  `save` — insert under a generated or given id with a negative version
  seeded to 0, merge with a version check, the flush's dirty check (a merge
  that changes no updatable column writes nothing), version advance on a
  written update, `createdAt` kept, null `jobTitle` rejected;
- the **service** (`Service`, `ServiceProperties`): create, update with the
  optimistic-lock check, fetch by id, search and filter, paged listing, plus
  the `@Valid` gate the create endpoint puts in front of create;
- the **upstream response handler** (`ErrorHandler`): `hasError` and
  `handleError` as functions of the status code.

Java `null` is `Option.None`; a thrown exception is `Result.Err` carrying an
`Errors.Failure` (or `ErrorHandler.Raised`). A service call that fails returns
no store, so the store the caller holds is unchanged — the model of the
transaction rolling back. Java `int` values are `Domain.Int32`; the version
advance is Java `int` addition and wraps past the largest value. Clock
readings (`now`) and the id generator's choice (`freshId`) are parameters.
The order in which the store returns rows (unsorted for search, sorted by
`sortBy` for listing) is a parameter too: a listing of the stored keys.

Behaviour of the code that the model keeps, although a reader might expect
otherwise:

- The eight-argument constructor does not set `updatedAt`; it stays null.
  Both timestamps are stamped only when a row is inserted (they are creation
  timestamps), so `updatedAt` is never refreshed by an update.
- An update checks only what the entity declares: a `jobTitle` merged to
  null is rejected when the row is written, but a blank one is accepted,
  because `@Valid` runs on the create endpoint only.
- The DTO returned by an update is mapped before the store writes the row,
  so it carries the version the caller sent. The stored version is one more
  when the update changed some column, and the same when it changed none
  (nothing is written then, so sending the same unchanged DTO again succeeds
  again).
- A create whose DTO names a stored id at the stored version overwrites that
  row with a null `updatedAt`; the version advances unless the row already
  held exactly those values.
- The version of a created row is never negative: a negative version in the
  DTO is replaced by 0, in the row and in the reply alike.
- The paged read starts at the page offset `page * pageSize` narrowed to a
  Java `int`. Past the `int` range it wraps: a wrapped offset below 0 is
  refused by the query, and one at or above 0 reads whatever page it lands
  on (page 2^30 of size 4 reads the first page).
- Listing by a `sortBy` that is not an entity property fails rather than
  falling back, and a page number below 0 or a page size below 1 fails too.

## Model

| member | source | states |
|---|---|---|
| `Domain.NoArgEmployee` | src/main/java/com/firstbase/employeemanagement/domain/Employee.java:22-27 | a new entity starts at version 0 with every reference null |
| `Domain.NewEmployee` | src/main/java/com/firstbase/employeemanagement/domain/Employee.java:50-62 | a given id is kept, a null id is replaced by a fresh one so the id is never null; the other seven arguments are copied and `updatedAt` stays null |
| `Domain.NextVersion` | src/main/java/com/firstbase/employeemanagement/domain/Employee.java:25-27 | the `@Version` counter always changes: it advances by one, wrapping from the largest `int` to the smallest |
| `Dto.Utf16LengthBounds` | src/main/java/com/firstbase/employeemanagement/dto/EmployeeDTO.java:17-31 | the length `@Size` measures lies between the character count and twice it, and equals it for text without supplementary characters |
| `Dto.ValidDtoFieldwise` | src/main/java/com/firstbase/employeemanagement/dto/EmployeeDTO.java:17-31 | the validator reports nothing exactly when jobTitle is non-null, non-blank and at most 50 long, title at most 20, first and last name at most 50 and pictureUrl at most 255 when present |
| `Dto.MissingJobTitleInvalid` | src/main/java/com/firstbase/employeemanagement/dto/EmployeeDTO.java:26-28 | a DTO without a job title is invalid and the validator names the NotBlank violation on jobTitle |
| `Uuids.ToString` | src/main/java/com/firstbase/employeemanagement/mapper/EmployeeMapper.java:29 | the text form of an id is 36 characters: lower-case hex digits with dashes at positions 8, 13, 18 and 23 |
| `Uuids.FromString` | src/main/java/com/firstbase/employeemanagement/mapper/EmployeeMapper.java:40 | parsing succeeds exactly on text of that shape with hex digits of either case |
| `Uuids.ParseOfFormat` | src/main/java/com/firstbase/employeemanagement/mapper/EmployeeMapper.java:28-41 | parsing the text form of an id gives the id back |
| `Uuids.FormatOfParse` | src/main/java/com/firstbase/employeemanagement/mapper/EmployeeMapper.java:28-41 | canonical text parses, and the parsed id's text form is that same text |
| `Uuids.FormatOfParseFoldsCase` | src/main/java/com/firstbase/employeemanagement/mapper/EmployeeMapper.java:40 | UUID-shaped text of either case parses, its id's text form is the text in lower case, and lower-casing the text does not change the id |
| `Uuids.ToStringInjective` | src/main/java/com/firstbase/employeemanagement/mapper/EmployeeMapper.java:28-30 | distinct ids have distinct text forms |
| `Mapper.UuidToString` | src/main/java/com/firstbase/employeemanagement/mapper/EmployeeMapper.java:27-30 | null maps to null; an id maps to canonical text that parses back to it |
| `Mapper.StringToUuid` | src/main/java/com/firstbase/employeemanagement/mapper/EmployeeMapper.java:38-41 | null maps to null; text that is not a UUID fails with the malformed-id error; UUID-shaped text of either case succeeds with the id it spells |
| `Mapper.IdRoundTrip` | src/main/java/com/firstbase/employeemanagement/mapper/EmployeeMapper.java:28-41 | id to text and back restores the id, null included |
| `Mapper.IdTextRoundTrip` | src/main/java/com/firstbase/employeemanagement/mapper/EmployeeMapper.java:28-41 | null or canonical text to id and back restores the text |
| `Mapper.EmployeeToDto` | src/main/java/com/firstbase/employeemanagement/mapper/EmployeeMapper.java:43-44 | title, names, jobTitle, pictureUrl and version are carried over and the id is converted to text |
| `Mapper.DtoToEmployee` | src/main/java/com/firstbase/employeemanagement/mapper/EmployeeMapper.java:46-47 | a malformed id text fails; a mapped entity has null timestamps and a null id exactly when the DTO had one |
| `Mapper.UpdateFromDto` | src/main/java/com/firstbase/employeemanagement/mapper/EmployeeMapper.java:49-50 | merging never changes the target's id, createdAt or updatedAt |
| `Mapper.EntityRoundTrip` | src/main/java/com/firstbase/employeemanagement/mapper/EmployeeMapper.java:43-47 | entity to DTO and back loses only the two timestamps |
| `Mapper.DtoRoundTrip` | src/main/java/com/firstbase/employeemanagement/mapper/EmployeeMapper.java:43-47 | a DTO with a null or canonical id maps to an entity and back to itself |
| `Mapper.MergeReadsBackAsDto` | src/main/java/com/firstbase/employeemanagement/mapper/EmployeeMapper.java:43-50 | an entity merged from a DTO reads back as that DTO except for the entity's own id |
| `Specification.Clauses` | src/main/java/com/firstbase/employeemanagement/specs/EmployeeSpecification.java:14-27 | every clause built comes from a set filter field with that field's value, every set field yields its clause, and there are at most four |
| `Specification.MatchesFieldwise` | src/main/java/com/firstbase/employeemanagement/specs/EmployeeSpecification.java:16-25 | `Matches` holds of an employee exactly when, for each of the four properties, the filter leaves it null or the employee holds the filter's value |
| `Specification.ClausesMeanMatches` | src/main/java/com/firstbase/employeemanagement/specs/EmployeeSpecification.java:16-25 | an employee satisfies the conjunction of the built clauses exactly when every set filter field equals the same-named employee property |
| `Specification.EmptyFilterMatchesAll` | src/main/java/com/firstbase/employeemanagement/specs/EmployeeSpecification.java:16 | the all-null filter builds no clause and matches every employee |
| `Specification.NullFieldAddsNoClause` | src/main/java/com/firstbase/employeemanagement/specs/EmployeeSpecification.java:17-24 | a null filter field contributes no clause on its property |
| `Specification.SetFieldRequiresEquality` | src/main/java/com/firstbase/employeemanagement/specs/EmployeeSpecification.java:17-24 | a matching employee holds exactly the value each set filter field gives |
| `Specification.RefinedFilterSelectsFewer` | src/main/java/com/firstbase/employeemanagement/specs/EmployeeSpecification.java:16-25 | setting more filter fields never selects an employee the smaller filter rejects |
| `Repository.FindById` | src/main/java/com/firstbase/employeemanagement/repository/EmployeeRepository.java:23 | a row is found exactly when its key is stored, and it is the stored row |
| `Repository.Insert` | src/main/java/com/firstbase/employeemanagement/domain/Employee.java:28-48 | a null jobTitle is rejected; otherwise exactly one key is added, holding the record with its id, both timestamps stamped and a negative version replaced by 0, that row is what the call hands back, and no other row changes |
| `Repository.Merge` | src/main/java/com/firstbase/employeemanagement/domain/Employee.java:25-46 | a version different from the stored one is rejected as stale; a record equal to the row in every updatable column leaves the store as it is, version included; otherwise a null jobTitle is rejected, and else only that row changes: it becomes the record under id k with its version advanced by one and the stored createdAt |
| `Repository.Save` | src/main/java/com/firstbase/employeemanagement/domain/Employee.java:25-46 | on a store whose rows all have a jobTitle, a record with a null jobTitle is never saved and a successful save leaves a row with a jobTitle; a successful save adds at most the saved key and leaves every other row alone |
| `Repository.SavePreservesPersisted` | src/main/java/com/firstbase/employeemanagement/domain/Employee.java:39-46 | a successful save keeps every row under its own id, with a jobTitle and a creation time |
| `Service.CreateEmployee` | src/main/java/com/firstbase/employeemanagement/service/impl/EmployeeServiceImpl.java:50-53 | a malformed id fails; on a store whose rows all have a jobTitle, a null jobTitle fails; otherwise a DTO without an id (or with an unused one) adds exactly its own row under the new key and is returned with that key as id; a negative version is stored and returned as 0; a DTO naming a stored row with another version fails as stale; one at the stored version that differs from the row in some column, or meets a row with an updatedAt, overwrites only that row with the DTO's values, version one more, createdAt kept and updatedAt null; one equal to the row in every column leaves the store as it is and is returned with the row's id |
| `Service.ValidatedCreate` | src/main/java/com/firstbase/employeemanagement/controller/EmployeeController.java:78-82 | an invalid DTO is refused with its violations before anything is written; a valid DTO without an id is stored under the new key |
| `Service.UpdateEmployee` | src/main/java/com/firstbase/employeemanagement/service/impl/EmployeeServiceImpl.java:56-69 | an absent id fails NotFound; a version different from the stored one fails as stale; a null merged jobTitle fails at the write; a DTO equal to the row in every property leaves the store as it is; otherwise only that row changes: DTO values, same id, version one more exactly when some property changed, timestamps kept; the reply is the DTO with the row's id |
| `Service.GetEmployeeById` | src/main/java/com/firstbase/employeemanagement/service/impl/EmployeeServiceImpl.java:72-78 | a stored id returns its row's DTO, an absent one fails NotFound; the store is not an output |
| `Service.MatchingKeys` | src/main/java/com/firstbase/employeemanagement/service/impl/EmployeeServiceImpl.java:84-85 | the keys the filtered query returns, in listing order: no more than those listed, and all stored |
| `Service.MatchingKeysMembers` | src/main/java/com/firstbase/employeemanagement/service/impl/EmployeeServiceImpl.java:84-85 | a key is returned exactly when it is listed and its row matches the filter |
| `Service.MatchingKeysNoDuplicates` | src/main/java/com/firstbase/employeemanagement/service/impl/EmployeeServiceImpl.java:84-85 | the query returns no key twice |
| `Service.SearchStep` | src/main/java/com/firstbase/employeemanagement/service/impl/EmployeeServiceImpl.java:88-90 | examining one more listed row appends its DTO exactly when it matches |
| `Service.DtoIdentifiesRow` | src/main/java/com/firstbase/employeemanagement/mapper/EmployeeMapper.java:43-44 | two stored rows with equal DTOs are the same row |
| `Service.SearchResultMembers` | src/main/java/com/firstbase/employeemanagement/service/impl/EmployeeServiceImpl.java:81-95 | a stored row's DTO is in the search result exactly when the filter matches the row |
| `Service.SearchResultSelects` | src/main/java/com/firstbase/employeemanagement/service/impl/EmployeeServiceImpl.java:81-95 | of all stored rows, the search result holds exactly the DTOs of those the filter matches |
| `Service.SearchResultNoDuplicates` | src/main/java/com/firstbase/employeemanagement/service/impl/EmployeeServiceImpl.java:81-95 | no DTO appears twice in the search result |
| `Service.SearchResult` | src/main/java/com/firstbase/employeemanagement/service/impl/EmployeeServiceImpl.java:81-95 | over a whole listing, the search result holds a stored row's DTO exactly when the filter matches the row, and no DTO twice |
| `Service.CollectMatching` | src/main/java/com/firstbase/employeemanagement/service/impl/EmployeeServiceImpl.java:84-90 | the filtered query and the loop over its rows yield, in listing order, the DTOs of exactly the keys the filter selects |
| `Service.SearchAndFilterEmployees` | src/main/java/com/firstbase/employeemanagement/service/impl/EmployeeServiceImpl.java:81-95 | null filter gives null; otherwise the result holds one DTO for every stored row the filter matches and nothing else, without repeats, in store order |
| `Service.GetAllEmployees` | src/main/java/com/firstbase/employeemanagement/service/impl/EmployeeServiceImpl.java:98-114 | a negative page or a page size below 1 fails; an unknown sort property fails; the offset page*pageSize is narrowed to an int, and a negative narrowed offset fails; otherwise (always when page*pageSize fits an int) at most pageSize DTOs, those of the rows from the narrowed offset onward in sort order, which is page*pageSize when that fits, and a short page is the last one |
| `Service.PageOffsetNarrows` | src/main/java/com/firstbase/employeemanagement/service/impl/EmployeeServiceImpl.java:99-105 | the page offset is page*pageSize when that fits an int; past the int range it wraps: page 2^29 of size 4 gives the smallest int and page 2^30 of size 4 gives 0 |
| `ServiceProperties.UpdatePreservesPersisted` | src/main/java/com/firstbase/employeemanagement/service/impl/EmployeeServiceImpl.java:56-69 | after a successful update every row still sits under its own id with a jobTitle and a creation time |
| `ServiceProperties.CreatePreservesPersisted` | src/main/java/com/firstbase/employeemanagement/service/impl/EmployeeServiceImpl.java:50-53 | after a successful create every row still sits under its own id with a jobTitle and a creation time |
| `ServiceProperties.RepeatedUpdateIsStale` | src/test/java/com/firstbase/employeemanagement/EmployeeControllerIntegrationTest.java:193-215 | two successive updates at the same version, the first one changing the row: the first succeeds and advances the version (wrapping at the largest int), the second, whatever else it carries, fails as stale |
| `ServiceProperties.RepeatedUnchangedUpdateSucceeds` | src/main/java/com/firstbase/employeemanagement/service/impl/EmployeeServiceImpl.java:56-69 | an update that changes no property writes nothing and replies with the DTO sent, and sending it again gives the same reply on the same store |
| `ServiceProperties.ReadAfterUpdate` | src/main/java/com/firstbase/employeemanagement/service/impl/EmployeeServiceImpl.java:56-78 | fetching an updated row gives the DTO sent, with the row's id and the version advanced exactly when the update changed some property |
| `ServiceProperties.UpdateLeavesOthers` | src/main/java/com/firstbase/employeemanagement/service/impl/EmployeeServiceImpl.java:56-69 | an update leaves every other id fetching as before |
| `ServiceProperties.ReadAfterCreate` | src/main/java/com/firstbase/employeemanagement/service/impl/EmployeeServiceImpl.java:50-53 | a DTO with a jobTitle and no id is created, and fetching the new key gives the DTO sent with that key as id and a negative version replaced by 0, which is also the create's reply |
| `ServiceProperties.CreateWithoutJobTitleRefused` | src/test/java/com/firstbase/employeemanagement/EmployeeControllerIntegrationTest.java:167-177 | a create without a jobTitle is refused by validation and writes nothing; the service alone refuses it too on a store whose rows all have a jobTitle |
| `ServiceProperties.EmptyFilterKeepsAll` | src/main/java/com/firstbase/employeemanagement/specs/EmployeeSpecification.java:16 | the all-null filter keeps every listed key |
| `ServiceProperties.EmptyFilterReturnsAll` | src/test/java/com/firstbase/employeemanagement/EmployeeControllerIntegrationTest.java:142-151 | searching with the all-null filter returns every stored row's DTO |
| `ServiceProperties.SelectionIsPerRow` | src/main/java/com/firstbase/employeemanagement/specs/EmployeeSpecification.java:15-26 | two stores holding the same row under an id agree on returning it, whatever else they hold |
| `ServiceProperties.SeededScenario` | src/test/java/com/firstbase/employeemanagement/EmployeeControllerIntegrationTest.java:193-213 | with rows Dale and Wick at version 0, filtering by lastName Dale keeps Dale alone; updating Dale's job title to Software Manager at version 0 leaves version 1; a second update at version 0, to HR Manager, fails as stale |
| `ErrorHandler.SeriesOf` | src/main/java/com/firstbase/employeemanagement/handler/RestTemplateResponseErrorHandler.java:23-27 | a code has a class exactly in 100..599; it is client error exactly in 400..499 and server error exactly in 500..599 |
| `ErrorHandler.HasError` | src/main/java/com/firstbase/employeemanagement/handler/RestTemplateResponseErrorHandler.java:19-28 | true exactly for 4xx and 5xx, false exactly for 1xx to 3xx, and an unreadable code raises |
| `ErrorHandler.HandleError` | src/main/java/com/firstbase/employeemanagement/handler/RestTemplateResponseErrorHandler.java:30-50 | every 5xx raises the client-error exception with its code, 404 raises API-not-found, other 4xx and 1xx to 3xx return normally |
| `ErrorHandler.RaisesOnlyOnErrors` | src/main/java/com/firstbase/employeemanagement/handler/RestTemplateResponseErrorHandler.java:19-50 | the handler raises only for what hasError reports as an error, and the errors it lets through are exactly the 4xx other than 404 |

## Left out

- Sample-data bootstrap (`insertSampleData`, `fetchEmplDtlsFrmUsrRndmApi`): a network call to an external API and JSON parsing.
- The HTTP controller apart from the `@Valid` gate on create, the application bootstrap and the API documentation: routing and wiring. The controller's parameter defaults (page 0, size 5, sort by lastName, 10 samples) are not modelled.
- The global exception handler: building HTTP response bodies, reading `@ResponseStatus` by reflection, timestamps and logging; failures stay `Failure` values and are not mapped to status codes.
- Logging everywhere.
- The race between `findById` and `save`: calls are modelled one after another, and each call is all-or-nothing.
- The persistence layer itself: the store is a map, `save` is the stated assumption in `Repository`, and the generated id and the clock are parameters. A generated id is assumed not to collide with a stored one.
- Sorting and paging internals: the sorted order of the rows is a parameter, and only the page window and its size bound are modelled.
- Service.GetAllEmployees: a blank `sortBy` is refused by the sort builder before the page arguments are checked; the model checks the page arguments first and reports a blank name as an unknown property. Property paths that the store resolves leniently (nested paths, different capitalisation) are treated as unknown.
- Uuids.FromString: the platform parser also accepts shortened groups such as `1-2-3-4-5`; the model accepts only the 36-character form and rejects the rest as malformed.
- Mapper.StringToUuid: inherits the strict parser above.
- ErrorHandler.HasError: a code in 100..599 that the platform's status enumeration does not name also raises when read; the model classifies it by its hundreds digit.
- ErrorHandler.HandleError: same simplification as for hasError.
- Text is a sequence of Unicode scalar values; `@Size` limits count UTF-16 code units (`Dto.Utf16Length`), and `@NotBlank` uses the trim rule (characters up to U+0020 are blank).
- The test fixture's repository clean-up (`deleteAll`) is not a service operation.
