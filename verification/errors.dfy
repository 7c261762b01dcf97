/** The exceptions the service layer raises, as values. */
module Errors {
  import opened Uuids
  import opened Dto

  datatype Failure =
    | NotFound(id: Uuid)                        // ResourceNotFoundException
    | OptimisticLock                            // OptimisticLockException: stale version
    | ConstraintViolation                       // @NotNull jobTitle rejected when the row is written
    | MalformedId(text: string)                 // UUID.fromString's IllegalArgumentException
    | InvalidPageRequest                        // PageRequest / Sort IllegalArgumentException
    | UnknownSortProperty(name: string)         // sorting by a name that is not an entity property
    | NegativeFirstResult                       // the paged query's IllegalArgumentException for a first result below 0
    | ValidationFailed(violations: set<Violation>)  // @Valid on the create request
}
