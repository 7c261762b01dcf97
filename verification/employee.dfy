/** The Employee entity (domain/Employee.java): the persisted record with its
    optimistic-lock counter, its identifier and its two timestamps. */
module Domain {
  import opened Wrappers
  import opened Uuids

  const MinInt: int := -0x8000_0000
  const MaxInt: int := 0x7fff_ffff

  /** A Java `int`. */
  type Int32 = x: int | MinInt <= x <= MaxInt

  /** The number of distinct Java `int` values. */
  const IntRange: int := 0x1_0000_0000

  /** A Java narrowing cast `(int)` of a wider integer: keep the low 32 bits
      and read them as two's complement. */
  function NarrowToInt(x: int): (y: Int32)
    ensures (y - x) % IntRange == 0
    ensures MinInt <= x <= MaxInt ==> y == x
  {
    var low := x % IntRange;
    if low > MaxInt then low - IntRange else low
  }

  /** A point in time. Clock readings enter the model as parameters. */
  type Instant = int

  /** One employee row. Every reference-typed Java field may be null. */
  datatype Employee = Employee(
    version: Int32,              // the @Version optimistic-lock counter
    id: Option<Uuid>,
    title: Option<string>,
    firstName: Option<string>,
    lastName: Option<string>,
    jobTitle: Option<string>,    // @NotNull: never null in a persisted row
    pictureUrl: Option<string>,
    createdAt: Option<Instant>,  // set on insert, never updated afterwards
    updatedAt: Option<Instant>)

  /** The no-argument constructor: the counter starts at 0, every reference is null. */
  function NoArgEmployee(): (e: Employee)
    ensures e.version == 0
    ensures e.id.None? && e.title.None? && e.firstName.None? && e.lastName.None?
    ensures e.jobTitle.None? && e.pictureUrl.None? && e.createdAt.None? && e.updatedAt.None?
  {
    Employee(0, None, None, None, None, None, None, None, None)
  }

  /** The eight-argument constructor. A null `id` is replaced by `freshId`,
      which stands for `UUID.randomUUID()`; `updatedAt` is left null. */
  function NewEmployee(version: Int32, id: Option<Uuid>, title: Option<string>,
                       firstName: Option<string>, lastName: Option<string>,
                       jobTitle: Option<string>, pictureUrl: Option<string>,
                       createdAt: Option<Instant>, freshId: Uuid): (e: Employee)
    ensures e.id.Some?
    ensures id.Some? ==> e.id == id
    ensures id.None? ==> e.id == Some(freshId)
    ensures e.version == version && e.title == title && e.firstName == firstName
    ensures e.lastName == lastName && e.jobTitle == jobTitle && e.pictureUrl == pictureUrl
    ensures e.createdAt == createdAt && e.updatedAt.None?
  {
    var given := if id.Some? then id else Some(freshId);
    Employee(version, given, title, firstName, lastName, jobTitle, pictureUrl, createdAt, None)
  }

  /** The @NotNull bean constraint checked before a row is written. */
  predicate Persistable(e: Employee) {
    e.jobTitle.Some?
  }

  /** The increment the store applies to the @Version counter on every
      update: Java `int` addition, which wraps past the largest value. */
  function NextVersion(v: Int32): (w: Int32)
    ensures v < MaxInt ==> w == v + 1
    ensures v == MaxInt ==> w == MinInt
    ensures w != v
  {
    if v == MaxInt then MinInt else v + 1
  }

  /** The version a row is inserted with: a negative version counts as
      unset and is seeded with 0, any other is kept. */
  function SeedVersion(v: Int32): (w: Int32)
    ensures w >= 0
    ensures v >= 0 ==> w == v
    ensures v < 0 ==> w == 0
  {
    if v < 0 then 0 else v
  }
}
