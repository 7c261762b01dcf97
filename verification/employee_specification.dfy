/** The search filter (specs/EmployeeSpecification.java): every field the
    filter sets adds one exact-equality clause, and the clauses are conjoined. */
module Specification {
  import opened Wrappers
  import opened Domain
  import opened Dto

  /** The employee properties a filter can constrain. */
  datatype Field = FirstName | LastName | Title | JobTitle

  /** One equality clause `root.get(field) = value`. */
  datatype Clause = Equal(field: Field, value: string)

  /** The value a filter gives for a property; null imposes nothing. */
  function FilterValue(f: EmployeeFilter, field: Field): Option<string> {
    match field
    case FirstName => f.firstName
    case LastName => f.lastName
    case Title => f.title
    case JobTitle => f.jobTitle
  }

  /** The value an employee holds in a property. */
  function FieldValue(e: Employee, field: Field): Option<string> {
    match field
    case FirstName => e.firstName
    case LastName => e.lastName
    case Title => e.title
    case JobTitle => e.jobTitle
  }

  /** The clause a property contributes: none when the filter leaves it null. */
  function ClauseFor(f: EmployeeFilter, field: Field): seq<Clause> {
    if FilterValue(f, field).Some? then [Equal(field, FilterValue(f, field).value)] else []
  }

  /** `employeeSearchAndFilter`: the clauses added to the empty conjunction,
      in the order the properties are examined. */
  function Clauses(f: EmployeeFilter): (r: seq<Clause>)
    ensures forall c :: c in r ==> FilterValue(f, c.field) == Some(c.value)
    ensures forall field :: FilterValue(f, field).Some? ==> Equal(field, FilterValue(f, field).value) in r
    ensures |r| <= 4
  {
    ClauseFor(f, FirstName) + ClauseFor(f, LastName) + ClauseFor(f, Title) + ClauseFor(f, JobTitle)
  }

  /** SQL equality against a column: a null column never equals a value. */
  predicate Holds(c: Clause, e: Employee) {
    FieldValue(e, c.field) == Some(c.value)
  }

  /** The predicate the store evaluates: the conjunction of the clauses. */
  predicate SatisfiesAll(cs: seq<Clause>, e: Employee) {
    forall i :: 0 <= i < |cs| ==> Holds(cs[i], e)
  }

  /** Whether an employee is selected by the filter: every set filter field
      equals the employee's property of the same name. */
  predicate Matches(f: EmployeeFilter, e: Employee) {
    && (f.firstName.None? || e.firstName == f.firstName)
    && (f.lastName.None? || e.lastName == f.lastName)
    && (f.title.None? || e.title == f.title)
    && (f.jobTitle.None? || e.jobTitle == f.jobTitle)
  }

  /** `Matches` stated property by property: every field is either unset in
      the filter or equal in the employee. */
  lemma MatchesFieldwise(f: EmployeeFilter, e: Employee)
    ensures Matches(f, e) <==> forall field :: FilterValue(f, field).None? || FieldValue(e, field) == FilterValue(f, field)
  {
    assert FilterValue(f, FirstName) == f.firstName && FieldValue(e, FirstName) == e.firstName;
    assert FilterValue(f, LastName) == f.lastName && FieldValue(e, LastName) == e.lastName;
    assert FilterValue(f, Title) == f.title && FieldValue(e, Title) == e.title;
    assert FilterValue(f, JobTitle) == f.jobTitle && FieldValue(e, JobTitle) == e.jobTitle;
  }

  /** The built conjunction selects exactly the employees `Matches` describes. */
  lemma ClausesMeanMatches(f: EmployeeFilter, e: Employee)
    ensures SatisfiesAll(Clauses(f), e) <==> Matches(f, e)
  {
    MatchesFieldwise(f, e);
    var cs := Clauses(f);
    if SatisfiesAll(cs, e) {
      forall field | FilterValue(f, field).Some?
        ensures FieldValue(e, field) == FilterValue(f, field)
      {
        var i :| 0 <= i < |cs| && cs[i] == Equal(field, FilterValue(f, field).value);
        assert Holds(cs[i], e);
      }
    }
    if Matches(f, e) {
      forall i | 0 <= i < |cs|
        ensures Holds(cs[i], e)
      {
        assert cs[i] in cs;
      }
    }
  }

  /** The filter that sets nothing. */
  const EmptyFilter: EmployeeFilter := EmployeeFilter(None, None, None, None)

  /** A filter with every field null builds no clause and selects everyone. */
  lemma EmptyFilterMatchesAll(e: Employee)
    ensures Clauses(EmptyFilter) == []
    ensures Matches(EmptyFilter, e)
  {
  }

  /** A null filter field adds no clause for that property. */
  lemma NullFieldAddsNoClause(f: EmployeeFilter, field: Field)
    requires FilterValue(f, field).None?
    ensures forall c :: c in Clauses(f) ==> c.field != field
  {
  }

  /** A set filter field demands exact equality of the same-named property. */
  lemma SetFieldRequiresEquality(f: EmployeeFilter, field: Field, e: Employee)
    requires FilterValue(f, field).Some?
    requires Matches(f, e)
    ensures FieldValue(e, field) == FilterValue(f, field)
  {
  }

  /** `g` sets every field `f` sets, to the same value, and possibly more. */
  predicate Refines(g: EmployeeFilter, f: EmployeeFilter) {
    forall field :: FilterValue(f, field).Some? ==> FilterValue(g, field) == FilterValue(f, field)
  }

  /** Setting more filter fields never selects more employees. */
  lemma RefinedFilterSelectsFewer(g: EmployeeFilter, f: EmployeeFilter, e: Employee)
    requires Refines(g, f)
    requires Matches(g, e)
    ensures Matches(f, e)
  {
    assert FilterValue(f, FirstName) == f.firstName && FilterValue(g, FirstName) == g.firstName;
    assert FilterValue(f, LastName) == f.lastName && FilterValue(g, LastName) == g.lastName;
    assert FilterValue(f, Title) == f.title && FilterValue(g, Title) == g.title;
    assert FilterValue(f, JobTitle) == f.jobTitle && FilterValue(g, JobTitle) == g.jobTitle;
  }
}
