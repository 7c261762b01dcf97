/** Mapping between the entity and its transfer object (mapper/EmployeeMapper.java). */
module Mapper {
  import opened Wrappers
  import opened Uuids
  import opened Domain
  import opened Dto
  import opened Errors

  /** `uuidToString`: null stays null, anything else becomes its text form. */
  function UuidToString(id: Option<Uuid>): (r: Option<string>)
    ensures r.None? <==> id.None?
    ensures r.Some? ==> IsCanonicalText(r.value) && FromString(r.value) == id
  {
    match id
    case None => None
    case Some(u) => ParseOfFormat(u); Some(ToString(u))
  }

  /** `stringToUUID`: null stays null; text that is not a UUID throws. */
  function StringToUuid(s: Option<string>): (r: Result<Option<Uuid>, Failure>)
    ensures s.None? ==> r == Ok(None)
    ensures s.Some? && !IsUuidText(s.value) ==> r == Err(MalformedId(s.value))
    ensures s.Some? && IsUuidText(s.value) ==> r == Ok(Some(FromString(s.value).value))
    ensures r.Ok? && s.Some? ==> r.value.Some? && IsUuidText(s.value)
  {
    match s
    case None => Ok(None)
    case Some(t) =>
      match FromString(t)
      case None => Err(MalformedId(t))
      case Some(u) => Ok(Some(u))
  }

  /** Converting an identifier to text and back restores it, null included. */
  lemma IdRoundTrip(id: Option<Uuid>)
    ensures StringToUuid(UuidToString(id)) == Ok(id)
  {
  }

  /** Converting canonical text to an identifier and back restores the text. */
  lemma IdTextRoundTrip(s: Option<string>)
    requires s.Some? ==> IsCanonicalText(s.value)
    ensures StringToUuid(s).Ok? && UuidToString(StringToUuid(s).value) == s
  {
    if s.Some? {
      FormatOfParse(s.value);
    }
  }

  /** `employeeToEmployeeDTO`: every DTO property is read from the entity of the same name. */
  function EmployeeToDto(e: Employee): (d: EmployeeDto)
    ensures d.id == UuidToString(e.id)
    ensures d.title == e.title && d.firstName == e.firstName && d.lastName == e.lastName
    ensures d.jobTitle == e.jobTitle && d.pictureUrl == e.pictureUrl && d.version == e.version
  {
    EmployeeDto(UuidToString(e.id), e.title, e.firstName, e.lastName, e.jobTitle, e.pictureUrl, e.version)
  }

  /** `employeeDTOtoEmployee`: a fresh entity from the no-argument constructor
      with every DTO property set on it; the timestamps stay null. */
  function DtoToEmployee(d: EmployeeDto): (r: Result<Employee, Failure>)
    ensures d.id.Some? && !IsUuidText(d.id.value) ==> r == Err(MalformedId(d.id.value))
    ensures r.Ok? ==> r.value.createdAt.None? && r.value.updatedAt.None?
    ensures r.Ok? ==> r.value.id.None? == d.id.None?
  {
    var id :- StringToUuid(d.id);
    Ok(NoArgEmployee().(version := d.version, id := id, title := d.title, firstName := d.firstName,
                        lastName := d.lastName, jobTitle := d.jobTitle, pictureUrl := d.pictureUrl))
  }

  /** `updateEmployeeFromDTO`: copies every DTO property onto the entity, a
      null one included, except the id; the timestamps are not DTO properties. */
  function UpdateFromDto(d: EmployeeDto, e: Employee): (r: Employee)
    ensures r.id == e.id
    ensures r.createdAt == e.createdAt && r.updatedAt == e.updatedAt
  {
    e.(version := d.version, title := d.title, firstName := d.firstName, lastName := d.lastName,
       jobTitle := d.jobTitle, pictureUrl := d.pictureUrl)
  }

  /** Entity to DTO and back loses only the timestamps. */
  lemma EntityRoundTrip(e: Employee)
    ensures DtoToEmployee(EmployeeToDto(e)) == Ok(e.(createdAt := None, updatedAt := None))
  {
  }

  /** DTO to entity and back restores the DTO when its id is null or canonical. */
  lemma DtoRoundTrip(d: EmployeeDto)
    requires d.id.Some? ==> IsCanonicalText(d.id.value)
    ensures DtoToEmployee(d).Ok? && EmployeeToDto(DtoToEmployee(d).value) == d
  {
    IdTextRoundTrip(d.id);
  }

  /** After a merge the entity reads back as the DTO, except that the id is the entity's own. */
  lemma MergeReadsBackAsDto(d: EmployeeDto, e: Employee)
    ensures EmployeeToDto(UpdateFromDto(d, e)) == d.(id := UuidToString(e.id))
  {
  }
}
