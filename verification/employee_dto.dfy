/** The transfer objects (dto/EmployeeDTO.java, dto/EmployeeFilter.java) and
    the bean-validation constraints declared on EmployeeDTO. */
module Dto {
  import opened Wrappers
  import opened Domain

  /** What the service receives and returns; the id travels as text. */
  datatype EmployeeDto = EmployeeDto(
    id: Option<string>,
    title: Option<string>,       // @Size(max = 20)
    firstName: Option<string>,   // @Size(max = 50)
    lastName: Option<string>,    // @Size(max = 50)
    jobTitle: Option<string>,    // @NotBlank @Size(max = 50)
    pictureUrl: Option<string>,  // @Size(max = 255)
    version: Int32)

  /** The sparse search filter: a null field imposes nothing. */
  datatype EmployeeFilter = EmployeeFilter(
    firstName: Option<string>,
    lastName: Option<string>,
    title: Option<string>,
    jobTitle: Option<string>)

  const TitleMax: nat := 20
  const NameMax: nat := 50
  const JobTitleMax: nat := 50
  const PictureUrlMax: nat := 255

  /** `String.length()`: the number of UTF-16 code units, so a character
      outside the Basic Multilingual Plane counts twice. */
  function Utf16Length(s: string): nat {
    if s == [] then 0
    else (if s[0] as int > 0xFFFF then 2 else 1) + Utf16Length(s[1..])
  }

  /** Lies between the character count and twice of it, and equals the
      character count when no character needs a surrogate pair. */
  lemma {:induction false} Utf16LengthBounds(s: string)
    ensures |s| <= Utf16Length(s) <= 2 * |s|
    ensures (forall i :: 0 <= i < |s| ==> s[i] as int <= 0xFFFF) ==> Utf16Length(s) == |s|
  {
    if s != [] {
      Utf16LengthBounds(s[1..]);
      if forall i :: 0 <= i < |s| ==> s[i] as int <= 0xFFFF {
        assert forall i :: 0 <= i < |s[1..]| ==> s[1..][i] == s[i + 1];
      }
    }
  }

  /** Blank in the sense of @NotBlank: nothing is left after `trim()`, which
      strips every character up to and including U+0020. */
  predicate IsBlank(s: string) {
    forall i :: 0 <= i < |s| ==> s[i] <= ' '
  }

  datatype DtoField = TitleField | FirstNameField | LastNameField | JobTitleField | PictureUrlField

  datatype Constraint = NotBlank | SizeMax(max: nat)

  /** One constraint violation as the validator reports it. */
  datatype Violation = Violation(field: DtoField, constraint: Constraint)

  /** @Size(max): a null value is valid. */
  function SizeViolations(field: DtoField, value: Option<string>, max: nat): set<Violation> {
    if value.Some? && Utf16Length(value.value) > max then {Violation(field, SizeMax(max))} else {}
  }

  /** @NotBlank: a null value is invalid. */
  function NotBlankViolations(field: DtoField, value: Option<string>): set<Violation> {
    if value.None? || IsBlank(value.value) then {Violation(field, NotBlank)} else {}
  }

  /** Every violation of the constraints declared on EmployeeDTO. */
  function Violations(d: EmployeeDto): set<Violation> {
    SizeViolations(TitleField, d.title, TitleMax)
    + SizeViolations(FirstNameField, d.firstName, NameMax)
    + SizeViolations(LastNameField, d.lastName, NameMax)
    + NotBlankViolations(JobTitleField, d.jobTitle)
    + SizeViolations(JobTitleField, d.jobTitle, JobTitleMax)
    + SizeViolations(PictureUrlField, d.pictureUrl, PictureUrlMax)
  }

  /** What `@Valid` accepts: the validator reports nothing. */
  predicate ValidDto(d: EmployeeDto) {
    Violations(d) == {}
  }

  /** Within a length bound, null counting as within every bound. */
  predicate WithinLength(value: Option<string>, max: nat) {
    value.None? || Utf16Length(value.value) <= max
  }

  /** The validator's verdict stated field by field. */
  lemma ValidDtoFieldwise(d: EmployeeDto)
    ensures ValidDto(d) <==>
      && d.jobTitle.Some? && !IsBlank(d.jobTitle.value)
      && Utf16Length(d.jobTitle.value) <= JobTitleMax
      && WithinLength(d.title, TitleMax)
      && WithinLength(d.firstName, NameMax)
      && WithinLength(d.lastName, NameMax)
      && WithinLength(d.pictureUrl, PictureUrlMax)
  {
  }

  /** A DTO without a job title is never valid, whatever else it carries. */
  lemma MissingJobTitleInvalid(d: EmployeeDto)
    requires d.jobTitle.None?
    ensures !ValidDto(d)
    ensures Violation(JobTitleField, NotBlank) in Violations(d)
  {
  }
}
