/** The request body of the add-course endpoint and its data-annotation
    rules: `CourseId` is `[Required]`; `CourseName` is `[Required]` and
    `[StringLength(100, MinimumLength = 3)]`. `CourseId` is a string (the
    comment beside it speaks of an int) and has no length rule. */
module CourseValidation {
  import opened Wrappers

  /** Bounds of the `StringLength` attribute on `CourseName`. */
  const MinNameLength: nat := 3
  const MaxNameLength: nat := 100

  /** A deserialized body: a missing or JSON-null field is `None`. */
  datatype CourseModel = CourseModel(courseId: Option<string>, courseName: Option<string>)

  /** One model-state error per failed attribute. */
  datatype ValidationError = CourseIdRequired | CourseNameRequired | CourseNameLength

  /** The characters .NET's `char.IsWhiteSpace` accepts, by code point. */
  predicate IsWhiteSpace(c: char)
  {
    var n := c as int;
    (0x09 <= n <= 0x0D) || n == 0x20 || n == 0x85 || n == 0xA0 || n == 0x1680
    || (0x2000 <= n <= 0x200A) || n == 0x2028 || n == 0x2029 || n == 0x202F
    || n == 0x205F || n == 0x3000
  }

  /** Empty, or whitespace only: what `RequiredAttribute` refuses in a string
      when empty strings are not allowed (the default). */
  predicate IsBlank(s: string)
  {
    forall i :: 0 <= i < |s| ==> IsWhiteSpace(s[i])
  }

  /** `[Required]` on a string property. */
  predicate RequiredHolds(v: Option<string>)
  {
    v.Some? && !IsBlank(v.value)
  }

  /** `[StringLength(max, MinimumLength = min)]`: null passes; a string
      passes when its length lies in [min, max]. */
  predicate StringLengthHolds(v: Option<string>, min: nat, max: nat)
  {
    v.None? || min <= |v.value| <= max
  }

  /** The model-state errors of a body, field by field in declaration order,
      every attribute of a field evaluated. */
  function Validate(m: CourseModel): (errs: seq<ValidationError>)
    ensures CourseIdRequired in errs <==> m.courseId.None? || IsBlank(m.courseId.value)
    ensures CourseNameRequired in errs <==> m.courseName.None? || IsBlank(m.courseName.value)
    ensures CourseNameLength in errs <==>
              m.courseName.Some? && !(MinNameLength <= |m.courseName.value| <= MaxNameLength)
    ensures errs == [] <==>
              && m.courseId.Some? && !IsBlank(m.courseId.value)
              && m.courseName.Some? && !IsBlank(m.courseName.value)
              && MinNameLength <= |m.courseName.value| <= MaxNameLength
    ensures |errs| <= 3
  {
    (if RequiredHolds(m.courseId) then [] else [CourseIdRequired])
    + (if RequiredHolds(m.courseName) then [] else [CourseNameRequired])
    + (if StringLengthHolds(m.courseName, MinNameLength, MaxNameLength) then [] else [CourseNameLength])
  }

  /** `ModelState.IsValid` for this body. */
  predicate IsValid(m: CourseModel): (r: bool)
    ensures r <==> RequiredHolds(m.courseId) && RequiredHolds(m.courseName)
                   && StringLengthHolds(m.courseName, MinNameLength, MaxNameLength)
  {
    Validate(m) == []
  }

  /** What a valid body guarantees to the action that receives it. */
  lemma ValidModelFields(m: CourseModel)
    requires IsValid(m)
    ensures m.courseId.Some? && m.courseName.Some?
    ensures MinNameLength <= |m.courseName.value| <= MaxNameLength
  {
  }

  /** The identifier has no length rule: any identifier that is not blank
      is accepted, however long, beside any acceptable name. */
  lemma CourseIdHasNoLengthBound(id: string, name: string)
    requires !IsBlank(id)
    requires !IsBlank(name) && MinNameLength <= |name| <= MaxNameLength
    ensures IsValid(CourseModel(Some(id), Some(name)))
  {
  }

  /** A whitespace-only name of acceptable length is refused, and only
      because `[Required]` refuses whitespace-only strings. */
  lemma BlankNameRefused(id: string, name: string)
    requires !IsBlank(id)
    requires IsBlank(name) && MinNameLength <= |name| <= MaxNameLength
    ensures Validate(CourseModel(Some(id), Some(name))) == [CourseNameRequired]
  {
  }

  /** The body ("CS101", "   "): three spaces pass the length rule and fail
      `[Required]`. */
  lemma ThreeSpacesRefused()
    ensures Validate(CourseModel(Some("CS101"), Some("   "))) == [CourseNameRequired]
  {
    assert !IsBlank("CS101") by { assert !IsWhiteSpace("CS101"[0]); }
    BlankNameRefused("CS101", "   ");
  }
}
