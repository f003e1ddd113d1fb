/** The form logic of `auth_emp_frontend/src/pages/CreateEmployee.jsx`: the
    field and checkbox handlers, the type check of the chosen image, the
    client-side validation and the multipart body the submit handler builds.
    The component state is the class `CreatePage`. */
module CreateEmployeePage {
  import opened Optional
  import opened Text
  import opened EmailFormat
  import opened EmployeeModel
  import EmployeeController

  /** A file chosen in the file input; `mimeType` is its `type`. */
  datatype File = File(fileName: string, mimeType: string)

  datatype CreateForm = CreateForm(
    name: string, email: string, mobile: string, designation: string, gender: string,
    course: seq<string>, imageFile: Option<File>)

  /** The inputs that share `handleChange`, by their `name` attribute. */
  datatype FormField = NameField | EmailField | MobileField | DesignationField | GenderField

  /** The keys of the `errors` object. */
  datatype ErrorKey = NameKey | EmailKey | MobileKey | DesignationKey | GenderKey | CourseKey | ImageKey

  /** `errors[name]` for the input called `name`. */
  function FieldKey(f: FormField): ErrorKey {
    match f
    case NameField => NameKey
    case EmailField => EmailKey
    case MobileField => MobileKey
    case DesignationField => DesignationKey
    case GenderField => GenderKey
  }

  const InitialForm := CreateForm("", "", "", "HR", "Male", [], None)

  const DesignationOptions: seq<string> := ["HR", "Manager", "Software Developer", "Web Developer"]
  const CourseOptions: seq<string> := ["MCA", "BCA", "BSC", "B.Tech"]

  /** The select offers only designations the server accepts, though not
      `Sales`; the checkboxes offer exactly the server's courses. */
  lemma OptionsAgreeWithServer()
    ensures forall d :: d in DesignationOptions ==> d in Designations
    ensures "Sales" in Designations && "Sales" !in DesignationOptions
    ensures CourseOptions == Courses
    ensures InitialForm.designation in DesignationOptions && InitialForm.gender in Genders
  {
  }

  /** `{...formData, [name]: value}`. */
  function SetField(form: CreateForm, f: FormField, value: string): CreateForm {
    match f
    case NameField => form.(name := value)
    case EmailField => form.(email := value)
    case MobileField => form.(mobile := value)
    case DesignationField => form.(designation := value)
    case GenderField => form.(gender := value)
  }

  /** The text value of a field. */
  function FieldValue(form: CreateForm, f: FormField): string {
    match f
    case NameField => form.name
    case EmailField => form.email
    case MobileField => form.mobile
    case DesignationField => form.designation
    case GenderField => form.gender
  }

  /** Setting a field changes that field and nothing else. */
  lemma SetFieldOnly(form: CreateForm, f: FormField, value: string)
    ensures FieldValue(SetField(form, f, value), f) == value
    ensures forall g :: g != f ==> FieldValue(SetField(form, f, value), g) == FieldValue(form, g)
    ensures SetField(form, f, value).course == form.course && SetField(form, f, value).imageFile == form.imageFile
  {
  }

  /** `if (errors[key]) setErrors({...errors, [key]: ''})`: a present,
      non-empty message is blanked; every other entry stays. */
  function ClearError(errors: map<ErrorKey, string>, key: ErrorKey): (r: map<ErrorKey, string>)
    ensures key in r ==> r[key] == ""
    ensures r.Keys == errors.Keys
    ensures forall k :: k in errors && k != key ==> r[k] == errors[k]
  {
    if key in errors && errors[key] != "" then errors[key := ""] else errors
  }

  /** The new course list after a checkbox change: appended when checked,
      every occurrence removed when unchecked. */
  function CheckCourse(course: seq<string>, value: string, checked: bool): (r: seq<string>)
    ensures checked ==> r == course + [value]
    ensures !checked ==> forall c :: c in r <==> c in course && c != value
  {
    if checked then course + [value] else WithoutCourse(course, value)
  }

  function WithoutCourse(course: seq<string>, value: string): (r: seq<string>)
    ensures |r| <= |course|
    ensures forall c :: c in r <==> c in course && c != value
  {
    if course == [] then []
    else if course[0] == value then WithoutCourse(course[1..], value)
    else [course[0]] + WithoutCourse(course[1..], value)
  }

  /** Removing a course drops every occurrence of it and keeps every other
      course as many times as it was there. */
  lemma {:induction false} WithoutCourseCounts(course: seq<string>, value: string)
    ensures multiset(WithoutCourse(course, value)) == multiset(course)[value := 0]
  {
    if course != [] {
      WithoutCourseCounts(course[1..], value);
      assert course == [course[0]] + course[1..];
    }
  }

  /** Checking a course that was not selected and unchecking it again gives
      the list back. */
  lemma {:induction false} CheckUncheck(course: seq<string>, value: string)
    requires value !in course
    ensures CheckCourse(CheckCourse(course, value, true), value, false) == course
  {
    if course == [] {
    } else {
      CheckUncheck(course[1..], value);
      assert (course + [value])[1..] == course[1..] + [value];
    }
  }

  /** `!s.trim()`: nothing but white space. */
  predicate Blank(s: string) {
    forall i :: 0 <= i < |s| ==> IsSpace(s[i])
  }

  lemma BlankIsTrimEmpty(s: string)
    ensures Blank(s) <==> Trim(s) == ""
  {
  }

  /** `\S+@\S+\.\S+` anywhere in the text: a non-space before an `@`, then
      only non-spaces up to a later `.`, then a non-space. */
  predicate LooseEmail(s: string) {
    exists at, dot :: 0 < at < dot < |s| - 1 && at + 1 < dot && LooseAt(s, at, dot)
  }

  predicate LooseAt(s: string, at: int, dot: int)
    requires 0 < at < dot < |s| - 1
  {
    && s[at] == '@' && s[dot] == '.'
    && !IsSpace(s[at - 1]) && !IsSpace(s[dot + 1])
    && forall k :: at < k < dot ==> !IsSpace(s[k])
  }

  /** `/^\d+$/`. */
  predicate AllDigits(s: string) {
    |s| > 0 && forall i :: 0 <= i < |s| ==> IsDigit(s[i])
  }

  /** What `validateForm` accepts. */
  predicate ClientValid(form: CreateForm) {
    && !Blank(form.name)
    && !Blank(form.email) && LooseEmail(form.email)
    && !Blank(form.mobile) && AllDigits(form.mobile)
    && |form.course| > 0
  }

  /** Every address the server accepts passes the client's pattern. */
  lemma ValidEmailIsLoose(s: string)
    requires ValidEmail(s)
    ensures LooseEmail(s) && !Blank(s)
  {
    var at, dot := EmailParts(s);
    ValidEmailHasNoSpace(s);
    assert LooseAt(s, at, dot);
  }

  /** The converse fails: the client lets `a@b.c` through, whose last part
      is too short for the server. */
  lemma LooseEmailIsWeaker()
    ensures LooseEmail("a@b.c") && !ValidEmail("a@b.c")
  {
    assert LooseAt("a@b.c", 1, 3);
  }

  /** A form whose fields the server would accept, with its course list, passes
      the client's validation. */
  lemma ServerValidIsClientValid(form: CreateForm)
    requires !Blank(form.name) && ValidEmail(form.email) && ValidMobile(form.mobile) && |form.course| > 0
    ensures ClientValid(form)
  {
    ValidEmailIsLoose(form.email);
    ValidMobileIsDigits(form.mobile);
  }

  lemma ValidMobileIsDigits(s: string)
    requires ValidMobile(s)
    ensures AllDigits(s) && !Blank(s)
  {
    assert !IsSpace(s[0]);
  }

  /** And the client does not check the length of the number. */
  lemma ClientMobileIsWeaker()
    ensures AllDigits("12345") && !ValidMobile("12345")
  {
  }

  /** A part of the multipart body. */
  datatype Entry = TextEntry(key: string, value: string) | FileEntry(key: string, file: File)

  function CourseEntries(course: seq<string>): (r: seq<Entry>)
    ensures |r| == |course|
    ensures forall i :: 0 <= i < |course| ==> r[i] == TextEntry("course", course[i])
  {
    seq(|course|, i requires 0 <= i < |course| => TextEntry("course", course[i]))
  }

  /** The body `handleSubmit` builds: the five fields, one `course` entry per
      selected course in order, and `image` only when a file was chosen. */
  function FormEntries(form: CreateForm): seq<Entry> {
    [TextEntry("name", form.name), TextEntry("email", form.email), TextEntry("mobile", form.mobile),
     TextEntry("designation", form.designation), TextEntry("gender", form.gender)]
    + CourseEntries(form.course)
    + (if form.imageFile.Some? then [FileEntry("image", form.imageFile.value)] else [])
  }

  /** The values of the `course` text entries, in order. */
  function CourseValues(entries: seq<Entry>): seq<string> {
    if entries == [] then []
    else
      var first := if entries[0].TextEntry? && entries[0].key == "course" then [entries[0].value] else [];
      first + CourseValues(entries[1..])
  }

  lemma {:induction false} CourseValuesAppend(a: seq<Entry>, b: seq<Entry>)
    ensures CourseValues(a + b) == CourseValues(a) + CourseValues(b)
  {
    if a == [] {
      assert a + b == b;
    } else {
      assert (a + b)[0] == a[0];
      assert (a + b)[1..] == a[1..] + b;
      CourseValuesAppend(a[1..], b);
    }
  }

  lemma {:induction false} CourseValuesOfCourses(course: seq<string>)
    ensures CourseValues(CourseEntries(course)) == course
  {
    if course != [] {
      assert CourseEntries(course)[1..] == CourseEntries(course[1..]);
      CourseValuesOfCourses(course[1..]);
    }
  }

  lemma {:induction false} NoCourseValues(entries: seq<Entry>)
    requires forall i :: 0 <= i < |entries| ==> entries[i].key != "course"
    ensures CourseValues(entries) == []
  {
    if entries != [] {
      NoCourseValues(entries[1..]);
    }
  }

  /** How the server's body parser reads the `course` entries: none is an
      absent field, one is a string, several are an array. */
  function ParsedCourse(entries: seq<Entry>): EmployeeController.CourseInput {
    var values := CourseValues(entries);
    if |values| == 0 then EmployeeController.NoCourse
    else if |values| == 1 then EmployeeController.CourseText(values[0])
    else EmployeeController.CourseList(values)
  }

  /** The courses the client selects reach the server's document unchanged,
      provided no course holds a `,` (none of the offered ones does). */
  lemma SubmittedCourses(form: CreateForm)
    requires |form.course| > 0 && forall k :: 0 <= k < |form.course| ==> ',' !in form.course[k]
    ensures ParsedCourse(FormEntries(form)) != EmployeeController.NoCourse
    ensures EmployeeController.CourseArray(ParsedCourse(FormEntries(form))) == form.course
  {
    var head := [TextEntry("name", form.name), TextEntry("email", form.email), TextEntry("mobile", form.mobile),
                 TextEntry("designation", form.designation), TextEntry("gender", form.gender)];
    var tail: seq<Entry> := if form.imageFile.Some? then [FileEntry("image", form.imageFile.value)] else [];
    CourseValuesAppend(head + CourseEntries(form.course), tail);
    CourseValuesAppend(head, CourseEntries(form.course));
    CourseValuesOfCourses(form.course);
    NoCourseValues(head);
    NoCourseValues(tail);
    if |form.course| == 1 {
      SplitNoSeparator(form.course[0], ',');
    }
  }

  /** `handleSubmit`'s `append` calls, run in order. */
  method BuildEntries(form: CreateForm) returns (entries: seq<Entry>)
    ensures entries == FormEntries(form)
  {
    entries := [];
    entries := entries + [TextEntry("name", form.name)];
    entries := entries + [TextEntry("email", form.email)];
    entries := entries + [TextEntry("mobile", form.mobile)];
    entries := entries + [TextEntry("designation", form.designation)];
    entries := entries + [TextEntry("gender", form.gender)];
    ghost var head := entries;
    var i := 0;
    while i < |form.course|
      invariant 0 <= i <= |form.course|
      invariant entries == head + CourseEntries(form.course[..i])
    {
      assert CourseEntries(form.course[..i + 1]) == CourseEntries(form.course[..i]) + [TextEntry("course", form.course[i])];
      entries := entries + [TextEntry("course", form.course[i])];
      i := i + 1;
    }
    assert form.course[..i] == form.course;
    if form.imageFile.Some? {
      entries := entries + [FileEntry("image", form.imageFile.value)];
    }
  }

  /** The messages of `validateForm`. */
  const NameRequired: string := "Name is required"
  const EmailRequired: string := "Email is required"
  const EmailInvalid: string := "Email is invalid"
  const MobileRequired: string := "Mobile number is required"
  const MobileNotDigits: string := "Mobile number must contain only digits"
  const CourseRequired: string := "At least one course must be selected"

  /** The message `validateForm` sets for one key, if any. */
  function FieldError(form: CreateForm, k: ErrorKey): Option<string> {
    match k
    case NameKey => if Blank(form.name) then Some(NameRequired) else None
    case EmailKey =>
      if Blank(form.email) then Some(EmailRequired)
      else if !LooseEmail(form.email) then Some(EmailInvalid)
      else None
    case MobileKey =>
      if Blank(form.mobile) then Some(MobileRequired)
      else if !AllDigits(form.mobile) then Some(MobileNotDigits)
      else None
    case CourseKey => if |form.course| == 0 then Some(CourseRequired) else None
    case _ => None
  }

  /** `m` with `k` set when `e` holds a message. */
  function PutError(m: map<ErrorKey, string>, k: ErrorKey, e: Option<string>): map<ErrorKey, string> {
    if e.Some? then m[k := e.value] else m
  }

  /** The error object `validateForm` builds, one field after the other. */
  function ErrorsFor(form: CreateForm): map<ErrorKey, string> {
    var m := PutError(map[], NameKey, FieldError(form, NameKey));
    var m := PutError(m, EmailKey, FieldError(form, EmailKey));
    var m := PutError(m, MobileKey, FieldError(form, MobileKey));
    PutError(m, CourseKey, FieldError(form, CourseKey))
  }

  /** Each key of the error object is there exactly when its check fails, with
      that check's message; designation, gender and image are never checked. */
  lemma ErrorsForKeys(form: CreateForm, k: ErrorKey)
    ensures k in ErrorsFor(form) <==> FieldError(form, k).Some?
    ensures k in ErrorsFor(form) ==> ErrorsFor(form)[k] == FieldError(form, k).value
  {
  }

  /** The form is submitted exactly when every field passes the client's checks. */
  lemma NoErrorsIffValid(form: CreateForm)
    ensures |ErrorsFor(form)| == 0 <==> ClientValid(form)
  {
    var m := ErrorsFor(form);
    if ClientValid(form) {
      forall k ensures k !in m {
        ErrorsForKeys(form, k);
      }
      assert m.Keys == {};
    } else {
      var k := if Blank(form.name) then NameKey
        else if Blank(form.email) || !LooseEmail(form.email) then EmailKey
        else if Blank(form.mobile) || !AllDigits(form.mobile) then MobileKey
        else CourseKey;
      ErrorsForKeys(form, k);
      assert k in m.Keys;
      assert |m.Keys| == |m|;
    }
  }

  const ImageTypeError := "Only JPG and PNG files are allowed"

  /** The component state. */
  class CreatePage {
    var form: CreateForm
    var errors: map<ErrorKey, string>

    /** The selects, radios and checkboxes hold only offered values. */
    predicate Valid()
      reads this
    {
      && form.designation in DesignationOptions
      && form.gender in Genders
      && forall k :: 0 <= k < |form.course| ==> form.course[k] in CourseOptions
    }

    constructor ()
      ensures form == InitialForm && errors == map[]
      ensures Valid()
    {
      form := InitialForm;
      errors := map[];
    }

    /** `handleChange` of one input; the select and the radios only send offered values. */
    method HandleChange(f: FormField, value: string)
      requires f == DesignationField ==> value in DesignationOptions
      requires f == GenderField ==> value in Genders
      modifies this
      ensures form == SetField(old(form), f, value)
      ensures errors == ClearError(old(errors), FieldKey(f))
      ensures old(Valid()) ==> Valid()
    {
      form := SetField(form, f, value);
      var key := FieldKey(f);
      if key in errors && errors[key] != "" {
        errors := errors[key := ""];
      }
    }

    /** `handleCheckboxChange` of the checkbox of one offered course. */
    method HandleCheckboxChange(value: string, checked: bool)
      requires value in CourseOptions
      modifies this
      ensures form == old(form).(course := CheckCourse(old(form).course, value, checked))
      ensures errors == ClearError(old(errors), CourseKey)
      ensures old(Valid()) ==> Valid()
    {
      var course := if checked then form.course + [value] else WithoutCourse(form.course, value);
      if Valid() {
        assert forall c :: c in form.course ==> c in CourseOptions;
        assert forall c :: c in course ==> c in form.course || c == value;
        assert forall k :: 0 <= k < |course| ==> course[k] in course;
      }
      form := form.(course := course);
      if CourseKey in errors && errors[CourseKey] != "" {
        errors := errors[CourseKey := ""];
      }
    }

    /** `handleImageChange`: a file of another type only sets the error. */
    method HandleImageChange(file: Option<File>)
      modifies this
      ensures file.None? ==> form == old(form) && errors == old(errors)
      ensures file.Some? && !EmployeeController.IsImageMime(file.value.mimeType) ==>
        form == old(form) && errors == old(errors)[ImageKey := ImageTypeError]
      ensures file.Some? && EmployeeController.IsImageMime(file.value.mimeType) ==>
        form == old(form).(imageFile := file) && errors == ClearError(old(errors), ImageKey)
      ensures old(Valid()) ==> Valid()
    {
      if file.None? {
        return;
      }
      var t := file.value.mimeType;
      if !(t == "image/jpeg" || t == "image/png") {
        errors := errors[ImageKey := ImageTypeError];
        return;
      }
      form := form.(imageFile := file);
      if ImageKey in errors && errors[ImageKey] != "" {
        errors := errors[ImageKey := ""];
      }
    }

    /** `validateForm`: fills a fresh error object field by field, stores it,
        and answers whether it stayed empty. */
    method ValidateForm() returns (ok: bool)
      modifies this
      ensures form == old(form)
      ensures errors == ErrorsFor(form)
      ensures ok <==> ClientValid(form)
    {
      var f := form;
      var newErrors: map<ErrorKey, string> := map[];
      if Blank(f.name) {
        newErrors := newErrors[NameKey := NameRequired];
      }
      assert newErrors == PutError(map[], NameKey, FieldError(f, NameKey));
      ghost var afterName := newErrors;
      if Blank(f.email) {
        newErrors := newErrors[EmailKey := EmailRequired];
      } else if !LooseEmail(f.email) {
        newErrors := newErrors[EmailKey := EmailInvalid];
      }
      assert newErrors == PutError(afterName, EmailKey, FieldError(f, EmailKey));
      ghost var afterEmail := newErrors;
      if Blank(f.mobile) {
        newErrors := newErrors[MobileKey := MobileRequired];
      } else if !AllDigits(f.mobile) {
        newErrors := newErrors[MobileKey := MobileNotDigits];
      }
      assert newErrors == PutError(afterEmail, MobileKey, FieldError(f, MobileKey));
      ghost var afterMobile := newErrors;
      if |f.course| == 0 {
        newErrors := newErrors[CourseKey := CourseRequired];
      }
      assert newErrors == PutError(afterMobile, CourseKey, FieldError(f, CourseKey));
      errors := newErrors;
      ok := |newErrors| == 0;
      NoErrorsIffValid(form);
    }
  }
}
