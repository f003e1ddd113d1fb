/** The write and lookup handlers of `Backend/controllers/employeeController.js`
    over a store made of the employee collection and the `uploads/` directory.
    Each handler is first stated as a function from the store before the
    request to its `Outcome` (status, response body, store after); the class
    `EmployeeStore` then runs the handlers step by step on its fields and is
    proved to produce exactly that outcome. */
module EmployeeController {
  import opened Optional
  import opened Text
  import opened EmailFormat
  import opened EmployeeModel
  import Serial

  /** The `course` field of a request body: absent, one string (a single
      form field or a comma-separated list), or an array (repeated form
      fields, or a JSON array). */
  datatype CourseInput = NoCourse | CourseText(text: string) | CourseList(items: seq<string>)

  /** The fields of a create or update request; `""` stands for an absent field. */
  datatype EmployeeForm = EmployeeForm(
    name: string, email: string, mobile: string, designation: string, gender: string, course: CourseInput)

  /** A file multer has written under `uploads/` for this request. */
  datatype Upload = Upload(path: string, mimetype: string)

  datatype Body =
    | Message(text: string)
    | Saved(text: string, employee: Employee)
    | Found(employee: Employee)
    | Toggled(text: string, isActive: bool)

  /** The collection and the set of files in `uploads/`. */
  datatype State = State(records: seq<Employee>, uploads: set<string>)

  datatype Outcome = Outcome(status: nat, body: Body, state: State)

  /** The file a path names: `\` and `/` separate the same directories. */
  function FileKey(path: string): (k: string)
    ensures '\\' !in k
    ensures '\\' !in path ==> k == path
  {
    var k := ReplaceChar(path, '\\', '/');
    assert forall i :: 0 <= i < |k| ==> k[i] != '\\';
    assert '\\' !in path ==> k == path;
    k
  }

  /** Normalizing the separators twice changes nothing. */
  lemma FileKeyIdempotent(path: string)
    ensures FileKey(FileKey(path)) == FileKey(path)
  {
  }

  /** The mime filter of the upload route. */
  predicate IsImageMime(m: string) {
    m == "image/jpeg" || m == "image/png"
  }

  /** What the upload step guarantees before a handler runs: the file passed
      the filter and is in `uploads/` under a new name no document uses. */
  predicate Uploaded(st: State, file: Option<Upload>) {
    file.Some? ==>
      && IsImageMime(file.value.mimetype)
      && file.value.path != ""
      && FileKey(file.value.path) in st.uploads
      && forall i :: 0 <= i < |st.records| ==> FileKey(st.records[i].image) != FileKey(file.value.path)
  }

  /** Every document's image file exists, and no two documents share one. */
  predicate ImagesOk(st: State) {
    && (forall i :: 0 <= i < |st.records| ==> FileKey(st.records[i].image) in st.uploads)
    && (forall i, j :: 0 <= i < j < |st.records| ==> FileKey(st.records[i].image) != FileKey(st.records[j].image))
  }

  /** `!course`: an absent field or an empty string (an empty array is truthy). */
  predicate CourseMissing(c: CourseInput) {
    c == NoCourse || c == CourseText("")
  }

  /** The guard `!name || !email || !mobile || !designation || !gender || !course`. */
  predicate AnyMissing(f: EmployeeForm) {
    f.name == "" || f.email == "" || f.mobile == "" || f.designation == "" || f.gender == "" || CourseMissing(f.course)
  }

  /** `Array.isArray(course) ? course : course.split(',')`. */
  function CourseArray(c: CourseInput): (r: seq<string>)
    requires c != NoCourse
    ensures c.CourseList? ==> r == c.items
    ensures c.CourseText? ==> |r| >= 1 && Join(r, ',') == c.text && forall k :: 0 <= k < |r| ==> ',' !in r[k]
  {
    match c
    case CourseText(t) => Split(t, ',')
    case CourseList(xs) => xs
  }

  /** `findOne({email})`; the query value goes through the same setters as the field. */
  predicate EmailTaken(records: seq<Employee>, email: string) {
    exists j :: 0 <= j < |records| && records[j].email == SetEmail(email)
  }

  /** `findOne({email, id: {$ne: id}})`. */
  predicate EmailTakenByOther(records: seq<Employee>, email: string, id: nat) {
    exists j :: 0 <= j < |records| && records[j].email == SetEmail(email) && records[j].id != id
  }

  /** The first check of create and update that fails, if any. */
  function FormError(f: EmployeeForm): Option<string> {
    if AnyMissing(f) then Some("All fields are required")
    else if !ValidEmail(f.email) then Some("Invalid email format")
    else if !ValidMobile(f.mobile) then Some("Mobile number must be 10 digits")
    else None
  }

  /** `new Employee({...})` with the schema's defaults: no id yet, active. */
  function NewEmployee(f: EmployeeForm, image: string, now: int): Employee
    requires f.course != NoCourse
  {
    Employee(0, image, SetName(f.name), SetEmail(f.email), f.mobile, f.designation, f.gender, CourseArray(f.course), now, true)
  }

  /** `createEmployee`. */
  function CreateOutcome(st: State, f: EmployeeForm, file: Option<Upload>, now: int): Outcome
    requires Uploaded(st, file)
  {
    if FormError(f).Some? then Outcome(400, Message(FormError(f).value), st)
    else if EmailTaken(st.records, f.email) then Outcome(400, Message("Email already exists"), st)
    else if file.None? then Outcome(400, Message("Employee image is required"), st)
    else
      var doc := NewEmployee(f, FileKey(file.value.path), now);
      match Save(st.records, |st.records|, doc)
      case Some(r) => Outcome(201, Saved("Employee created successfully", r[|st.records|]), State(r, st.uploads))
      case None => Outcome(500, Message("Server error"), State(st.records, st.uploads - {FileKey(file.value.path)}))
  }

  /** The fields update overwrites on the fetched document, through the setters. */
  function Edited(e: Employee, f: EmployeeForm, file: Option<Upload>): Employee
    requires f.course != NoCourse
  {
    e.(image := if file.Some? then file.value.path else e.image,
       name := SetName(f.name), email := SetEmail(f.email), mobile := f.mobile,
       designation := f.designation, gender := f.gender, course := CourseArray(f.course))
  }

  /** The uploads after update unlinks the replaced image, which it does
      before saving. */
  function DropOldImage(uploads: set<string>, e: Employee, file: Option<Upload>): set<string> {
    if file.Some? && e.image != "" then uploads - {FileKey(e.image)} else uploads
  }

  /** The uploads after the catch block unlinks the request's file. */
  function DropUpload(uploads: set<string>, file: Option<Upload>): set<string> {
    if file.Some? then uploads - {FileKey(file.value.path)} else uploads
  }

  /** `updateEmployee`, as written: the old image is unlinked before the save. */
  function UpdateOutcome(st: State, id: nat, f: EmployeeForm, file: Option<Upload>): Outcome
    requires Uploaded(st, file)
  {
    if FormError(f).Some? then Outcome(400, Message(FormError(f).value), st)
    else if EmailTakenByOther(st.records, f.email, id) then
      Outcome(400, Message("Email already exists for another employee"), st)
    else match IndexOfId(st.records, id)
      case None => Outcome(404, Message("Employee not found"), st)
      case Some(i) =>
        var e := st.records[i];
        var uploads := DropOldImage(st.uploads, e, file);
        match Save(st.records, i, Edited(e, f, file))
        case Some(r) => Outcome(200, Saved("Employee updated successfully", r[i]), State(r, uploads))
        case None => Outcome(500, Message("Server error"), State(st.records, DropUpload(uploads, file)))
  }

  /** `updateEmployee` with the old image unlinked only once the save has succeeded. */
  function UpdateOutcomeFixed(st: State, id: nat, f: EmployeeForm, file: Option<Upload>): Outcome
    requires Uploaded(st, file)
  {
    if FormError(f).Some? then Outcome(400, Message(FormError(f).value), st)
    else if EmailTakenByOther(st.records, f.email, id) then
      Outcome(400, Message("Email already exists for another employee"), st)
    else match IndexOfId(st.records, id)
      case None => Outcome(404, Message("Employee not found"), st)
      case Some(i) =>
        var e := st.records[i];
        match Save(st.records, i, Edited(e, f, file))
        case Some(r) => Outcome(200, Saved("Employee updated successfully", r[i]), State(r, DropOldImage(st.uploads, e, file)))
        case None => Outcome(500, Message("Server error"), State(st.records, DropUpload(st.uploads, file)))
  }

  /** `getEmployeeById`. */
  function GetByIdOutcome(st: State, id: nat): Outcome {
    match IndexOfId(st.records, id)
    case None => Outcome(404, Message("Employee not found"), st)
    case Some(i) => Outcome(200, Found(st.records[i]), st)
  }

  /** `deleteEmployee`: unlink the image, then `deleteOne({id})`. */
  function DeleteOutcome(st: State, id: nat): Outcome {
    match IndexOfId(st.records, id)
    case None => Outcome(404, Message("Employee not found"), st)
    case Some(i) =>
      var e := st.records[i];
      var uploads := if e.image != "" then st.uploads - {FileKey(e.image)} else st.uploads;
      Outcome(200, Message("Employee deleted successfully"), State(st.records[..i] + st.records[i + 1..], uploads))
  }

  /** `toggleEmployeeStatus`. */
  function ToggleOutcome(st: State, id: nat): Outcome {
    match IndexOfId(st.records, id)
    case None => Outcome(404, Message("Employee not found"), st)
    case Some(i) =>
      var e := st.records[i].(isActive := !st.records[i].isActive);
      match Save(st.records, i, e)
      case Some(r) =>
        var text := if e.isActive then "Employee activated successfully" else "Employee deactivated successfully";
        Outcome(200, Toggled(text, e.isActive), State(r, st.uploads))
      case None => Outcome(500, Message("Server error"), st)
  }

  /** Two documents of a collection with unique keys differ in id and email. */
  lemma Distinct(records: seq<Employee>, i: nat, j: nat)
    requires UniqueKeys(records) && i < |records| && j < |records| && i != j
    ensures records[i].id != records[j].id && records[i].email != records[j].email
  {
    if i < j {} else {}
  }

  // Create

  /** Create answers 400 exactly when one of its five checks fails, and then
      changes nothing: in particular the file the upload step stored stays
      in `uploads/`. */
  lemma CreateRejects(st: State, f: EmployeeForm, file: Option<Upload>, now: int)
    requires Uploaded(st, file)
    ensures var o := CreateOutcome(st, f, file, now);
      && (o.status == 400 <==> FormError(f).Some? || EmailTaken(st.records, f.email) || file.None?)
      && (o.status == 400 ==> o.state == st)
  {
  }

  /** The checks run in the order missing field, email format, mobile format,
      email in use, image present; the answer names the first that fails. */
  lemma CreateErrorOrder(st: State, f: EmployeeForm, file: Option<Upload>, now: int)
    requires Uploaded(st, file)
    ensures var o := CreateOutcome(st, f, file, now);
      && (AnyMissing(f) ==> o.body == Message("All fields are required"))
      && (!AnyMissing(f) && !ValidEmail(f.email) ==> o.body == Message("Invalid email format"))
      && (!AnyMissing(f) && ValidEmail(f.email) && !ValidMobile(f.mobile) ==>
            o.body == Message("Mobile number must be 10 digits"))
      && (FormError(f).None? && EmailTaken(st.records, f.email) ==> o.body == Message("Email already exists"))
      && (FormError(f).None? && !EmailTaken(st.records, f.email) && file.None? ==>
            o.body == Message("Employee image is required"))
  {
  }

  /** A successful create appends exactly one document: numbered after every
      existing one, active, created now, with the normalized image path, the
      trimmed name, the lower-cased email and the course list as given or
      split on `,`; the files are unchanged. */
  lemma CreateSucceeds(st: State, f: EmployeeForm, file: Option<Upload>, now: int)
    requires Uploaded(st, file)
    requires CreateOutcome(st, f, file, now).status == 201
    ensures file.Some? && FormError(f).None? && !EmailTaken(st.records, f.email)
    ensures var o := CreateOutcome(st, f, file, now);
      && o.body.Saved? && o.body.text == "Employee created successfully"
      && var e := o.body.employee;
      && o.state == State(st.records + [e], st.uploads)
      && e.id == Serial.Next(Ids(st.records)) && e.id !in Ids(st.records)
      && e.isActive && e.createDate == now
      && e.image == FileKey(file.value.path)
      && e.name == Trim(f.name) && e.email == Lower(f.email) && e.mobile == f.mobile
      && e.designation == f.designation && e.gender == f.gender
      && e.course == CourseArray(f.course)
  {
    var doc := NewEmployee(f, FileKey(file.value.path), now);
    SaveNew(st.records, doc);
    SetEmailValid(f.email);
  }

  /** What `save()` still checks after the controller's own checks passed:
      the trimmed name, the two enumerations and the course list. */
  lemma NewDocumentValid(records: seq<Employee>, f: EmployeeForm, image: string, now: int)
    requires FormError(f).None? && !EmailTaken(records, f.email) && image != ""
    ensures var doc := NewEmployee(f, image, now);
      Save(records, |records|, doc).Some? <==>
        Trim(f.name) != "" && f.designation in Designations && f.gender in Genders && ValidCourses(CourseArray(f.course))
  {
    var doc := NewEmployee(f, image, now);
    SetEmailValid(f.email);
    NewIdNeverClashes(records, doc);
  }

  /** Create answers 500 exactly when the controller's checks pass but the
      schema refuses the document (a blank name, an unknown designation or
      gender, a bad course list). */
  lemma CreateServerErrorWhen(st: State, f: EmployeeForm, file: Option<Upload>, now: int)
    requires Uploaded(st, file)
    ensures CreateOutcome(st, f, file, now).status == 500 <==>
      && FormError(f).None? && !EmailTaken(st.records, f.email) && file.Some?
      && !(Trim(f.name) != "" && f.designation in Designations && f.gender in Genders && ValidCourses(CourseArray(f.course)))
  {
    if FormError(f).None? && !EmailTaken(st.records, f.email) && file.Some? {
      NewDocumentValid(st.records, f, FileKey(file.value.path), now);
    }
  }

  /** On a 500 only the catch block acts: the documents stay, the uploaded file goes. */
  lemma CreateServerError(st: State, f: EmployeeForm, file: Option<Upload>, now: int)
    requires Uploaded(st, file)
    requires CreateOutcome(st, f, file, now).status == 500
    ensures file.Some?
    ensures CreateOutcome(st, f, file, now) ==
      Outcome(500, Message("Server error"), State(st.records, st.uploads - {FileKey(file.value.path)}))
  {
  }

  lemma CreateKeeps(st: State, f: EmployeeForm, file: Option<Upload>, now: int)
    requires Uploaded(st, file)
    ensures var o := CreateOutcome(st, f, file, now);
      StoreOk(st.records) && ImagesOk(st) ==> StoreOk(o.state.records) && ImagesOk(o.state)
  {
    if StoreOk(st.records) && ImagesOk(st) {
      CreateKeepsStoreOk(st, f, file, now);
      CreateKeepsImages(st, f, file, now);
    }
  }

  /** Create keeps the documents valid, normalized and unique. */
  lemma CreateKeepsStoreOk(st: State, f: EmployeeForm, file: Option<Upload>, now: int)
    requires Uploaded(st, file) && StoreOk(st.records)
    ensures StoreOk(CreateOutcome(st, f, file, now).state.records)
  {
    if CreateOutcome(st, f, file, now).status == 201 {
      CreateSucceeds(st, f, file, now);
      SetEmailValid(f.email);
      SetNameTrimmed(f.name);
      SaveKeepsStoreOk(st.records, |st.records|, NewEmployee(f, FileKey(file.value.path), now));
    } else if CreateOutcome(st, f, file, now).status == 500 {
      CreateServerError(st, f, file, now);
    } else {
      CreateRejects(st, f, file, now);
    }
  }

  /** Create keeps every document's image file, one file per document. */
  lemma CreateKeepsImages(st: State, f: EmployeeForm, file: Option<Upload>, now: int)
    requires Uploaded(st, file) && ImagesOk(st)
    ensures ImagesOk(CreateOutcome(st, f, file, now).state)
  {
    if FormError(f).None? && !EmailTaken(st.records, f.email) && file.Some? {
      var doc := NewEmployee(f, FileKey(file.value.path), now);
      CreateSaveStep(st, f, file, now);
      SaveNew(st.records, doc);
      if Save(st.records, |st.records|, doc).Some? {
        FileKeyIdempotent(file.value.path);
        AppendImage(st, doc.(id := Serial.Next(Ids(st.records))), file.value.path);
      } else {
        RemoveUnusedImage(st, FileKey(file.value.path));
      }
    }
  }

  lemma CreateSaveStep(st: State, f: EmployeeForm, file: Option<Upload>, now: int)
    requires Uploaded(st, file) && FormError(f).None? && !EmailTaken(st.records, f.email) && file.Some?
    ensures var doc := NewEmployee(f, FileKey(file.value.path), now);
      CreateOutcome(st, f, file, now) ==
        match Save(st.records, |st.records|, doc)
        case Some(r) => Outcome(201, Saved("Employee created successfully", r[|st.records|]), State(r, st.uploads))
        case None => Outcome(500, Message("Server error"), State(st.records, st.uploads - {FileKey(file.value.path)}))
  {
  }

  /** Removing a file no document uses keeps every document's image file. */
  lemma RemoveUnusedImage(st: State, key: string)
    requires ImagesOk(st)
    requires forall i :: 0 <= i < |st.records| ==> FileKey(st.records[i].image) != key
    ensures ImagesOk(State(st.records, st.uploads - {key}))
  {
  }

  lemma AppendImage(st: State, e: Employee, path: string)
    requires ImagesOk(st) && FileKey(path) in st.uploads && FileKey(e.image) == FileKey(path)
    requires forall i :: 0 <= i < |st.records| ==> FileKey(st.records[i].image) != FileKey(path)
    ensures ImagesOk(State(st.records + [e], st.uploads))
  {
    var r := st.records + [e];
    assert forall i :: 0 <= i < |st.records| ==> r[i] == st.records[i];
  }

  // Update

  /** Update answers 400 exactly when a check fails, including when another
      document has the email, and it does so before looking for the document;
      nothing changes. */
  lemma UpdateRejects(st: State, id: nat, f: EmployeeForm, file: Option<Upload>)
    requires Uploaded(st, file)
    ensures var o := UpdateOutcome(st, id, f, file);
      && (o.status == 400 <==> FormError(f).Some? || EmailTakenByOther(st.records, f.email, id))
      && (o.status == 400 ==> o.state == st)
  {
    if FormError(f).None? && !EmailTakenByOther(st.records, f.email, id) {
      match IndexOfId(st.records, id)
      case None =>
      case Some(i) =>
        UpdateSaveStep(st, id, f, file, i);
        SaveAnswers(st, id, f, file, i);
    }
  }

  /** Past the checks, update answers 200 or 500. */
  lemma SaveAnswers(st: State, id: nat, f: EmployeeForm, file: Option<Upload>, i: nat)
    requires Uploaded(st, file) && FormError(f).None? && !EmailTakenByOther(st.records, f.email, id)
    requires IndexOfId(st.records, id) == Some(i)
    ensures UpdateOutcome(st, id, f, file).status in {200, 500}
  {
    UpdateSaveStep(st, id, f, file, i);
  }

  /** The conflict answer, which comes even when no document has the id. */
  lemma UpdateConflict(st: State, id: nat, f: EmployeeForm, file: Option<Upload>)
    requires Uploaded(st, file)
    requires FormError(f).None? && EmailTakenByOther(st.records, f.email, id)
    ensures UpdateOutcome(st, id, f, file) == Outcome(400, Message("Email already exists for another employee"), st)
  {
  }

  lemma UpdateInvalid(st: State, id: nat, f: EmployeeForm, file: Option<Upload>)
    requires Uploaded(st, file) && FormError(f).Some?
    ensures UpdateOutcome(st, id, f, file) == Outcome(400, Message(FormError(f).value), st)
  {
  }

  lemma UpdateMissing(st: State, id: nat, f: EmployeeForm, file: Option<Upload>)
    requires Uploaded(st, file) && FormError(f).None? && !EmailTakenByOther(st.records, f.email, id)
    requires IndexOfId(st.records, id).None?
    ensures UpdateOutcome(st, id, f, file) == Outcome(404, Message("Employee not found"), st)
  {
  }

  /** Update answers 404 only after every check passed, when no document has the id. */
  lemma UpdateNotFound(st: State, id: nat, f: EmployeeForm, file: Option<Upload>)
    requires Uploaded(st, file)
    ensures var o := UpdateOutcome(st, id, f, file);
      && (o.status == 404 <==>
            FormError(f).None? && !EmailTakenByOther(st.records, f.email, id) && IndexOfId(st.records, id).None?)
      && (o.status == 404 ==> o.state == st)
  {
  }

  /** A document's own email is no conflict: re-submitting it passes the check. */
  lemma OwnEmailIsNoConflict(records: seq<Employee>, i: nat, email: string)
    requires UniqueKeys(records) && i < |records| && records[i].email == SetEmail(email)
    ensures !EmailTakenByOther(records, email, records[i].id)
  {
    forall j | 0 <= j < |records| && j != i ensures records[j].email != SetEmail(email) {
      Distinct(records, i, j);
    }
  }

  /** A successful update replaces name, email, mobile, designation, gender
      and course through the setters and keeps id, activity and creation date;
      with a new file it stores the file's path as given (not normalized) and
      removes the old image file, without one it keeps the image. */
  lemma UpdateSucceeds(st: State, id: nat, f: EmployeeForm, file: Option<Upload>)
    requires Uploaded(st, file) && id >= 1
    requires UpdateOutcome(st, id, f, file).status == 200
    ensures FormError(f).None? && IndexOfId(st.records, id).Some?
    ensures var i := IndexOfId(st.records, id).value;
      var was := st.records[i];
      var o := UpdateOutcome(st, id, f, file);
      && o.body == Saved("Employee updated successfully", Edited(was, f, file))
      && o.state == State(st.records[i := Edited(was, f, file)], DropOldImage(st.uploads, was, file))
  {
    var i := IndexOfId(st.records, id).value;
    SaveExisting(st.records, i, Edited(st.records[i], f, file));
  }

  /** The fields of the edited document. */
  lemma EditedFields(e: Employee, f: EmployeeForm, file: Option<Upload>)
    requires FormError(f).None?
    ensures var d := Edited(e, f, file);
      && d.id == e.id && d.isActive == e.isActive && d.createDate == e.createDate
      && d.name == Trim(f.name) && d.email == Lower(f.email) && d.mobile == f.mobile
      && d.designation == f.designation && d.gender == f.gender && d.course == CourseArray(f.course)
      && d.image == (if file.Some? then file.value.path else e.image)
  {
    SetEmailValid(f.email);
  }

  /** A failed save during update keeps the documents; the request's file is
      removed, and so is the old image when a file came with the request. */
  lemma UpdateServerError(st: State, id: nat, f: EmployeeForm, file: Option<Upload>)
    requires Uploaded(st, file)
    requires UpdateOutcome(st, id, f, file).status == 500
    ensures IndexOfId(st.records, id).Some?
    ensures var was := st.records[IndexOfId(st.records, id).value];
      UpdateOutcome(st, id, f, file) ==
        Outcome(500, Message("Server error"), State(st.records, DropUpload(DropOldImage(st.uploads, was, file), file)))
  {
  }

  /** Update keeps the documents valid, normalized and unique. */
  lemma UpdateKeepsStoreOk(st: State, id: nat, f: EmployeeForm, file: Option<Upload>)
    requires Uploaded(st, file) && StoreOk(st.records)
    ensures StoreOk(UpdateOutcome(st, id, f, file).state.records)
  {
    if FormError(f).None? && !EmailTakenByOther(st.records, f.email, id) {
      match IndexOfId(st.records, id)
      case None =>
      case Some(i) =>
        var e := Edited(st.records[i], f, file);
        UpdateSaveStep(st, id, f, file, i);
        assert Stored(st.records[i]);
        SaveExisting(st.records, i, e);
        if Save(st.records, i, e).Some? {
          EditedNormalized(st.records[i], f, file);
          StoreOkReplace(st.records, i, e);
        }
    }
  }

  lemma EditedNormalized(e: Employee, f: EmployeeForm, file: Option<Upload>)
    requires FormError(f).None?
    ensures Normalized(Edited(e, f, file))
  {
    SetEmailValid(f.email);
    SetNameTrimmed(f.name);
  }

  /** Unless its save fails, update keeps every document's image file. */
  lemma UpdateKeepsImages(st: State, id: nat, f: EmployeeForm, file: Option<Upload>)
    requires Uploaded(st, file) && StoreOk(st.records) && ImagesOk(st)
    requires UpdateOutcome(st, id, f, file).status != 500
    ensures ImagesOk(UpdateOutcome(st, id, f, file).state)
  {
    if UpdateOutcome(st, id, f, file).status == 200 {
      UpdateState(st, id, f, file);
    } else {
      UpdateRejects(st, id, f, file);
      UpdateNotFound(st, id, f, file);
    }
  }

  lemma UpdateState(st: State, id: nat, f: EmployeeForm, file: Option<Upload>)
    requires Uploaded(st, file) && StoreOk(st.records) && ImagesOk(st)
    requires UpdateOutcome(st, id, f, file).status == 200
    ensures ImagesOk(UpdateOutcome(st, id, f, file).state)
  {
    var i := IndexOfId(st.records, id).value;
    assert Stored(st.records[i]);
    UpdateSucceeds(st, id, f, file);
    ReplaceImage(st, i, Edited(st.records[i], f, file), file);
  }

  lemma ReplaceImage(st: State, i: nat, e: Employee, file: Option<Upload>)
    requires Uploaded(st, file) && ImagesOk(st) && i < |st.records|
    requires e.image == (if file.Some? then file.value.path else st.records[i].image)
    ensures ImagesOk(State(st.records[i := e], DropOldImage(st.uploads, st.records[i], file)))
  {
    var r := st.records[i := e];
    var u := DropOldImage(st.uploads, st.records[i], file);
    if file.Some? {
      FileKeyIdempotent(file.value.path);
    }
    forall j | 0 <= j < |r| && j != i ensures r[j] == st.records[j] && FileKey(r[j].image) != FileKey(st.records[i].image) {
      if j < i {} else {}
    }
    forall j | 0 <= j < |r| ensures FileKey(r[j].image) in u {
    }
    forall a, b | 0 <= a < b < |r| ensures FileKey(r[a].image) != FileKey(r[b].image) {
    }
  }

  lemma UpdateKeeps(st: State, id: nat, f: EmployeeForm, file: Option<Upload>)
    requires Uploaded(st, file)
    ensures var o := UpdateOutcome(st, id, f, file);
      && (StoreOk(st.records) ==> StoreOk(o.state.records))
      && (StoreOk(st.records) && ImagesOk(st) && o.status != 500 ==> StoreOk(o.state.records) && ImagesOk(o.state))
  {
    if StoreOk(st.records) {
      UpdateKeepsStoreOk(st, id, f, file);
      if ImagesOk(st) && UpdateOutcome(st, id, f, file).status != 500 {
        UpdateKeepsImages(st, id, f, file);
      }
    }
  }

  lemma UpdateSaveStep(st: State, id: nat, f: EmployeeForm, file: Option<Upload>, i: nat)
    requires Uploaded(st, file) && FormError(f).None? && !EmailTakenByOther(st.records, f.email, id)
    requires IndexOfId(st.records, id) == Some(i)
    ensures var e := st.records[i];
      var uploads := DropOldImage(st.uploads, e, file);
      UpdateOutcome(st, id, f, file) ==
        match Save(st.records, i, Edited(e, f, file))
        case Some(r) => Outcome(200, Saved("Employee updated successfully", r[i]), State(r, uploads))
        case None => Outcome(500, Message("Server error"), State(st.records, DropUpload(uploads, file)))
  {
  }

  /** The defect: with a new file, a save that fails (here on a designation
      the controller does not check) leaves the document pointing at an image
      file that update has already removed. */
  lemma UpdateCanLoseImage(st: State, id: nat, f: EmployeeForm, file: Option<Upload>)
    requires Uploaded(st, file) && StoreOk(st.records)
    requires file.Some? && FormError(f).None? && !EmailTakenByOther(st.records, f.email, id)
    requires IndexOfId(st.records, id).Some?
    requires f.designation !in Designations
    ensures UpdateOutcome(st, id, f, file).status == 500
    ensures !ImagesOk(UpdateOutcome(st, id, f, file).state)
  {
    var i := IndexOfId(st.records, id).value;
    assert Stored(st.records[i]);
    var o := UpdateOutcome(st, id, f, file);
    assert o.state.records[i] == st.records[i];
    assert FileKey(o.state.records[i].image) !in o.state.uploads;
  }

  /** Unlinking the old image only after a successful save gives the same
      status, response and documents as update. */
  lemma UpdateFixedAgrees(st: State, id: nat, f: EmployeeForm, file: Option<Upload>)
    requires Uploaded(st, file)
    ensures var o := UpdateOutcomeFixed(st, id, f, file);
      var p := UpdateOutcome(st, id, f, file);
      o.status == p.status && o.body == p.body && o.state.records == p.state.records
  {
    if FormError(f).None? && !EmailTakenByOther(st.records, f.email, id) {
      match IndexOfId(st.records, id)
      case None =>
      case Some(i) =>
        UpdateSaveStep(st, id, f, file, i);
        FixedSaveStep(st, id, f, file, i);
    }
  }

  /** ... and keeps every document's image file on every path. */
  lemma UpdateFixedKeepsImages(st: State, id: nat, f: EmployeeForm, file: Option<Upload>)
    requires Uploaded(st, file) && StoreOk(st.records) && ImagesOk(st)
    ensures ImagesOk(UpdateOutcomeFixed(st, id, f, file).state)
  {
    if FormError(f).None? && !EmailTakenByOther(st.records, f.email, id) {
      match IndexOfId(st.records, id)
      case None =>
      case Some(i) =>
        var e := Edited(st.records[i], f, file);
        FixedSaveStep(st, id, f, file, i);
        assert Stored(st.records[i]);
        SaveExisting(st.records, i, e);
        if Save(st.records, i, e).Some? {
          ReplaceImage(st, i, e, file);
        } else {
          DropUploadKeepsImages(st, file);
        }
    }
  }

  lemma FixedSaveStep(st: State, id: nat, f: EmployeeForm, file: Option<Upload>, i: nat)
    requires Uploaded(st, file) && FormError(f).None? && !EmailTakenByOther(st.records, f.email, id)
    requires IndexOfId(st.records, id) == Some(i)
    ensures var e := st.records[i];
      UpdateOutcomeFixed(st, id, f, file) ==
        match Save(st.records, i, Edited(e, f, file))
        case Some(r) => Outcome(200, Saved("Employee updated successfully", r[i]), State(r, DropOldImage(st.uploads, e, file)))
        case None => Outcome(500, Message("Server error"), State(st.records, DropUpload(st.uploads, file)))
  {
  }

  lemma FixedSaved(st: State, id: nat, f: EmployeeForm, file: Option<Upload>, i: nat, r: seq<Employee>)
    requires Uploaded(st, file) && FormError(f).None? && !EmailTakenByOther(st.records, f.email, id)
    requires IndexOfId(st.records, id) == Some(i)
    requires Save(st.records, i, Edited(st.records[i], f, file)) == Some(r)
    ensures i < |r|
    ensures UpdateOutcomeFixed(st, id, f, file) ==
      Outcome(200, Saved("Employee updated successfully", r[i]), State(r, DropOldImage(st.uploads, st.records[i], file)))
  {
    FixedSaveStep(st, id, f, file, i);
  }

  lemma FixedSaveFailed(st: State, id: nat, f: EmployeeForm, file: Option<Upload>, i: nat)
    requires Uploaded(st, file) && FormError(f).None? && !EmailTakenByOther(st.records, f.email, id)
    requires IndexOfId(st.records, id) == Some(i)
    requires Save(st.records, i, Edited(st.records[i], f, file)).None?
    ensures UpdateOutcomeFixed(st, id, f, file) ==
      Outcome(500, Message("Server error"), State(st.records, DropUpload(st.uploads, file)))
  {
    FixedSaveStep(st, id, f, file, i);
  }

  /** With the corrected order update keeps both invariants on every path. */
  lemma FixedKeeps(st: State, id: nat, f: EmployeeForm, file: Option<Upload>)
    requires Uploaded(st, file)
    ensures var o := UpdateOutcomeFixed(st, id, f, file);
      StoreOk(st.records) && ImagesOk(st) ==> StoreOk(o.state.records) && ImagesOk(o.state)
  {
    if StoreOk(st.records) && ImagesOk(st) {
      UpdateFixedAgrees(st, id, f, file);
      UpdateKeepsStoreOk(st, id, f, file);
      UpdateFixedKeepsImages(st, id, f, file);
    }
  }

  lemma DropUploadKeepsImages(st: State, file: Option<Upload>)
    requires Uploaded(st, file) && ImagesOk(st)
    ensures ImagesOk(State(st.records, DropUpload(st.uploads, file)))
  {
  }

  // Lookup, delete, toggle

  /** Lookup changes nothing, answers 404 exactly when no document has the
      id, and otherwise returns the first document with it. */
  lemma GetByIdFinds(st: State, id: nat)
    ensures var o := GetByIdOutcome(st, id);
      && o.state == st
      && (o.status == 404 <==> forall i :: 0 <= i < |st.records| ==> st.records[i].id != id)
      && (o.status == 200 ==> o.body.Found? && o.body.employee in st.records && o.body.employee.id == id)
  {
  }

  /** Delete answers 404 exactly when no document has the id, changing
      nothing; otherwise it removes that document and its image file and
      keeps the other documents in order. */
  lemma DeleteRemoves(st: State, id: nat)
    ensures var o := DeleteOutcome(st, id);
      && (o.status == 404 <==> forall i :: 0 <= i < |st.records| ==> st.records[i].id != id)
      && (o.status == 404 ==> o.state == st)
      && (o.status == 200 ==>
            var i := IndexOfId(st.records, id).value;
            && o.state.records == st.records[..i] + st.records[i + 1..]
            && o.state.uploads == (if st.records[i].image != "" then st.uploads - {FileKey(st.records[i].image)} else st.uploads))
  {
  }

  /** With unique ids no document with the id is left after delete, and every other one is. */
  lemma DeleteKeepsOthers(st: State, id: nat)
    requires UniqueKeys(st.records)
    ensures var r := DeleteOutcome(st, id).state.records;
      && (forall e :: e in r ==> e.id != id)
      && (forall e :: e in st.records && e.id != id ==> e in r)
  {
    if IndexOfId(st.records, id).Some? {
      var i := IndexOfId(st.records, id).value;
      assert DeleteOutcome(st, id).state.records == st.records[..i] + st.records[i + 1..];
      RemoveOnlyId(st.records, i);
    }
  }

  /** Removing the document with a unique id removes that id and nothing else. */
  lemma RemoveOnlyId(records: seq<Employee>, i: nat)
    requires UniqueKeys(records) && i < |records|
    ensures var r := records[..i] + records[i + 1..];
      && (forall e :: e in r ==> e.id != records[i].id)
      && (forall e :: e in records && e.id != records[i].id ==> e in r)
  {
    var r := records[..i] + records[i + 1..];
    forall e | e in r ensures e.id != records[i].id {
      var k :| 0 <= k < |r| && r[k] == e;
      var m := RemovedAt(records, i, k);
      Distinct(records, m, i);
    }
    forall e | e in records && e.id != records[i].id ensures e in r {
      var m :| 0 <= m < |records| && records[m] == e;
      var k := if m < i then m else m - 1;
      var m' := RemovedAt(records, i, k);
    }
  }

  lemma DeleteKeepsInvariant(st: State, id: nat)
    requires StoreOk(st.records) && ImagesOk(st)
    ensures StoreOk(DeleteOutcome(st, id).state.records) && ImagesOk(DeleteOutcome(st, id).state)
  {
    match IndexOfId(st.records, id)
    case None =>
    case Some(i) =>
      var e := st.records[i];
      var u := if e.image != "" then st.uploads - {FileKey(e.image)} else st.uploads;
      assert DeleteOutcome(st, id).state == State(st.records[..i] + st.records[i + 1..], u);
      StoreOkRemove(st.records, i);
      RemoveImage(st, i);
  }

  lemma RemoveImage(st: State, i: nat)
    requires ImagesOk(st) && i < |st.records|
    ensures var e := st.records[i];
      var u := if e.image != "" then st.uploads - {FileKey(e.image)} else st.uploads;
      ImagesOk(State(st.records[..i] + st.records[i + 1..], u))
  {
    var r := st.records[..i] + st.records[i + 1..];
    forall k | 0 <= k < |r|
      ensures r[k] == st.records[if k < i then k else k + 1]
      ensures FileKey(r[k].image) != FileKey(st.records[i].image)
    {
      var m := if k < i then k else k + 1;
      if m < i {} else {}
    }
    forall a, b | 0 <= a < b < |r| ensures FileKey(r[a].image) != FileKey(r[b].image) {
      var a', b' := if a < i then a else a + 1, if b < i then b else b + 1;
      assert r[a] == st.records[a'] && r[b] == st.records[b'] && a' < b';
    }
  }

  /** Toggle answers 404 exactly when no document has the id, and then changes nothing. */
  lemma ToggleNotFound(st: State, id: nat)
    ensures var o := ToggleOutcome(st, id);
      && (o.status == 404 <==> IndexOfId(st.records, id).None?)
      && (o.status == 404 ==> o.state == st)
  {
  }

  /** With a valid store toggle of an existing id never fails: it flips that
      document's `isActive`, reports the new value, and changes nothing else. */
  lemma ToggleFlips(st: State, id: nat)
    requires StoreOk(st.records) && IndexOfId(st.records, id).Some?
    ensures var i := IndexOfId(st.records, id).value;
      var e := st.records[i];
      ToggleOutcome(st, id) == Outcome(200,
        Toggled(if e.isActive then "Employee deactivated successfully" else "Employee activated successfully", !e.isActive),
        State(st.records[i := e.(isActive := !e.isActive)], st.uploads))
  {
    var i := IndexOfId(st.records, id).value;
    var e := st.records[i].(isActive := !st.records[i].isActive);
    assert Stored(st.records[i]);
    forall j | 0 <= j < |st.records| && j != i ensures st.records[j].id != e.id && st.records[j].email != e.email {
      Distinct(st.records, i, j);
    }
    SaveExisting(st.records, i, e);
  }

  /** Toggle keeps the invariants. */
  lemma ToggleKeepsInvariant(st: State, id: nat)
    requires StoreOk(st.records) && ImagesOk(st)
    ensures StoreOk(ToggleOutcome(st, id).state.records) && ImagesOk(ToggleOutcome(st, id).state)
  {
    if IndexOfId(st.records, id).Some? {
      ToggleFlips(st, id);
      var i := IndexOfId(st.records, id).value;
      StoreOkFlip(st.records, i);
      FlipImages(st, i);
    } else {
      ToggleNotFound(st, id);
    }
  }

  lemma FlipImages(st: State, i: nat)
    requires ImagesOk(st) && i < |st.records|
    ensures ImagesOk(State(st.records[i := st.records[i].(isActive := !st.records[i].isActive)], st.uploads))
  {
    var r := st.records[i := st.records[i].(isActive := !st.records[i].isActive)];
    forall k | 0 <= k < |r| ensures r[k].image == st.records[k].image {
    }
  }

  /** Toggling twice restores the store. */
  lemma ToggleTwice(st: State, id: nat)
    requires StoreOk(st.records) && IndexOfId(st.records, id).Some?
    ensures ToggleOutcome(ToggleOutcome(st, id).state, id).state == st
  {
    var i := IndexOfId(st.records, id).value;
    var mid := State(Flip(st.records, i), st.uploads);
    ToggleState(st, id);
    FlipSameIndex(st.records, i, id);
    StoreOkFlip(st.records, i);
    ToggleState(mid, id);
    FlipBack(st.records, i);
  }

  function Flip(records: seq<Employee>, i: nat): seq<Employee>
    requires i < |records|
  {
    records[i := records[i].(isActive := !records[i].isActive)]
  }

  lemma ToggleState(st: State, id: nat)
    requires StoreOk(st.records) && IndexOfId(st.records, id).Some?
    ensures ToggleOutcome(st, id).state == State(Flip(st.records, IndexOfId(st.records, id).value), st.uploads)
  {
    ToggleFlips(st, id);
  }

  lemma FlipBack(records: seq<Employee>, i: nat)
    requires i < |records|
    ensures i < |Flip(records, i)| && Flip(Flip(records, i), i) == records
  {
  }

  lemma FlipSameIndex(records: seq<Employee>, i: nat, id: nat)
    requires IndexOfId(records, id) == Some(i)
    ensures IndexOfId(Flip(records, i), id) == Some(i)
  {
    var r := Flip(records, i);
    forall k | 0 <= k < |r| ensures r[k].id == records[k].id {
    }
    IndexOfIdIs(r, id, i);
  }

  lemma IndexOfIdIs(records: seq<Employee>, id: nat, i: nat)
    requires i < |records| && records[i].id == id
    requires forall k :: 0 <= k < i ==> records[k].id != id
    ensures IndexOfId(records, id) == Some(i)
  {
    match IndexOfId(records, id)
    case None =>
    case Some(k) =>
  }

  lemma StoreOkFlip(records: seq<Employee>, i: nat)
    requires StoreOk(records) && i < |records|
    ensures StoreOk(Flip(records, i))
  {
    var e := records[i].(isActive := !records[i].isActive);
    assert Stored(records[i]);
    forall j | 0 <= j < |records| && j != i ensures records[j].id != e.id && records[j].email != e.email {
      Distinct(records, i, j);
    }
    StoreOkReplace(records, i, e);
  }

  /** The collection and the `uploads/` directory as mutable state; each
      method runs its handler's steps in the handler's order. */
  class EmployeeStore {
    var records: seq<Employee>
    var uploads: set<string>

    function Snapshot(): State
      reads this
    {
      State(records, uploads)
    }

    /** The documents are valid, normalized and unique, and each has its own image file. */
    predicate Valid()
      reads this
    {
      StoreOk(records) && ImagesOk(Snapshot())
    }

    constructor ()
      ensures records == [] && uploads == {}
      ensures Valid()
    {
      records := [];
      uploads := {};
    }

    /** The upload step of the routes: the filter refuses anything but a JPEG
        or PNG image (`None`: multer ends the request with its error and no
        handler runs), and an accepted file is written under a name no file has. */
    method Receive(path: string, mimetype: string) returns (file: Option<Upload>)
      requires path != "" && FileKey(path) !in uploads
      modifies this
      ensures IsImageMime(mimetype) <==> file.Some?
      ensures file.Some? ==> file.value == Upload(path, mimetype) && uploads == old(uploads) + {FileKey(path)}
      ensures file.None? ==> uploads == old(uploads)
      ensures records == old(records)
      ensures old(Valid()) ==> Valid() && Uploaded(Snapshot(), file)
    {
      if !IsImageMime(mimetype) {
        return None;
      }
      ghost var before := Snapshot();
      uploads := uploads + {FileKey(path)};
      file := Some(Upload(path, mimetype));
      if ImagesOk(before) {
        forall i | 0 <= i < |records| ensures FileKey(records[i].image) != FileKey(path) {
          assert FileKey(records[i].image) in before.uploads;
        }
      }
    }

    method Create(f: EmployeeForm, file: Option<Upload>, now: int) returns (status: nat, body: Body)
      requires Uploaded(Snapshot(), file)
      modifies this
      ensures Outcome(status, body, Snapshot()) == CreateOutcome(old(Snapshot()), f, file, now)
      ensures old(Valid()) ==> Valid()
    {
      ghost var st := Snapshot();
      var docs, files := records, uploads;
      var err := FormError(f);
      if err.Some? {
        status, body := 400, Message(err.value);
      } else if EmailTaken(docs, f.email) {
        status, body := 400, Message("Email already exists");
      } else if file.None? {
        status, body := 400, Message("Employee image is required");
      } else {
        CreateSaveStep(st, f, file, now);
        var key := FileKey(file.value.path);
        var n := |docs|;
        var saved := Save(docs, n, NewEmployee(f, key, now));
        if saved.None? {
          files := files - {key};
          status, body := 500, Message("Server error");
        } else {
          docs := saved.value;
          status, body := 201, Saved("Employee created successfully", docs[n]);
        }
      }
      assert Outcome(status, body, State(docs, files)) == CreateOutcome(st, f, file, now);
      CreateKeeps(st, f, file, now);
      records, uploads := docs, files;
    }

    method GetById(id: nat) returns (status: nat, body: Body)
      ensures Outcome(status, body, Snapshot()) == GetByIdOutcome(Snapshot(), id)
    {
      var found := IndexOfId(records, id);
      if found.None? {
        return 404, Message("Employee not found");
      }
      return 200, Found(records[found.value]);
    }

    /** `updateEmployee`, with the old image unlinked only once the save has
        succeeded: the status, the response and the documents are those of
        the handler as written, and both invariants hold on every path. */
    method Update(id: nat, f: EmployeeForm, file: Option<Upload>) returns (status: nat, body: Body)
      requires Uploaded(Snapshot(), file)
      modifies this
      ensures Outcome(status, body, Snapshot()) == UpdateOutcomeFixed(old(Snapshot()), id, f, file)
      ensures var written := UpdateOutcome(old(Snapshot()), id, f, file);
        status == written.status && body == written.body && records == written.state.records
      ensures old(Valid()) ==> Valid()
    {
      ghost var st := Snapshot();
      status, body := UpdateSteps(id, f, file);
      UpdateFixedAgrees(st, id, f, file);
      FixedKeeps(st, id, f, file);
    }

    /** The steps of `updateEmployee`: the checks, the lookup, the save, then
        the unlink of the replaced image, or the catch block. */
    method UpdateSteps(id: nat, f: EmployeeForm, file: Option<Upload>) returns (status: nat, body: Body)
      requires Uploaded(Snapshot(), file)
      modifies this
      ensures Outcome(status, body, Snapshot()) == UpdateOutcomeFixed(old(Snapshot()), id, f, file)
    {
      ghost var st := Snapshot();
      var docs, files := records, uploads;
      var err := FormError(f);
      if err.Some? {
        status, body := 400, Message(err.value);
      } else if EmailTakenByOther(docs, f.email, id) {
        status, body := 400, Message("Email already exists for another employee");
      } else {
        var found := IndexOfId(docs, id);
        if found.None? {
          status, body := 404, Message("Employee not found");
        } else {
          var i := found.value;
          var e := docs[i];
          var saved := Save(docs, i, Edited(e, f, file));
          if saved.None? {
            FixedSaveFailed(st, id, f, file, i);
            if file.Some? {
              files := files - {FileKey(file.value.path)};
            }
            status, body := 500, Message("Server error");
          } else {
            FixedSaved(st, id, f, file, i, saved.value);
            if file.Some? && e.image != "" {
              files := files - {FileKey(e.image)};
            }
            docs := saved.value;
            status, body := 200, Saved("Employee updated successfully", docs[i]);
          }
        }
      }
      assert Outcome(status, body, State(docs, files)) == UpdateOutcomeFixed(st, id, f, file);
      records, uploads := docs, files;
    }

    method Delete(id: nat) returns (status: nat, body: Body)
      modifies this
      ensures Outcome(status, body, Snapshot()) == DeleteOutcome(old(Snapshot()), id)
      ensures old(Valid()) ==> Valid()
    {
      ghost var st := Snapshot();
      if Valid() {
        DeleteKeepsInvariant(st, id);
      }
      var found := IndexOfId(records, id);
      if found.None? {
        return 404, Message("Employee not found");
      }
      var i := found.value;
      if records[i].image != "" {
        uploads := uploads - {FileKey(records[i].image)};
      }
      records := records[..i] + records[i + 1..];
      return 200, Message("Employee deleted successfully");
    }

    method Toggle(id: nat) returns (status: nat, body: Body)
      modifies this
      ensures Outcome(status, body, Snapshot()) == ToggleOutcome(old(Snapshot()), id)
      ensures old(Valid()) ==> Valid()
    {
      ghost var st := Snapshot();
      if Valid() {
        ToggleKeepsInvariant(st, id);
      }
      var found := IndexOfId(records, id);
      if found.None? {
        return 404, Message("Employee not found");
      }
      var i := found.value;
      var e := records[i].(isActive := !records[i].isActive);
      var saved := Save(records, i, e);
      if saved.None? {
        return 500, Message("Server error");
      }
      records := saved.value;
      var text := if e.isActive then "Employee activated successfully" else "Employee deactivated successfully";
      return 200, Toggled(text, e.isActive);
    }
  }
}
