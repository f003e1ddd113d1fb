/** The employee document of `Backend/models/Employee.js`: its fields, the
    setters Mongoose runs when a field is assigned (`trim`, `lowercase`), the
    validators `save()` runs, the two unique indexes and the pre-save hook that
    numbers new documents. A collection of documents is a sequence in
    insertion order. */
module EmployeeModel {
  import opened Optional
  import opened Text
  import opened EmailFormat
  import Serial

  datatype Employee = Employee(
    id: nat,
    image: string,
    name: string,
    email: string,
    mobile: string,
    designation: string,
    gender: string,
    course: seq<string>,
    createDate: int,
    isActive: bool)

  const Designations: seq<string> := ["HR", "Manager", "Sales", "Software Developer", "Web Developer"]
  const Genders: seq<string> := ["Male", "Female"]
  const Courses: seq<string> := ["MCA", "BCA", "BSC", "B.Tech"]

  /** `/^\d{10}$/`. */
  predicate ValidMobile(s: string) {
    |s| == 10 && forall i :: 0 <= i < |s| ==> IsDigit(s[i])
  }

  /** The course validator: a non-empty array of allowed courses (repeats allowed). */
  predicate ValidCourses(c: seq<string>) {
    |c| > 0 && forall i :: 0 <= i < |c| ==> c[i] in Courses
  }

  /** The `trim` setter of `name`. */
  function SetName(s: string): string {
    Trim(s)
  }

  /** The `trim` and `lowercase` setters of `email`. */
  function SetEmail(s: string): string {
    Lower(Trim(s))
  }

  /** Every validator of the schema: `required` (a string must be non-empty),
      `match`, `enum` and the course validator. */
  predicate SchemaValid(e: Employee) {
    && e.image != ""
    && e.name != ""
    && ValidEmail(e.email)
    && ValidMobile(e.mobile)
    && e.designation in Designations
    && e.gender in Genders
    && ValidCourses(e.course)
  }

  /** What the setters leave behind: a trimmed name and a lower-case email. */
  predicate Normalized(e: Employee) {
    Trim(e.name) == e.name && Lower(e.email) == e.email
  }

  /** A document as it can sit in the collection. */
  predicate Stored(e: Employee) {
    e.id >= 1 && SchemaValid(e) && Normalized(e)
  }

  /** The unique indexes on `id` and `email`. */
  predicate UniqueKeys(records: seq<Employee>) {
    forall i, j :: 0 <= i < j < |records| ==> records[i].id != records[j].id && records[i].email != records[j].email
  }

  /** The invariant of the collection. */
  predicate StoreOk(records: seq<Employee>) {
    UniqueKeys(records) && forall i :: 0 <= i < |records| ==> Stored(records[i])
  }

  function Ids(records: seq<Employee>): (ids: seq<nat>)
    ensures |ids| == |records|
    ensures forall i :: 0 <= i < |records| ==> ids[i] == records[i].id
  {
    seq(|records|, i requires 0 <= i < |records| => records[i].id)
  }

  /** `findOne({id})`: the first document with that id. */
  function IndexOfId(records: seq<Employee>, id: nat): (r: Option<nat>)
    ensures r.None? ==> forall i :: 0 <= i < |records| ==> records[i].id != id
    ensures r.Some? ==> r.value < |records| && records[r.value].id == id
    ensures r.Some? ==> forall i :: 0 <= i < r.value ==> records[i].id != id
  {
    if records == [] then None
    else if records[0].id == id then Some(0)
    else match IndexOfId(records[1..], id)
      case None => None
      case Some(k) => Some(k + 1)
  }

  /** The pre-save hook: a document without an id (0 is falsy) gets the
      largest id in the collection plus one, or 1. */
  function PreSave(records: seq<Employee>, e: Employee): Employee {
    e.(id := Serial.Assign(e.id, Ids(records)))
  }

  /** `e` clashes on neither unique index with a document other than the one in `slot`. */
  predicate NoClash(records: seq<Employee>, slot: nat, e: Employee) {
    forall j :: 0 <= j < |records| && j != slot ==> records[j].id != e.id && records[j].email != e.email
  }

  /** `save()` of document `e`, which sits at position `slot` of the
      collection, or is new when `slot` is `|records|`: the hook numbers it,
      the validators and the unique indexes accept it or the save fails. */
  function Save(records: seq<Employee>, slot: nat, e: Employee): (r: Option<seq<Employee>>)
    requires slot <= |records|
    ensures r.Some? ==> |r.value| == (if slot == |records| then |records| + 1 else |records|)
    ensures r.Some? ==> SchemaValid(r.value[slot])
    ensures r.Some? ==> forall j :: 0 <= j < |records| && j != slot ==> r.value[j] == records[j]
  {
    var doc := PreSave(records, e);
    if SchemaValid(doc) && NoClash(records, slot, doc) then
      Some(if slot == |records| then records + [doc] else records[slot := doc])
    else
      None
  }

  /** A document that already has an id keeps it when saved; so saving a
      changed copy of a stored document replaces exactly that document. */
  lemma SaveExisting(records: seq<Employee>, slot: nat, e: Employee)
    requires slot < |records| && e.id >= 1
    ensures Save(records, slot, e).Some? <==> SchemaValid(e) && NoClash(records, slot, e)
    ensures Save(records, slot, e).Some? ==> Save(records, slot, e).value == records[slot := e]
  {
  }

  /** A document saved without an id gets `Serial.Next` of the ids, a number
      no document has, and is appended. */
  lemma SaveNew(records: seq<Employee>, e: Employee)
    requires e.id == 0
    ensures var doc := e.(id := Serial.Next(Ids(records)));
      && doc.id !in Ids(records)
      && (Save(records, |records|, e).Some? <==> SchemaValid(doc) && NoClash(records, |records|, doc))
      && (Save(records, |records|, e).Some? ==> Save(records, |records|, e).value == records + [doc])
  {
  }

  /** The id the hook gives is fresh, so only the email index can refuse a new document. */
  lemma NewIdNeverClashes(records: seq<Employee>, e: Employee)
    requires e.id == 0
    ensures NoClash(records, |records|, PreSave(records, e)) <==>
      forall j :: 0 <= j < |records| ==> records[j].email != e.email
  {
    var keys := Ids(records);
    forall j | 0 <= j < |records| ensures records[j].id != PreSave(records, e).id {
      assert keys[j] in keys;
    }
  }

  /** Saving a normalized, numbered document keeps the collection's invariant. */
  lemma SaveKeepsStoreOk(records: seq<Employee>, slot: nat, e: Employee)
    requires StoreOk(records) && slot <= |records|
    requires Normalized(e) && (slot < |records| ==> e.id >= 1)
    requires Save(records, slot, e).Some?
    ensures StoreOk(Save(records, slot, e).value)
  {
    var r := Save(records, slot, e).value;
    var doc := PreSave(records, e);
    assert r[slot] == doc;
    SaveKeepsUnique(records, slot, doc, r);
    forall k | 0 <= k < |r| ensures Stored(r[k]) {
      if k != slot {
        assert r[k] == records[k];
      }
    }
  }

  lemma SaveKeepsUnique(records: seq<Employee>, slot: nat, doc: Employee, r: seq<Employee>)
    requires UniqueKeys(records) && slot <= |records|
    requires |r| == (if slot == |records| then |records| + 1 else |records|)
    requires r[slot] == doc && NoClash(records, slot, doc)
    requires forall j :: 0 <= j < |records| && j != slot ==> r[j] == records[j]
    ensures UniqueKeys(r)
  {
    forall i, j | 0 <= i < j < |r| ensures r[i].id != r[j].id && r[i].email != r[j].email {
      if i == slot {
        assert r[j] == records[j];
      } else if j == slot {
        assert r[i] == records[i];
      } else {
        assert r[i] == records[i] && r[j] == records[j];
      }
    }
  }

  /** An email the controller's check accepts passes the schema unchanged
      except for case: `trim` leaves it alone, and its lower-case form still
      matches the pattern. */
  lemma SetEmailValid(s: string)
    requires ValidEmail(s)
    ensures SetEmail(s) == Lower(s)
    ensures ValidEmail(SetEmail(s))
    ensures Lower(SetEmail(s)) == SetEmail(s)
  {
    ValidEmailHasNoSpace(s);
    ValidEmailLower(s);
    LowerIdempotent(s);
  }

  /** The `trim` setter's result is trimmed. */
  lemma SetNameTrimmed(s: string)
    ensures Trim(SetName(s)) == SetName(s)
  {
    TrimIdempotent(s);
  }

  /** Replacing one document by a stored one that clashes with no other keeps the invariant. */
  lemma StoreOkReplace(records: seq<Employee>, i: nat, e: Employee)
    requires StoreOk(records) && i < |records| && Stored(e) && NoClash(records, i, e)
    ensures StoreOk(records[i := e])
  {
    var r := records[i := e];
    forall k | 0 <= k < |r| ensures Stored(r[k]) {
      if k != i { assert r[k] == records[k]; }
    }
    forall a, b | 0 <= a < b < |r| ensures r[a].id != r[b].id && r[a].email != r[b].email {
      if a == i {
        assert r[b] == records[b];
      } else if b == i {
        assert r[a] == records[a];
      } else {
        assert r[a] == records[a] && r[b] == records[b];
      }
    }
  }

  /** Position `k` of the sequence without position `i` holds position `m` of the original. */
  lemma RemovedAt(records: seq<Employee>, i: nat, k: nat) returns (m: nat)
    requires i < |records| && k < |records| - 1
    ensures m == (if k < i then k else k + 1) && m < |records| && m != i
    ensures (records[..i] + records[i + 1..])[k] == records[m]
  {
    m := if k < i then k else k + 1;
  }

  /** Removing one document keeps the invariant. */
  lemma StoreOkRemove(records: seq<Employee>, i: nat)
    requires StoreOk(records) && i < |records|
    ensures StoreOk(records[..i] + records[i + 1..])
  {
    var r := records[..i] + records[i + 1..];
    forall k | 0 <= k < |r| ensures Stored(r[k]) {
      var m := RemovedAt(records, i, k);
    }
    forall a, b | 0 <= a < b < |r| ensures r[a].id != r[b].id && r[a].email != r[b].email {
      var a' := RemovedAt(records, i, a);
      var b' := RemovedAt(records, i, b);
    }
  }
}
