/** The user document of `Backend/models/User.js`: two pre-save hooks (the
    `sno` numbering and the password hashing), the `required` validators, the
    unique indexes and `comparePassword`. bcrypt stays uninterpreted: `hash`
    stands for `bcrypt.hash` with the salt of that save, and `matches` for
    `bcrypt.compare`. */
module UserModel {
  import opened Optional
  import Serial

  /** A stored user; `oid` is the `_id` the driver generates and `password`
      holds whatever the hash hook left in the field. */
  datatype User = User(oid: nat, sno: nat, userName: string, password: string)

  function Snos(users: seq<User>): (snos: seq<nat>)
    ensures |snos| == |users|
    ensures forall i :: 0 <= i < |users| ==> snos[i] == users[i].sno
  {
    seq(|users|, i requires 0 <= i < |users| => users[i].sno)
  }

  /** The unique indexes on `sno` and `userName`, and distinct `_id`s. */
  predicate UniqueUsers(users: seq<User>) {
    forall i, j :: 0 <= i < j < |users| ==>
      users[i].oid != users[j].oid && users[i].sno != users[j].sno && users[i].userName != users[j].userName
  }

  /** The invariant of the collection: unique keys, numbered users, and the
      required fields present. */
  predicate UsersOk(users: seq<User>) {
    UniqueUsers(users) && forall i :: 0 <= i < |users| ==> users[i].sno >= 1 && users[i].userName != ""
  }

  /** Both pre-save hooks in their order: a falsy `sno` becomes the next
      number, and the password is hashed only when it was modified. */
  function PreSaveUser(users: seq<User>, u: User, passwordModified: bool, hash: string -> string): User {
    var numbered := u.(sno := Serial.Assign(u.sno, Snos(users)));
    if passwordModified then numbered.(password := hash(numbered.password)) else numbered
  }

  /** `findOne({userName})`. */
  function FindUser(users: seq<User>, userName: string): (r: Option<nat>)
    ensures r.None? ==> forall i :: 0 <= i < |users| ==> users[i].userName != userName
    ensures r.Some? ==> r.value < |users| && users[r.value].userName == userName
    ensures r.Some? ==> forall i :: 0 <= i < r.value ==> users[i].userName != userName
  {
    if users == [] then None
    else if users[0].userName == userName then Some(0)
    else match FindUser(users[1..], userName)
      case None => None
      case Some(k) => Some(k + 1)
  }

  /** `u` clashes on no unique key with a user other than the one in `slot`. */
  predicate UserNoClash(users: seq<User>, slot: nat, u: User) {
    forall j :: 0 <= j < |users| && j != slot ==>
      users[j].oid != u.oid && users[j].sno != u.sno && users[j].userName != u.userName
  }

  /** `save()` of the user in `slot`, or of a new one when `slot` is `|users|`:
      the `required` validators run on the fields as set, then the hooks,
      then the unique indexes accept the document or the save fails. */
  function SaveUser(users: seq<User>, slot: nat, u: User, passwordModified: bool, hash: string -> string): (r: Option<seq<User>>)
    requires slot <= |users|
    ensures r.Some? ==> u.userName != "" && u.password != ""
    ensures r.Some? ==> |r.value| == (if slot == |users| then |users| + 1 else |users|)
    ensures r.Some? ==> forall j :: 0 <= j < |users| && j != slot ==> r.value[j] == users[j]
  {
    if u.userName == "" || u.password == "" then None
    else
      var doc := PreSaveUser(users, u, passwordModified, hash);
      if UserNoClash(users, slot, doc) then
        Some(if slot == |users| then users + [doc] else users[slot := doc])
      else None
  }

  /** A new user (no `sno`, password just set) is numbered after every user
      and stored with the hash of its password. */
  lemma SaveNewUser(users: seq<User>, u: User, hash: string -> string)
    requires u.sno == 0 && u.userName != "" && u.password != ""
    requires forall j :: 0 <= j < |users| ==> users[j].oid != u.oid && users[j].userName != u.userName
    ensures SaveUser(users, |users|, u, true, hash) ==
      Some(users + [u.(sno := Serial.Next(Snos(users)), password := hash(u.password))])
    ensures Serial.Next(Snos(users)) !in Snos(users)
  {
    var snos := Snos(users);
    forall j | 0 <= j < |users| ensures users[j].sno != Serial.Next(snos) {
      assert snos[j] in snos;
    }
  }

  /** A re-save that did not touch the password keeps the stored hash and the
      number: nothing is hashed twice. */
  lemma ResaveKeepsPassword(users: seq<User>, slot: nat, hash: string -> string)
    requires slot < |users| && users[slot].sno >= 1
    requires SaveUser(users, slot, users[slot], false, hash).Some?
    ensures SaveUser(users, slot, users[slot], false, hash).value == users
  {
  }

  /** Saving keeps the collection's invariant. */
  lemma SaveUserKeepsOk(users: seq<User>, slot: nat, u: User, passwordModified: bool, hash: string -> string)
    requires UsersOk(users) && slot <= |users|
    requires SaveUser(users, slot, u, passwordModified, hash).Some?
    ensures UsersOk(SaveUser(users, slot, u, passwordModified, hash).value)
  {
    var r := SaveUser(users, slot, u, passwordModified, hash).value;
    var doc := PreSaveUser(users, u, passwordModified, hash);
    assert r[slot] == doc;
    forall i, j | 0 <= i < j < |r|
      ensures r[i].oid != r[j].oid && r[i].sno != r[j].sno && r[i].userName != r[j].userName
    {
      if i == slot {
        assert r[j] == users[j];
      } else if j == slot {
        assert r[i] == users[i];
      } else {
        assert r[i] == users[i] && r[j] == users[j];
      }
    }
  }

  /** `comparePassword`: delegated to bcrypt's compare on the stored hash. */
  predicate ComparePassword(u: User, candidate: string, matches: (string, string) -> bool) {
    matches(candidate, u.password)
  }
}
