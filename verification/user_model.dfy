/** The User record (server/Models/usermodel.js): the setters (`trim`,
    `lowercase`), the `required`/`unique` rules and the presence defaults. The users
    collection is a sequence in insertion order, so `findOne` is "the first match". */
module UserModel {
  import opened Wrappers
  import opened Identity
  import Text

  const ValidationFailed: string := "User validation failed"

  /** A stored user; `password` holds the bcrypt hash, never the clear text. */
  datatype User = User(
    id: Id,
    username: string,
    email: string,
    password: string,
    isOnline: bool,
    lastSeen: Option<Time>)

  /** The `trim: true` setter of `username`: it empties exactly the blank names,
      and applying it again changes nothing. */
  function NormalizeUsername(name: string): (r: string)
    ensures r == "" <==> Text.IsBlank(name)
    ensures Text.Trim(r) == r
    ensures |r| <= |name|
  {
    Text.TrimEmptyIffBlank(name);
    Text.TrimIdempotent(name);
    Text.Trim(name)
  }

  /** The `lowercase: true, trim: true` setters of `email`; they apply to stored
      values and to query filters alike. */
  function NormalizeEmail(email: string): (r: string)
    ensures |r| <= |email|
  {
    Text.Trim(Text.Lower(email))
  }

  /** The stored address is the lower-cased input with the white space at both ends
      cut: a slice of the lower-cased input, with no upper-case ASCII letter and no
      white space at either end. */
  lemma NormalizeEmailShape(email: string)
    ensures forall i :: 0 <= i < |NormalizeEmail(email)| ==> !('A' <= NormalizeEmail(email)[i] <= 'Z')
    ensures NormalizeEmail(email) == [] ||
      (!Text.IsSpace(NormalizeEmail(email)[0]) && !Text.IsSpace(NormalizeEmail(email)[|NormalizeEmail(email)| - 1]))
    ensures exists a, b :: 0 <= a <= b <= |email| && NormalizeEmail(email) == Text.Lower(email)[a..b]
  {
    Text.TrimIsSlice(Text.Lower(email));
  }

  /** The email setters empty exactly the addresses that are blank once
      lower-cased, which `required` then refuses. */
  lemma NormalizeEmailEmptyIffBlank(email: string)
    ensures NormalizeEmail(email) == "" <==> Text.IsBlank(Text.Lower(email))
  {
    Text.TrimEmptyIffBlank(Text.Lower(email));
  }

  /** Normalising an email twice is normalising it once, so a stored email matches
      a query for itself. */
  lemma NormalizeEmailIdempotent(email: string)
    ensures NormalizeEmail(NormalizeEmail(email)) == NormalizeEmail(email)
  {
    NormalizeEmailShape(email);
    Text.LowerKeepsLowerCase(NormalizeEmail(email));
    Text.TrimIdempotent(Text.Lower(email));
  }

  /** `new User(data)` with the password already hashed, then validation: the
      setters normalise username and email, and the presence fields are the body's
      (`isOnline` false and `lastSeen` null when the body leaves them out); a
      required field that is empty after its setters refuses the document. */
  function NewUser(id: Id, username: string, email: string, passwordHash: string,
                   isOnline: bool, lastSeen: Option<Time>)
    : (r: Result<User, string>)
    ensures r.Success? <==>
      NormalizeUsername(username) != "" && NormalizeEmail(email) != "" && passwordHash != ""
    ensures r.Success? ==>
      && r.value.id == id
      && r.value.username == NormalizeUsername(username)
      && r.value.email == NormalizeEmail(email)
      && r.value.password == passwordHash
      && r.value.isOnline == isOnline && r.value.lastSeen == lastSeen
    ensures r.Failure? ==> r.error == ValidationFailed
  {
    var u := User(id, NormalizeUsername(username), NormalizeEmail(email), passwordHash, isOnline, lastSeen);
    if u.username != "" && u.email != "" && u.password != "" then Success(u)
    else Failure(ValidationFailed)
  }

  /** A stored user: an id and the required fields. The presence fields may hold
      any combination, since a registration body can set both. */
  predicate WellFormed(u: User) {
    u.id != "" && u.username != "" && u.email != "" && u.password != ""
  }

  /** Everything but the presence fields is equal. */
  predicate SameAccount(a: User, b: User) {
    a.id == b.id && a.username == b.username && a.email == b.email && a.password == b.password
  }

  /** The users collection: well-formed users, and ids, usernames and emails unique
      (the `_id` index and the two `unique: true` indexes). */
  predicate ValidUsers(us: seq<User>) {
    && (forall i :: 0 <= i < |us| ==> WellFormed(us[i]))
    && (forall i, j :: 0 <= i < j < |us| ==> Distinct(us[i], us[j]))
  }

  /** Two users share neither id, username nor email. */
  predicate Distinct(a: User, b: User) {
    a.id != b.id && a.username != b.username && a.email != b.email
  }

  /** The ids of the users collection. */
  function UserIds(us: seq<User>): set<Id> {
    set u | u in us :: u.id
  }

  /** `findOne(filter)`: the position of the first user the filter accepts. */
  function FindFirst(us: seq<User>, accepts: User -> bool): (r: Option<nat>)
    ensures r.Some? ==> r.value < |us| && accepts(us[r.value])
    ensures r.Some? ==> forall j :: 0 <= j < r.value ==> !accepts(us[j])
    ensures r.None? ==> forall j :: 0 <= j < |us| ==> !accepts(us[j])
  {
    if |us| == 0 then None
    else if accepts(us[0]) then Some(0)
    else
      match FindFirst(us[1..], accepts)
      case None => None
      case Some(k) => Some(k + 1)
  }

  /** `findOne({ email })`, the query value passing through the same setters. */
  function FindByEmail(us: seq<User>, email: string): (r: Option<nat>)
    ensures r.Some? ==> r.value < |us| && us[r.value].email == NormalizeEmail(email)
    ensures r.None? ==> forall j :: 0 <= j < |us| ==> us[j].email != NormalizeEmail(email)
  {
    var e := NormalizeEmail(email);
    FindFirst(us, (u: User) => u.email == e)
  }

  /** `User.findByIdAndUpdate(id, { isOnline, lastSeen })`: the user with that id
      gets the two presence fields, every other user and every other field is
      untouched, and an unknown id changes nothing. */
  function SetPresence(us: seq<User>, id: Id, online: bool, lastSeen: Option<Time>)
    : (r: seq<User>)
    ensures |r| == |us|
    ensures forall i :: 0 <= i < |us| && us[i].id != id ==> r[i] == us[i]
    ensures forall i :: 0 <= i < |us| && us[i].id == id ==>
      SameAccount(us[i], r[i]) && r[i].isOnline == online && r[i].lastSeen == lastSeen
    ensures id !in UserIds(us) ==> r == us
    ensures UserIds(r) == UserIds(us)
  {
    var r := seq(|us|, i requires 0 <= i < |us| =>
      if us[i].id == id then us[i].(isOnline := online, lastSeen := lastSeen) else us[i]);
    assert forall i :: 0 <= i < |us| ==> r[i].id == us[i].id;
    assert UserIds(r) == UserIds(us) by {
      forall x | x in UserIds(us)
        ensures x in UserIds(r)
      {
        var k :| 0 <= k < |us| && us[k].id == x;
        assert r[k] in r;
      }
    }
    r
  }

  /** A presence update keeps the collection valid. */
  lemma SetPresenceKeepsValid(us: seq<User>, id: Id, online: bool, lastSeen: Option<Time>)
    requires ValidUsers(us)
    ensures ValidUsers(SetPresence(us, id, online, lastSeen))
  {
    var r := SetPresence(us, id, online, lastSeen);
    forall i | 0 <= i < |r|
      ensures WellFormed(r[i])
    {
      assert SameAccount(us[i], r[i]);
      assert WellFormed(us[i]);
    }
    forall i, j | 0 <= i < j < |r|
      ensures Distinct(r[i], r[j])
    {
      assert SameAccount(us[i], r[i]) && SameAccount(us[j], r[j]);
    }
  }
}
