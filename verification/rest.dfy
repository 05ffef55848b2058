/** The REST routes of server/API/user.js over the users and messages collections:
    register, login, the user directory, the conversation query, the fallback send,
    the unread aggregation and mark-as-read. The authenticated user id is a verified
    parameter (token checking is outside the model). */
module Rest {
  import opened Wrappers
  import opened Identity
  import opened MessageModel
  import UserModel

  /** An error response: the HTTP status and the `error` text of its body. */
  datatype HttpError = HttpError(status: nat, error: string)

  /** The status Express's default error handler answers a rejected promise with. */
  const ServerFailure: nat := 500

  // ---------------------------------------------------------------------------
  // Register and login
  // ---------------------------------------------------------------------------

  /** The body of `POST /register`, stored whole by `new User(req.body)`. A
      `password` that is absent or not a string is `None`; an absent `_id` is the
      empty string (the database then assigns one); an absent `isOnline` is false
      and an absent or null `lastSeen` is `None`, the schema defaults. */
  datatype Registration = Registration(
    username: string,
    email: Option<string>,
    password: Option<string>,
    id: Id,
    isOnline: bool,
    lastSeen: Option<Time>)

  /** The `_id` the saved user gets: the body's when it carries one, otherwise the
      one the database assigns. */
  function StoredId(data: Registration, freshId: Id): Id {
    if data.id != "" then data.id else freshId
  }

  /** `User.findOne({ email: data.email })` finds a user. An absent email drops out
      of the filter, which then matches any document, so it finds a user as soon as
      one is stored. */
  predicate EmailTaken(users: seq<UserModel.User>, email: Option<string>) {
    match email
    case None => |users| > 0
    case Some(e) => UserModel.FindByEmail(users, e).Some?
  }

  /** The email the new document is built with; an absent one stays unset, which
      `required` refuses like the empty string. */
  function BodyEmail(data: Registration): string {
    if data.email.Some? then data.email.value else ""
  }

  /** `POST /register`. An email lookup that finds a user is answered 400 and
      creates nothing; with no email in the body that is any stored user. Otherwise the password is hashed (`passwordHash` is the
      hasher's output; hashing throws only when the password is absent or not a
      string, and hashes the empty string like any other) and the whole body is
      saved: a document failing validation, or an `_id` or username that is taken
      (the unique indexes), rejects the save. The saved user carries the normalised
      username and email, the hash and the body's presence fields. */
  function Register(users: seq<UserModel.User>, data: Registration, freshId: Id, passwordHash: string)
    : (r: Result<(seq<UserModel.User>, UserModel.User), HttpError>)
    requires freshId != "" && freshId !in UserModel.UserIds(users)
    ensures EmailTaken(users, data.email) ==>
      r == Failure(HttpError(400, "User already exists"))
    ensures !EmailTaken(users, data.email) && data.password.None? ==>
      r == Failure(HttpError(ServerFailure, "Illegal arguments"))
    ensures r.Failure? ==> r.error.status == 400 || r.error.status == ServerFailure
    ensures r.Success? <==>
      && !EmailTaken(users, data.email)
      && data.password.Some?
      && UserModel.NormalizeUsername(data.username) != ""
      && data.email.Some?
      && UserModel.NormalizeEmail(BodyEmail(data)) != ""
      && passwordHash != ""
      && StoredId(data, freshId) !in UserModel.UserIds(users)
      && (forall i :: 0 <= i < |users| ==> users[i].username != UserModel.NormalizeUsername(data.username))
    ensures r.Success? ==>
      var (users', u) := r.value;
      && users' == users + [u]
      && u.id == StoredId(data, freshId) && u.password == passwordHash
      && u.username == UserModel.NormalizeUsername(data.username)
      && u.email == UserModel.NormalizeEmail(BodyEmail(data))
      && u.isOnline == data.isOnline && u.lastSeen == data.lastSeen
      && UserModel.WellFormed(u)
      && (forall i :: 0 <= i < |users| ==> users[i].email != u.email && users[i].username != u.username)
  {
    if EmailTaken(users, data.email) then
      Failure(HttpError(400, "User already exists"))
    else if data.password.None? then
      Failure(HttpError(ServerFailure, "Illegal arguments"))
    else
      match UserModel.NewUser(StoredId(data, freshId), data.username, BodyEmail(data), passwordHash,
                              data.isOnline, data.lastSeen)
      case Failure(e) => Failure(HttpError(ServerFailure, e))
      case Success(u) =>
        if StoredId(data, freshId) in UserModel.UserIds(users)
           || UserModel.FindFirst(users, (v: UserModel.User) => v.username == u.username).Some? then
          Failure(HttpError(ServerFailure, "Duplicate key"))
        else
          Success((users + [u], u))
  }

  /** A body without an email is refused either way: 400 as soon as any user is
      stored, since the lookup then matches that user, and 500 from validation
      into an empty collection. */
  lemma AbsentEmailRefused(users: seq<UserModel.User>, data: Registration, freshId: Id, passwordHash: string)
    requires freshId != "" && freshId !in UserModel.UserIds(users)
    requires data.email.None?
    ensures |users| > 0 ==> Register(users, data, freshId, passwordHash) == Failure(HttpError(400, "User already exists"))
    ensures |users| == 0 ==>
      (Register(users, data, freshId, passwordHash).Failure?
       && Register(users, data, freshId, passwordHash).error.status == ServerFailure)
  {
    assert |UserModel.NormalizeEmail("")| == 0;
  }

  /** A successful registration keeps the users collection valid. */
  lemma RegisterKeepsValid(users: seq<UserModel.User>, data: Registration, freshId: Id, passwordHash: string)
    requires UserModel.ValidUsers(users)
    requires freshId != "" && freshId !in UserModel.UserIds(users)
    requires Register(users, data, freshId, passwordHash).Success?
    ensures UserModel.ValidUsers(Register(users, data, freshId, passwordHash).value.0)
  {
    var u := Register(users, data, freshId, passwordHash).value.1;
    AppendUserKeepsValid(users, u);
  }

  /** Appending a well-formed user with a fresh id, username and email keeps the
      users collection valid. */
  lemma AppendUserKeepsValid(users: seq<UserModel.User>, u: UserModel.User)
    requires UserModel.ValidUsers(users) && UserModel.WellFormed(u)
    requires u.id !in UserModel.UserIds(users)
    requires forall i :: 0 <= i < |users| ==> users[i].email != u.email && users[i].username != u.username
    ensures UserModel.ValidUsers(users + [u])
  {
    var users' := users + [u];
    forall i | 0 <= i < |users'|
      ensures UserModel.WellFormed(users'[i])
    {
      if i < |users| {
        assert users'[i] == users[i];
      }
    }
    forall i, j | 0 <= i < j < |users'|
      ensures UserModel.Distinct(users'[i], users'[j])
    {
      assert users'[i] == users[i];
      if j == |users| {
        assert users[i] in users;
      } else {
        assert users'[j] == users[j];
      }
    }
  }

  /** `POST /login`. A missing email or password is answered 400 before any lookup;
      an email no user has is 401, as is a password the stored hash does not match
      (`matches` is the hash comparison); otherwise the user is logged in. */
  function Login(users: seq<UserModel.User>, email: string, password: string,
                 matches: (string, string) -> bool)
    : (r: Result<Id, HttpError>)
    ensures email == "" || password == "" ==>
      r == Failure(HttpError(400, "Email and password required"))
    ensures email != "" && password != "" && UserModel.FindByEmail(users, email).None? ==>
      r == Failure(HttpError(401, "Email not found"))
    ensures email != "" && password != "" && UserModel.FindByEmail(users, email).Some? ==>
      var u := users[UserModel.FindByEmail(users, email).value];
      && (r.Success? <==> matches(password, u.password))
      && (r.Success? ==> r.value == u.id)
      && (r.Failure? ==> r.error == HttpError(401, "Incorrect password"))
    ensures r.Success? ==>
      exists i :: 0 <= i < |users| && users[i].id == r.value
        && users[i].email == UserModel.NormalizeEmail(email) && matches(password, users[i].password)
  {
    if email == "" || password == "" then Failure(HttpError(400, "Email and password required"))
    else
      match UserModel.FindByEmail(users, email)
      case None => Failure(HttpError(401, "Email not found"))
      case Some(i) =>
        if !matches(password, users[i].password) then Failure(HttpError(401, "Incorrect password"))
        else Success(users[i].id)
  }

  /** A user as `GET /users` lists it: every field but the password. */
  datatype Profile = Profile(id: Id, username: string, email: string, isOnline: bool, lastSeen: Option<Time>)

  /** `GET /users` (`User.find({}, '-password')`): one profile per user, in order. */
  function Directory(users: seq<UserModel.User>): (r: seq<Profile>)
    ensures |r| == |users|
    ensures forall i :: 0 <= i < |users| ==>
      r[i].id == users[i].id && r[i].username == users[i].username && r[i].email == users[i].email
      && r[i].isOnline == users[i].isOnline && r[i].lastSeen == users[i].lastSeen
  {
    seq(|users|, i requires 0 <= i < |users| =>
      var u := users[i]; Profile(u.id, u.username, u.email, u.isOnline, u.lastSeen))
  }

  /** Two collections list the same directory exactly when they hold the same users
      in the same order, passwords aside: the listing hides the password and
      nothing else. */
  lemma DirectoryIgnoresPassword(users: seq<UserModel.User>, users': seq<UserModel.User>)
    ensures Directory(users) == Directory(users') <==>
      |users| == |users'|
      && forall i :: 0 <= i < |users| ==> users'[i] == users[i].(password := users'[i].password)
  {
    if Directory(users) == Directory(users') {
      forall i | 0 <= i < |users|
        ensures users'[i] == users[i].(password := users'[i].password)
      {
        assert Directory(users)[i] == Directory(users')[i];
      }
    }
  }

  // ---------------------------------------------------------------------------
  // Conversation history
  // ---------------------------------------------------------------------------

  /** The message belongs to the conversation of `a` and `b`, in either direction. */
  predicate Between(m: Message, a: Id, b: Id) {
    (m.sender == a && m.receiver == b) || (m.sender == b && m.receiver == a)
  }

  /** Ascending by creation time. */
  predicate Chronological(s: seq<Message>) {
    forall i, j :: 0 <= i < j < |s| ==> s[i].createdAt <= s[j].createdAt
  }

  /** The rows matching the `$or` filter, in collection order, with their multiplicity. */
  function Matching(s: seq<Message>, a: Id, b: Id): (r: seq<Message>)
    ensures forall m :: multiset(r)[m] == if Between(m, a, b) then multiset(s)[m] else 0
  {
    if |s| == 0 then []
    else
      assert s == [s[0]] + s[1..];
      if Between(s[0], a, b) then [s[0]] + Matching(s[1..], a, b) else Matching(s[1..], a, b)
  }

  /** Inserts a row into a chronological sequence, before the first later-or-equal row. */
  function InsertByTime(m: Message, s: seq<Message>): (r: seq<Message>)
    requires Chronological(s)
    ensures Chronological(r)
    ensures multiset(r) == multiset(s) + multiset{m}
  {
    if |s| == 0 then [m]
    else if m.createdAt <= s[0].createdAt then [m] + s
    else
      var t := InsertByTime(m, s[1..]);
      assert s == [s[0]] + s[1..];
      assert forall x :: x in t ==> s[0].createdAt <= x.createdAt by {
        forall x | x in t
          ensures s[0].createdAt <= x.createdAt
        {
          assert x in multiset(t);
          assert x == m || x in s[1..];
        }
      }
      [s[0]] + t
  }

  /** `.sort({ createdAt: 1 })`: a chronological permutation of the input. */
  function SortByTime(s: seq<Message>): (r: seq<Message>)
    ensures Chronological(r)
    ensures multiset(r) == multiset(s)
  {
    if |s| == 0 then []
    else
      assert s == [s[0]] + s[1..];
      InsertByTime(s[0], SortByTime(s[1..]))
  }

  /** `GET /conversations/:userId/messages`: every row between the caller and the
      partner, in either direction and including soft-deleted rows, each as often as
      it is stored and nothing else, ascending by creation time. */
  function Conversation(s: seq<Message>, me: Id, partner: Id): (r: seq<Message>)
    ensures Chronological(r)
    ensures forall m :: multiset(r)[m] == if Between(m, me, partner) then multiset(s)[m] else 0
    ensures forall m :: m in r <==> m in s && Between(m, me, partner)
  {
    SortByTime(Matching(s, me, partner))
  }

  /** The filter does not depend on which party asks. */
  lemma {:induction false} MatchingSymmetric(s: seq<Message>, a: Id, b: Id)
    ensures Matching(s, a, b) == Matching(s, b, a)
  {
    if |s| > 0 {
      MatchingSymmetric(s[1..], a, b);
    }
  }

  /** Either party fetching the conversation gets the same ordered list. */
  lemma ConversationSymmetric(s: seq<Message>, a: Id, b: Id)
    ensures Conversation(s, a, b) == Conversation(s, b, a)
  {
    MatchingSymmetric(s, a, b);
  }

  // ---------------------------------------------------------------------------
  // Fallback send
  // ---------------------------------------------------------------------------

  /** The body of `POST /messages/send`; a `sender` field in it is ignored. */
  datatype SendBody = SendBody(receiver: Id, text: string, sender: Id)

  /** `POST /messages/send`. A missing receiver or text is answered 400 and stores
      nothing. Otherwise one row is stored whose sender is the authenticated user,
      never the body's, with `delivered` set, and answered 201 with that row. */
  function PostSend(s: seq<Message>, me: Id, body: SendBody, freshId: Id, now: Time)
    : (r: Result<(seq<Message>, Message), HttpError>)
    requires FreshId(s, freshId)
    ensures body.receiver == "" || body.text == "" ==>
      r == Failure(HttpError(400, "Receiver and text are required"))
    ensures r.Failure? ==> r.error.status == 400 || r.error.status == ServerFailure
    ensures r.Success? <==> me != "" && body.receiver != "" && body.text != ""
    ensures r.Success? ==>
      var (s', row) := r.value;
      && s' == s + [row]
      && row.id == freshId && row.sender == me && row.receiver == body.receiver
      && row.text == body.text && row.delivered
      && !row.read && !row.edited && !row.deleted
      && row.createdAt == now && row.updatedAt == now
  {
    if body.receiver == "" || body.text == "" then
      Failure(HttpError(400, "Receiver and text are required"))
    else
      match Create(freshId, me, body.receiver, body.text, true, now)
      case Failure(e) => Failure(HttpError(ServerFailure, e))
      case Success(row) => Success((s + [row], row))
  }

  // ---------------------------------------------------------------------------
  // Unread counts and mark-as-read
  // ---------------------------------------------------------------------------

  /** The row is an unread message addressed to `me`. */
  predicate UnreadFor(m: Message, me: Id) {
    m.receiver == me && !m.read
  }

  /** How many rows from `sender` to `me` are unread. */
  function UnreadFrom(s: seq<Message>, me: Id, sender: Id): nat {
    if |s| == 0 then 0
    else UnreadFrom(s[..|s| - 1], me, sender)
         + (if UnreadFor(s[|s| - 1], me) && s[|s| - 1].sender == sender then 1 else 0)
  }

  /** There is an unread row from `sender` to `me` exactly when the count is positive. */
  lemma {:induction false} UnreadFromPositive(s: seq<Message>, me: Id, sender: Id)
    ensures UnreadFrom(s, me, sender) > 0 <==>
      exists i :: 0 <= i < |s| && UnreadFor(s[i], me) && s[i].sender == sender
  {
    if |s| > 0 {
      var s0 := s[..|s| - 1];
      UnreadFromPositive(s0, me, sender);
      assert forall i :: 0 <= i < |s0| ==> s0[i] == s[i];
    }
  }

  /** `GET /messages/unread/:userId`: `$match` the unread rows addressed to the user,
      `$group` them by sender with a count. A sender appears exactly when it has an
      unread row to the user, with the number of such rows. */
  function UnreadCounts(s: seq<Message>, me: Id): (r: map<Id, nat>)
    ensures forall x :: x in r <==> UnreadFrom(s, me, x) > 0
    ensures forall x :: x in r ==> r[x] == UnreadFrom(s, me, x)
  {
    if |s| == 0 then map[]
    else
      var rest := UnreadCounts(s[..|s| - 1], me);
      var m := s[|s| - 1];
      if UnreadFor(m, me) then
        rest[m.sender := (if m.sender in rest then rest[m.sender] else 0) + 1]
      else rest
  }

  /** The row is one `PATCH /messages/read/:senderId` by `me` updates. */
  predicate MarkedBy(m: Message, me: Id, sender: Id) {
    m.sender == sender && m.receiver == me && !m.read
  }

  /** `PATCH /messages/read/:senderId` (`updateMany` with `timestamps`): exactly the
      unread rows from `sender` to `me` become read (and take the update time);
      every other row is unchanged, no row loses its read flag, and nothing but
      `read` and `updatedAt` changes. */
  function MarkRead(s: seq<Message>, me: Id, sender: Id, now: Time): (r: seq<Message>)
    ensures |r| == |s|
    ensures forall i :: 0 <= i < |s| ==>
      r[i].read == (s[i].read || (s[i].sender == sender && s[i].receiver == me))
    ensures forall i :: 0 <= i < |s| && !MarkedBy(s[i], me, sender) ==> r[i] == s[i]
    ensures forall i :: 0 <= i < |s| ==> r[i] == s[i].(read := r[i].read, updatedAt := r[i].updatedAt)
  {
    seq(|s|, i requires 0 <= i < |s| =>
      if MarkedBy(s[i], me, sender) then s[i].(read := true, updatedAt := now) else s[i])
  }

  /** Marking read twice is marking read once, whatever the second call's time. */
  lemma MarkReadIdempotent(s: seq<Message>, me: Id, sender: Id, now: Time, now': Time)
    ensures MarkRead(MarkRead(s, me, sender, now), me, sender, now') == MarkRead(s, me, sender, now)
  {
  }

  /** Marking read keeps the collection valid. */
  lemma MarkReadKeepsValid(s: seq<Message>, me: Id, sender: Id, now: Time)
    requires ValidStore(s)
    ensures ValidStore(MarkRead(s, me, sender, now))
  {
  }

  /** The unread count per sender after marking `sender` read. */
  lemma {:induction false} UnreadFromAfterMarkRead(s: seq<Message>, me: Id, sender: Id, now: Time, x: Id)
    ensures UnreadFrom(MarkRead(s, me, sender, now), me, x) == if x == sender then 0 else UnreadFrom(s, me, x)
  {
    if |s| > 0 {
      var s0 := s[..|s| - 1];
      UnreadFromAfterMarkRead(s0, me, sender, now, x);
      assert MarkRead(s, me, sender, now)[..|s| - 1] == MarkRead(s0, me, sender, now);
    }
  }

  /** After the caller marks a partner read, that partner is gone from the caller's
      unread counts and every other sender's count is what it was. */
  lemma UnreadAfterMarkRead(s: seq<Message>, me: Id, sender: Id, now: Time)
    ensures UnreadCounts(MarkRead(s, me, sender, now), me) == UnreadCounts(s, me) - {sender}
  {
    var a := UnreadCounts(MarkRead(s, me, sender, now), me);
    var b := UnreadCounts(s, me) - {sender};
    forall x
      ensures (x in a <==> x in b) && (x in a ==> a[x] == b[x])
    {
      UnreadFromAfterMarkRead(s, me, sender, now, x);
    }
    assert a.Keys == b.Keys;
  }
}
