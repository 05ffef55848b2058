/** The Socket.IO handlers of server/index.js as a state machine. The server state
    is the `onlineUsers` registry together with the users and messages collections;
    each handler is one atomic transition that returns the next state and the
    events it emits. The clock, the id the database assigns a new row and whether
    `save()` resolves are the handler's environment. */
module Realtime {
  import opened Wrappers
  import opened Identity
  import opened MessageModel
  import UserModel
  import Presence

  datatype Server = Server(
    online: Presence.Registry,
    users: seq<UserModel.User>,
    messages: seq<Message>)

  /** `io.emit` reaches every connected socket; `io.to(id).emit` and `socket.emit`
      reach one socket. */
  datatype Audience = Everyone | Socket(id: Id)

  /** The server-to-client events with their payloads. */
  datatype Event =
    | UserStatus(userId: Id, isOnline: bool, lastSeen: Option<Time>)
    | MessageNew(row: Message)
    | MessageSent(row: Message)
    | MessageEdited(row: Message)
    | MessageDeleted(row: Message)
    | TypingStart(sender: Id)
    | TypingStop(sender: Id)
    | Error(message: string)

  datatype Emission = Emission(to: Audience, event: Event)

  /** The outcome of one handler: the next state and what it emitted, in order. */
  datatype Step = Step(next: Server, out: seq<Emission>)

  /** What a handler learns from outside: the clock, the ObjectId the database
      assigns to a new row, and whether the awaited `save()` resolves. */
  datatype Env = Env(now: Time, freshId: Id, saveSucceeds: bool)

  const SendFailed: string := "Failed to send message"
  const EditFailed: string := "Failed to edit message"
  const DeleteFailed: string := "Failed to delete message"

  /** The client-to-server events of one connection. */
  datatype Incoming =
    | UserOnline(userId: Id)
    | MessageSend(sender: Id, receiver: Id, text: string)
    | MessageEdit(messageId: Id, newText: string, editor: Id)
    | MessageDelete(messageId: Id, requester: Id)
    | TypingStarted(sender: Id, receiver: Id)
    | TypingStopped(sender: Id, receiver: Id)
    | Disconnected

  /** The state every handler keeps: valid collections, a registry with unique
      non-empty keys, and every registered user present in the registry marked
      online. */
  predicate Valid(st: Server) {
    && ValidStore(st.messages)
    && UserModel.ValidUsers(st.users)
    && Presence.UniqueUsers(st.online)
    && "" !in Presence.Users(st.online)
    && (forall i :: 0 <= i < |st.users| && st.users[i].id in Presence.Users(st.online) ==>
          st.users[i].isOnline)
  }

  /** The socket `if (receiverSocketId) io.to(receiverSocketId)` reaches for a user:
      the bound socket id, when there is one and it is truthy. */
  function Route(online: Presence.Registry, user: Id): (r: Option<Id>)
    ensures r.Some? ==> r.value != "" && Presence.Get(online, user) == r
    ensures r.None? ==> Presence.Get(online, user).None? || Presence.Get(online, user) == Some("")
  {
    match Presence.Get(online, user)
    case Some(s) => if s != "" then Some(s) else None
    case None => None
  }

  /** The emission to a user's socket, or none when the user is unreachable. */
  function ToUser(online: Presence.Registry, user: Id, e: Event): (r: seq<Emission>)
    ensures |r| <= 1
    ensures r != [] <==> Route(online, user).Some?
    ensures r != [] ==> r[0] == Emission(Socket(Route(online, user).value), e)
  {
    match Route(online, user)
    case Some(s) => [Emission(Socket(s), e)]
    case None => []
  }

  /** `user:online`: a falsy id is ignored; otherwise the user is bound to this
      socket (replacing an earlier binding), marked online with no last-seen time,
      and the new status is broadcast to everyone. */
  function OnUserOnline(st: Server, socket: Id, userId: Id): (r: Step)
    ensures userId == "" ==> r == Step(st, [])
    ensures userId != "" ==>
      && Presence.Get(r.next.online, userId) == Some(socket)
      && (forall u :: u != userId ==> Presence.Get(r.next.online, u) == Presence.Get(st.online, u))
      && r.next.users == UserModel.SetPresence(st.users, userId, true, None)
      && r.out == [Emission(Everyone, UserStatus(userId, true, None))]
    ensures r.next.messages == st.messages
  {
    if userId == "" then Step(st, [])
    else
      assert forall u :: (Presence.Get(Presence.Set(st.online, userId, socket), u)
        == if u == userId then Some(socket) else Presence.Get(st.online, u)) by {
        forall u { Presence.SetGet(st.online, userId, socket, u); }
      }
      Step(
        st.(online := Presence.Set(st.online, userId, socket),
            users := UserModel.SetPresence(st.users, userId, true, None)),
        [Emission(Everyone, UserStatus(userId, true, None))])
  }

  /** `message:send`: with a falsy sender, receiver or text nothing happens.
      Otherwise one row is created with `delivered` set; when it is saved,
      `message:new` goes to the receiver's socket if the receiver is bound and
      `message:sent` with the same row goes back to the sending socket; when the
      save is refused, only an error goes back. */
  function OnSend(st: Server, socket: Id, sender: Id, receiver: Id, text: string, env: Env)
    : (r: Step)
    requires FreshId(st.messages, env.freshId)
    ensures sender == "" || receiver == "" || text == "" ==> r == Step(st, [])
    ensures r.next.online == st.online && r.next.users == st.users
    ensures !env.saveSucceeds ==> r.next == st
    ensures sender != "" && receiver != "" && text != "" && !env.saveSucceeds ==>
      r.out == [Emission(Socket(socket), Error(SendFailed))]
    ensures sender != "" && receiver != "" && text != "" && env.saveSucceeds ==>
      && |r.next.messages| == |st.messages| + 1
      && r.next.messages[..|st.messages|] == st.messages
      && var row := r.next.messages[|st.messages|];
         && row.id == env.freshId && row.sender == sender && row.receiver == receiver
         && row.text == text && row.delivered
         && !row.read && !row.edited && !row.deleted
         && row.createdAt == env.now && row.updatedAt == env.now
         && r.out == ToUser(st.online, receiver, MessageNew(row))
                     + [Emission(Socket(socket), MessageSent(row))]
  {
    if sender == "" || receiver == "" || text == "" then Step(st, [])
    else
      match Create(env.freshId, sender, receiver, text, true, env.now)
      case Failure(_) => Step(st, [Emission(Socket(socket), Error(SendFailed))])
      case Success(row) =>
        if !env.saveSucceeds then Step(st, [Emission(Socket(socket), Error(SendFailed))])
        else
          assert (st.messages + [row])[..|st.messages|] == st.messages;
          Step(
            st.(messages := st.messages + [row]),
            ToUser(st.online, receiver, MessageNew(row)) + [Emission(Socket(socket), MessageSent(row))])
  }

  /** The rows of `st` other than position `i` are untouched in `s`. */
  predicate OthersUnchanged(st: seq<Message>, s: seq<Message>, i: nat) {
    |s| == |st| && forall j :: 0 <= j < |st| && j != i ==> s[j] == st[j]
  }

  /** True when an edit or delete request for `messageId` by `requester` passes the
      handler's check: the row exists and `requester` is its stored sender. */
  predicate SenderOwns(messages: seq<Message>, messageId: Id, requester: Id) {
    match Find(messages, messageId)
    case Some(i) => messages[i].sender == requester
    case None => false
  }

  /** `message:edit`: a missing row or an editor other than the stored sender
      changes nothing and emits nothing. Otherwise the row takes the new text and
      `edited`, and `updatedAt` moves to the save time unless nothing changed; every
      other field and every other row is unchanged (a deleted row is not refused), and `message:edited` goes to the receiver's socket and back to
      the requesting socket. An empty text fails validation and only an error goes
      back, as does a refused save. */
  function OnEdit(st: Server, socket: Id, messageId: Id, newText: string, editor: Id, env: Env)
    : (r: Step)
    ensures !SenderOwns(st.messages, messageId, editor) ==> r == Step(st, [])
    ensures r.next.online == st.online && r.next.users == st.users
    ensures |r.next.messages| == |st.messages|
    ensures newText == "" || !env.saveSucceeds ==> r.next == st
    ensures SenderOwns(st.messages, messageId, editor) && (newText == "" || !env.saveSucceeds) ==>
      r.out == [Emission(Socket(socket), Error(EditFailed))]
    ensures SenderOwns(st.messages, messageId, editor) && newText != "" && env.saveSucceeds ==>
      var i := Find(st.messages, messageId).value;
      var m := st.messages[i];
      var m' := r.next.messages[i];
      && OthersUnchanged(st.messages, r.next.messages, i)
      && SameIdentity(m, m') && m'.read == m.read && m'.delivered == m.delivered
      && m'.deleted == m.deleted && m'.text == newText && m'.edited
      && (m' != m ==> m'.updatedAt == env.now)
      && (m.text == newText && m.edited ==> m' == m)
      && r.out == ToUser(st.online, m.receiver, MessageEdited(m'))
                  + [Emission(Socket(socket), MessageEdited(m'))]
  {
    match Find(st.messages, messageId)
    case None => Step(st, [])
    case Some(i) =>
      var m := st.messages[i];
      if m.sender != editor then Step(st, [])
      else
        match Revise(m, newText, true, m.deleted, env.now)
        case None => Step(st, [Emission(Socket(socket), Error(EditFailed))])
        case Some(m') =>
          if !env.saveSucceeds then Step(st, [Emission(Socket(socket), Error(EditFailed))])
          else
            Step(
              st.(messages := st.messages[i := m']),
              ToUser(st.online, m'.receiver, MessageEdited(m')) + [Emission(Socket(socket), MessageEdited(m'))])
  }

  /** `message:delete`: a missing row or a requester other than the stored sender
      changes nothing and emits nothing. Otherwise the row is soft-deleted, its text
      replaced by the tombstone and `updatedAt` moved to the save time unless
      nothing changed; every other field and row is unchanged, and
      `message:deleted` goes to the receiver's socket and back to the requesting
      socket; a refused save sends only an error back. */
  function OnDelete(st: Server, socket: Id, messageId: Id, requester: Id, env: Env)
    : (r: Step)
    ensures !SenderOwns(st.messages, messageId, requester) ==> r == Step(st, [])
    ensures r.next.online == st.online && r.next.users == st.users
    ensures |r.next.messages| == |st.messages|
    ensures !env.saveSucceeds ==> r.next == st
    ensures SenderOwns(st.messages, messageId, requester) && !env.saveSucceeds ==>
      r.out == [Emission(Socket(socket), Error(DeleteFailed))]
    ensures SenderOwns(st.messages, messageId, requester) && env.saveSucceeds ==>
      var i := Find(st.messages, messageId).value;
      var m := st.messages[i];
      var m' := r.next.messages[i];
      && OthersUnchanged(st.messages, r.next.messages, i)
      && SameIdentity(m, m') && m'.read == m.read && m'.delivered == m.delivered
      && m'.edited == m.edited && m'.deleted && m'.text == Tombstone
      && (m' != m ==> m'.updatedAt == env.now)
      && (m.deleted && m.text == Tombstone ==> m' == m)
      && r.out == ToUser(st.online, m.receiver, MessageDeleted(m'))
                  + [Emission(Socket(socket), MessageDeleted(m'))]
  {
    match Find(st.messages, messageId)
    case None => Step(st, [])
    case Some(i) =>
      var m := st.messages[i];
      if m.sender != requester then Step(st, [])
      else
        match Revise(m, Tombstone, m.edited, true, env.now)
        case None => Step(st, [Emission(Socket(socket), Error(DeleteFailed))])
        case Some(m') =>
          if !env.saveSucceeds then Step(st, [Emission(Socket(socket), Error(DeleteFailed))])
          else
            Step(
              st.(messages := st.messages[i := m']),
              ToUser(st.online, m'.receiver, MessageDeleted(m')) + [Emission(Socket(socket), MessageDeleted(m'))])
  }

  /** `typing:start` / `typing:stop`: the event, carrying only the sender, is
      relayed to the receiver's socket when the receiver is bound; the state never
      changes. */
  function OnTyping(st: Server, sender: Id, receiver: Id, starting: bool): (r: Step)
    ensures r.next == st
    ensures |r.out| <= 1
    ensures r.out != [] <==> Route(st.online, receiver).Some?
    ensures r.out != [] ==>
      r.out[0].to == Socket(Presence.Get(st.online, receiver).value)
      && r.out[0].event == if starting then TypingStart(sender) else TypingStop(sender)
  {
    Step(st, ToUser(st.online, receiver, if starting then TypingStart(sender) else TypingStop(sender)))
  }

  /** `disconnect`: the first registry entry bound to the closing socket, if any, is
      deleted, its user marked offline with `lastSeen` the disconnect time, and that
      status (with the same time) broadcast. When no entry is bound to the socket
      (it was replaced by a newer binding) nothing changes and nothing is emitted. */
  function OnDisconnect(st: Server, socket: Id, now: Time): (r: Step)
    ensures Presence.FindBySocket(st.online, socket).None? ==> r == Step(st, [])
    ensures r.next.messages == st.messages
    ensures Presence.FindBySocket(st.online, socket).Some? && Presence.FindBySocket(st.online, socket).value != "" ==>
      var u := Presence.FindBySocket(st.online, socket).value;
      && Presence.Get(r.next.online, u) == None
      && Presence.Users(r.next.online) == Presence.Users(st.online) - {u}
      && (forall v :: v != u ==> Presence.Get(r.next.online, v) == Presence.Get(st.online, v))
      && r.next.users == UserModel.SetPresence(st.users, u, false, Some(now))
      && r.out == [Emission(Everyone, UserStatus(u, false, Some(now)))]
  {
    match Presence.FindBySocket(st.online, socket)
    case None => Step(st, [])
    case Some(u) =>
      if u == "" then Step(st, [])
      else
        Step(
          st.(online := Presence.Delete(st.online, u),
              users := UserModel.SetPresence(st.users, u, false, Some(now))),
          [Emission(Everyone, UserStatus(u, false, Some(now)))])
  }

  /** Routes an incoming event of connection `socket` to its handler. */
  function Handle(st: Server, socket: Id, ev: Incoming, env: Env): (r: Step)
    requires FreshId(st.messages, env.freshId)
    ensures |r.next.messages| >= |st.messages|
  {
    match ev
    case UserOnline(userId) => OnUserOnline(st, socket, userId)
    case MessageSend(sender, receiver, text) => OnSend(st, socket, sender, receiver, text, env)
    case MessageEdit(messageId, newText, editor) => OnEdit(st, socket, messageId, newText, editor, env)
    case MessageDelete(messageId, requester) => OnDelete(st, socket, messageId, requester, env)
    case TypingStarted(sender, receiver) => OnTyping(st, sender, receiver, true)
    case TypingStopped(sender, receiver) => OnTyping(st, sender, receiver, false)
    case Disconnected => OnDisconnect(st, socket, env.now)
  }
}
