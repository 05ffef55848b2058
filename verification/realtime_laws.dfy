/** Properties of the socket handlers of server/index.js: the state invariant they
    keep, the guarded unbind on disconnect, fan-out, authorisation and idempotence. */
module RealtimeLaws {
  import opened Wrappers
  import opened Identity
  import opened MessageModel
  import UserModel
  import Presence
  import opened Realtime

  /** `user:online` keeps the server state valid. */
  lemma OnlineKeepsValid(st: Server, socket: Id, userId: Id)
    requires Valid(st)
    ensures Valid(OnUserOnline(st, socket, userId).next)
  {
    if userId != "" {
      var st' := OnUserOnline(st, socket, userId).next;
      Presence.SetUsers(st.online, userId, socket);
      Presence.SetUnique(st.online, userId, socket);
      UserModel.SetPresenceKeepsValid(st.users, userId, true, None);
      forall i | 0 <= i < |st'.users| && st'.users[i].id in Presence.Users(st'.online)
        ensures st'.users[i].isOnline
      {
        if st.users[i].id != userId {
          assert st'.users[i] == st.users[i];
        }
      }
    }
  }

  /** `disconnect` keeps the server state valid. */
  lemma DisconnectKeepsValid(st: Server, socket: Id, now: Time)
    requires Valid(st)
    ensures Valid(OnDisconnect(st, socket, now).next)
  {
    match Presence.FindBySocket(st.online, socket)
    case None =>
    case Some(u) =>
      if u != "" {
        var st' := OnDisconnect(st, socket, now).next;
        UserModel.SetPresenceKeepsValid(st.users, u, false, Some(now));
        forall i | 0 <= i < |st'.users| && st'.users[i].id in Presence.Users(st'.online)
          ensures st'.users[i].isOnline
        {
          assert st'.users[i] == st.users[i];
        }
      }
  }

  /** `message:send` keeps the server state valid. */
  lemma SendKeepsValid(st: Server, socket: Id, sender: Id, receiver: Id, text: string, env: Env)
    requires Valid(st) && FreshId(st.messages, env.freshId)
    ensures Valid(OnSend(st, socket, sender, receiver, text, env).next)
  {
    var st' := OnSend(st, socket, sender, receiver, text, env).next;
    if sender != "" && receiver != "" && text != "" && env.saveSucceeds {
      var row := st'.messages[|st.messages|];
      assert st'.messages == st.messages + [row];
      AppendKeepsValid(st.messages, row);
    }
  }

  /** `message:edit` keeps the server state valid. */
  lemma EditKeepsValid(st: Server, socket: Id, messageId: Id, newText: string, editor: Id, env: Env)
    requires Valid(st)
    ensures Valid(OnEdit(st, socket, messageId, newText, editor, env).next)
  {
    var st' := OnEdit(st, socket, messageId, newText, editor, env).next;
    if SenderOwns(st.messages, messageId, editor) && newText != "" && env.saveSucceeds {
      var i := Find(st.messages, messageId).value;
      assert st'.messages == st.messages[i := st'.messages[i]];
      UpdateKeepsValid(st.messages, i, st'.messages[i]);
    }
  }

  /** `message:delete` keeps the server state valid. */
  lemma DeleteKeepsValid(st: Server, socket: Id, messageId: Id, requester: Id, env: Env)
    requires Valid(st)
    ensures Valid(OnDelete(st, socket, messageId, requester, env).next)
  {
    var st' := OnDelete(st, socket, messageId, requester, env).next;
    if SenderOwns(st.messages, messageId, requester) && env.saveSucceeds {
      var i := Find(st.messages, messageId).value;
      assert st'.messages == st.messages[i := st'.messages[i]];
      UpdateKeepsValid(st.messages, i, st'.messages[i]);
    }
  }

  /** Every handler keeps the server state valid. */
  lemma HandleKeepsValid(st: Server, socket: Id, ev: Incoming, env: Env)
    requires Valid(st) && FreshId(st.messages, env.freshId)
    ensures Valid(Handle(st, socket, ev, env).next)
  {
    match ev
    case UserOnline(userId) => OnlineKeepsValid(st, socket, userId);
    case MessageSend(sender, receiver, text) => SendKeepsValid(st, socket, sender, receiver, text, env);
    case MessageEdit(messageId, newText, editor) => EditKeepsValid(st, socket, messageId, newText, editor, env);
    case MessageDelete(messageId, requester) => DeleteKeepsValid(st, socket, messageId, requester, env);
    case TypingStarted(_, _) =>
    case TypingStopped(_, _) =>
    case Disconnected => DisconnectKeepsValid(st, socket, env.now);
  }

  /** Rows are never removed, and no handler rewrites a row's id, sender, receiver,
      creation time or read flag. */
  lemma HandleKeepsIdentity(st: Server, socket: Id, ev: Incoming, env: Env, i: nat)
    requires FreshId(st.messages, env.freshId) && i < |st.messages|
    ensures var st' := Handle(st, socket, ev, env).next;
      && i < |st'.messages|
      && SameIdentity(st.messages[i], st'.messages[i])
      && st'.messages[i].read == st.messages[i].read
  {
    var st' := Handle(st, socket, ev, env).next;
    match ev
    case MessageSend(sender, receiver, text) =>
      if sender != "" && receiver != "" && text != "" && env.saveSucceeds {
        assert st'.messages[i] == st'.messages[..|st.messages|][i];
      }
    case _ =>
  }

  /** Only `disconnect` ever writes a last-seen time: every other handler leaves a
      user's `lastSeen` as it was or clears it. */
  lemma LastSeenOnlyOnDisconnect(st: Server, socket: Id, ev: Incoming, env: Env, i: nat)
    requires FreshId(st.messages, env.freshId) && !ev.Disconnected? && i < |st.users|
    ensures var st' := Handle(st, socket, ev, env).next;
      && |st'.users| == |st.users|
      && (st'.users[i].lastSeen == None || st'.users[i].lastSeen == st.users[i].lastSeen)
  {
  }

  /** The guarded unbind: closing a socket never evicts a user whose binding points
      at another socket, and leaves that user's record alone. */
  lemma StaleDisconnectKeepsBinding(st: Server, socket: Id, now: Time, u: Id, s: Id)
    requires Presence.UniqueUsers(st.online)
    requires Presence.Get(st.online, u) == Some(s) && s != socket
    ensures var r := OnDisconnect(st, socket, now);
      && Presence.Get(r.next.online, u) == Some(s)
      && |r.next.users| == |st.users|
      && (forall i :: 0 <= i < |st.users| && st.users[i].id == u ==> r.next.users[i] == st.users[i])
  {
    match Presence.FindBySocket(st.online, socket)
    case None =>
    case Some(v) =>
      Presence.FindBySocketBound(st.online, socket);
      assert v != u;
  }

  /** Reconnection: a user bound on `c1`, then on `c2`, whose old socket `c1` then
      closes, stays bound to `c2` and online, and nothing is broadcast. */
  lemma ReconnectThenStaleClose(st: Server, u: Id, c1: Id, c2: Id, now: Time)
    requires Valid(st) && u != "" && c1 != c2
    requires forall i :: 0 <= i < |st.online| ==> st.online[i].socket != c1
    ensures var s2 := OnUserOnline(OnUserOnline(st, c1, u).next, c2, u).next;
      && OnDisconnect(s2, c1, now) == Step(s2, [])
      && Presence.Get(s2.online, u) == Some(c2)
      && (forall i :: 0 <= i < |s2.users| && s2.users[i].id == u ==> s2.users[i].isOnline)
  {
    var s1 := OnUserOnline(st, c1, u).next;
    var s2 := OnUserOnline(s1, c2, u).next;
    OnlineKeepsValid(st, c1, u);
    OnlineKeepsValid(s1, c2, u);
    forall i | 0 <= i < |s2.online|
      ensures s2.online[i].socket != c1
    {
      var b := s2.online[i];
      Presence.SetEntries(s1.online, u, c2, b);
      if b != Presence.Binding(u, c2) {
        Presence.SetEntries(st.online, u, c1, b);
        if b == Presence.Binding(u, c1) {
          Presence.GetBound(s2.online, i);
        } else {
          assert b in st.online;
        }
      }
    }
  }

  /** As written, a socket that declared two users leaves the second one bound
      after it closes: `disconnect` deletes only the first entry it finds. */
  lemma SharedSocketLeavesStaleEntry(st: Server, s: Id, u1: Id, u2: Id, now: Time)
    requires u1 != "" && u2 != "" && u1 != u2
    requires u1 !in Presence.Users(st.online) && u2 !in Presence.Users(st.online)
    requires forall i :: 0 <= i < |st.online| ==> st.online[i].socket != s
    ensures var s2 := OnUserOnline(OnUserOnline(st, s, u1).next, s, u2).next;
      var r := OnDisconnect(s2, s, now);
      && Presence.Get(r.next.online, u1) == None
      && Presence.Get(r.next.online, u2) == Some(s)
  {
    var s1 := OnUserOnline(st, s, u1).next;
    var s2 := OnUserOnline(s1, s, u2).next;
    Presence.SetAppends(st.online, u1, s);
    Presence.SetUsers(st.online, u1, s);
    Presence.SetAppends(s1.online, u2, s);
    assert s2.online == st.online + [Presence.Binding(u1, s), Presence.Binding(u2, s)];
    var k := |st.online|;
    assert s2.online[k] == Presence.Binding(u1, s);
    var found := Presence.FindBySocket(s2.online, s);
    var j :| 0 <= j < |s2.online| && s2.online[j] == Presence.Binding(found.value, s)
             && (forall j' :: 0 <= j' < j ==> s2.online[j'].socket != s);
    assert j == k;
  }

  /** Fan-out of a stored send: the receiver's socket gets `message:new` exactly when
      the receiver is bound, the sending socket always gets `message:sent`, and both
      carry the row that was stored. */
  lemma SendFanOut(st: Server, socket: Id, sender: Id, receiver: Id, text: string, env: Env)
    requires FreshId(st.messages, env.freshId)
    requires sender != "" && receiver != "" && text != "" && env.saveSucceeds
    ensures var r := OnSend(st, socket, sender, receiver, text, env);
      var row := r.next.messages[|st.messages|];
      && (Emission(Socket(socket), MessageSent(row)) in r.out)
      && ((exists s :: Emission(Socket(s), MessageNew(row)) in r.out)
          <==> Route(st.online, receiver).Some?)
      && (forall e :: e in r.out && e.event.MessageNew? ==>
            e.event.row == row && e.to == Socket(Presence.Get(st.online, receiver).value))
      && (forall e :: e in r.out ==> e.event.MessageNew? || e.event.MessageSent?)
  {
    var r := OnSend(st, socket, sender, receiver, text, env);
    var row := r.next.messages[|st.messages|];
    assert r.out[|r.out| - 1] == Emission(Socket(socket), MessageSent(row));
    if Route(st.online, receiver).Some? {
      assert r.out[0] == Emission(Socket(Route(st.online, receiver).value), MessageNew(row));
    }
  }

  /** `Find` is unaffected by overwriting the row it found with one of the same id. */
  lemma FindAfterOverwrite(s: seq<Message>, id: Id, m: Message)
    requires Find(s, id).Some? && m.id == id
    ensures Find(s[Find(s, id).value := m], id) == Find(s, id)
  {
    var i := Find(s, id).value;
    var t := s[i := m];
    assert t[i].id == id && t[i] in t;
    assert forall j :: 0 <= j < i ==> t[j] == s[j];
  }

  /** Deleting is idempotent on the state: once a delete has been saved, repeating
      it, from any socket at any time, leaves the state as it is. */
  lemma DeleteIdempotent(st: Server, socket: Id, socket': Id, messageId: Id, requester: Id, env: Env, env': Env)
    requires env.saveSucceeds
    ensures var s1 := OnDelete(st, socket, messageId, requester, env).next;
      OnDelete(s1, socket', messageId, requester, env').next == s1
  {
    var s1 := OnDelete(st, socket, messageId, requester, env).next;
    if SenderOwns(st.messages, messageId, requester) {
      var i := Find(st.messages, messageId).value;
      FindAfterOverwrite(st.messages, messageId, s1.messages[i]);
      assert s1.messages == st.messages[i := s1.messages[i]];
    }
  }

  /** Soft deletion as the receiver sees it: after a saved delete the row carries the
      tombstone and `deleted`, and `message:deleted` with that row reaches the
      receiver's socket when the receiver is bound and always the requester's. */
  lemma DeletePropagates(st: Server, socket: Id, messageId: Id, requester: Id, env: Env)
    requires SenderOwns(st.messages, messageId, requester) && env.saveSucceeds
    ensures var r := OnDelete(st, socket, messageId, requester, env);
      var i := Find(st.messages, messageId).value;
      var row := r.next.messages[i];
      && row.deleted && row.text == Tombstone
      && Emission(Socket(socket), MessageDeleted(row)) in r.out
      && (Route(st.online, row.receiver).Some? ==>
            Emission(Socket(Route(st.online, row.receiver).value), MessageDeleted(row)) in r.out)
  {
    var r := OnDelete(st, socket, messageId, requester, env);
    assert r.out[|r.out| - 1] == Emission(Socket(socket), MessageDeleted(r.next.messages[Find(st.messages, messageId).value]));
  }

  /** As written, `message:edit` does not refuse a soft-deleted row: its sender can
      give it a new text, after which it is still `deleted` but no longer carries
      the tombstone. */
  lemma EditAfterDeleteIsAccepted(st: Server, socket: Id, messageId: Id, sender: Id, newText: string, env: Env, env': Env)
    requires SenderOwns(st.messages, messageId, sender) && env.saveSucceeds && env'.saveSucceeds
    requires newText != "" && newText != Tombstone
    ensures var s1 := OnDelete(st, socket, messageId, sender, env).next;
      var s2 := OnEdit(s1, socket, messageId, newText, sender, env').next;
      var i := Find(st.messages, messageId).value;
      && s1.messages[i].deleted && s1.messages[i].text == Tombstone
      && s2.messages[i].deleted && s2.messages[i].edited && s2.messages[i].text == newText
  {
    var s1 := OnDelete(st, socket, messageId, sender, env).next;
    var i := Find(st.messages, messageId).value;
    FindAfterOverwrite(st.messages, messageId, s1.messages[i]);
    assert SenderOwns(s1.messages, messageId, sender);
  }
}
