/** End-to-end properties that connect the client's decisions with the server's
    handlers and routes: what a user action stores, what the other side sees, and
    that the client's local updates agree with what the server answers later. */
module Scenarios {
  import opened Wrappers
  import opened Identity
  import opened MessageModel
  import Text
  import UserModel
  import Realtime
  import Rest
  import ChatView
  import MessagePanel
  import UserList

  // ---------------------------------------------------------------------------
  // Sending
  // ---------------------------------------------------------------------------

  /** The socket path and the REST fallback store the same row for the same send by
      the logged-in user; the sender a fallback body claims plays no part. */
  lemma SendPathsAgree(st: Realtime.Server, socket: Id, me: Id, partner: Id, text: string,
                       claimed: Id, env: Realtime.Env)
    requires FreshId(st.messages, env.freshId)
    requires me != "" && partner != "" && text != "" && env.saveSucceeds
    ensures Rest.PostSend(st.messages, me, Rest.SendBody(partner, text, claimed), env.freshId, env.now).Success?
    ensures Realtime.OnSend(st, socket, me, partner, text, env).next.messages
         == Rest.PostSend(st.messages, me, Rest.SendBody(partner, text, claimed), env.freshId, env.now).value.0
  {
    var a := Realtime.OnSend(st, socket, me, partner, text, env).next.messages;
    var b := Rest.PostSend(st.messages, me, Rest.SendBody(partner, text, claimed), env.freshId, env.now).value.0;
    assert a[|st.messages|] == b[|st.messages|];
    assert a == a[..|st.messages|] + [a[|st.messages|]];
  }

  /** The fallback send appends the row the send route answers with, whatever the
      open partner and whether or not a row with that id is already listed; the
      socket acknowledgement, by contrast, filters by partner and skips known ids,
      so a repeated answer leaves two rows with one id. */
  lemma FallbackSendAppendsPostedRow(s: seq<Message>, me: Id, body: Rest.SendBody, freshId: Id,
                                     now: Time, view: ChatView.View, partner: Id)
    requires FreshId(s, freshId)
    requires Rest.PostSend(s, me, body, freshId, now).Success?
    ensures
      var row := Rest.PostSend(s, me, body, freshId, now).value.1;
      && row.sender == me && row.receiver == body.receiver && row.text == body.text
      && ChatView.SendFallback(view, Some(row)) == view + [row]
      && (ChatView.HasId(view, row.id) ==>
            && ChatView.OnMessageSent(view, partner, row) == view
            && !ChatView.DistinctIds(ChatView.SendFallback(view, Some(row))))
  {
    var row := Rest.PostSend(s, me, body, freshId, now).value.1;
    if ChatView.HasId(view, row.id) {
      var k :| 0 <= k < |view| && view[k].id == row.id;
      var v := ChatView.SendFallback(view, Some(row));
      assert v[k] == view[k] && v[|view|] == row;
    }
  }

  /** A non-blank input to the open partner, while the socket exists, becomes a socket send
      from the current user; handling it stores one row from that user to the
      partner carrying the trimmed input. */
  lemma ComposedSendStoresRow(st: Realtime.Server, socket: Id, me: Id, partner: Id,
                              input: string, env: Realtime.Env)
    requires FreshId(st.messages, env.freshId) && env.saveSucceeds
    requires me != "" && partner != "" && !Text.IsBlank(input)
    ensures MessagePanel.SendInput(input, true) == Some(Text.Trim(input))
    ensures ChatView.SendMessage(me, partner, true, Text.Trim(input))
         == ChatView.EmitSend(me, partner, Text.Trim(input))
    ensures
      var next := Realtime.Handle(st, socket, Realtime.MessageSend(me, partner, Text.Trim(input)), env).next;
      && |next.messages| == |st.messages| + 1
      && next.messages[|st.messages|].sender == me
      && next.messages[|st.messages|].receiver == partner
      && next.messages[|st.messages|].text == Text.Trim(input)
  {
  }

  /** When A sends to B and B is reachable, B's socket gets the new row and B's open
      conversation with A gains it; A's own list gains it exactly once, however
      often the acknowledgement arrives. */
  lemma DeliveredToBothViews(st: Realtime.Server, socket: Id, a: Id, b: Id, text: string,
                             env: Realtime.Env, viewA: ChatView.View, viewB: ChatView.View)
    requires FreshId(st.messages, env.freshId) && env.saveSucceeds
    requires a != "" && b != "" && text != ""
    requires Realtime.Route(st.online, b).Some?
    requires !ChatView.HasId(viewA, env.freshId)
    ensures
      var r := Realtime.OnSend(st, socket, a, b, text, env);
      var row := r.next.messages[|st.messages|];
      && r.out == [Realtime.Emission(Realtime.Socket(Realtime.Route(st.online, b).value), Realtime.MessageNew(row)),
                   Realtime.Emission(Realtime.Socket(socket), Realtime.MessageSent(row))]
      && ChatView.OnMessageNew(viewB, a, row) == viewB + [row]
      && ChatView.OnMessageSent(ChatView.OnMessageSent(viewA, b, row), b, row) == viewA + [row]
  {
    var row := Realtime.OnSend(st, socket, a, b, text, env).next.messages[|st.messages|];
    ChatView.OnMessageSentIdempotent(viewA, b, row);
  }

  /** When B is not reachable, only the acknowledgement goes out; the row waits in
      the store, shows up in B's history with A, and raises B's unread count from A
      by one. */
  lemma OfflineReceiverReadsLater(st: Realtime.Server, socket: Id, a: Id, b: Id, text: string,
                                  env: Realtime.Env)
    requires FreshId(st.messages, env.freshId) && env.saveSucceeds
    requires a != "" && b != "" && text != ""
    requires Realtime.Route(st.online, b).None?
    ensures
      var r := Realtime.OnSend(st, socket, a, b, text, env);
      var row := r.next.messages[|st.messages|];
      && r.out == [Realtime.Emission(Realtime.Socket(socket), Realtime.MessageSent(row))]
      && row in Rest.Conversation(r.next.messages, b, a)
      && !row.read
      && Rest.UnreadFrom(r.next.messages, b, a) == Rest.UnreadFrom(st.messages, b, a) + 1
  {
    var s' := Realtime.OnSend(st, socket, a, b, text, env).next.messages;
    assert s'[..|s'| - 1] == st.messages;
  }

  // ---------------------------------------------------------------------------
  // Editing and deleting
  // ---------------------------------------------------------------------------

  /** A blank, non-empty edit input gets past the client's guard and reaches the
      server as an empty text, which the server refuses: the state stays and the
      owner's socket only gets an error. */
  lemma BlankEditReachesServerAndFails(st: Realtime.Server, socket: Id, me: Id, messageId: Id,
                                       input: string, current: string, env: Realtime.Env)
    requires input != "" && Text.IsBlank(input) && current != "" && messageId != ""
    ensures MessagePanel.EditInput(Some(input), current) == Some("")
    ensures ChatView.EditMessage(me, messageId, true, "") == ChatView.EmitEdit(messageId, "", me)
    ensures Realtime.OnEdit(st, socket, messageId, "", me, env).next == st
    ensures Realtime.SenderOwns(st.messages, messageId, me) ==>
      Realtime.OnEdit(st, socket, messageId, "", me, env).out
        == [Realtime.Emission(Realtime.Socket(socket), Realtime.Error(Realtime.EditFailed))]
  {
    MessagePanel.BlankEditPassesGuard(input, current);
  }

  /** A successful edit of a row that is not deleted makes the "(edited)" tag show
      on the stored row, and the edit and delete actions stay for its author. */
  lemma EditedRowShowsTag(st: Realtime.Server, socket: Id, messageId: Id, newText: string,
                          me: Id, cur: MessagePanel.CurrentUser, env: Realtime.Env)
    requires Realtime.SenderOwns(st.messages, messageId, me) && newText != "" && env.saveSucceeds
    requires !st.messages[Find(st.messages, messageId).value].deleted
    requires me != "" && me == cur.id
    ensures
      var m' := Realtime.OnEdit(st, socket, messageId, newText, me, env).next.messages[Find(st.messages, messageId).value];
      MessagePanel.ShowsEditedTag(m') && MessagePanel.ShowsActions(m', cur)
  {
  }

  /** A row the server has deleted shows neither actions nor the "(edited)" tag to
      anyone, whichever conversation list displays it. */
  lemma DeletedRowIsInert(st: Realtime.Server, socket: Id, messageId: Id, me: Id,
                          cur: MessagePanel.CurrentUser, env: Realtime.Env)
    requires Realtime.SenderOwns(st.messages, messageId, me) && env.saveSucceeds
    ensures
      var m' := Realtime.OnDelete(st, socket, messageId, me, env).next.messages[Find(st.messages, messageId).value];
      !MessagePanel.ShowsActions(m', cur) && !MessagePanel.ShowsEditedTag(m')
  {
  }

  /** The fallback delete marks a listed copy of the row exactly as the server's
      delete does, except for the update time only the server knows; the socket
      path puts the server's row itself in its place. */
  lemma DeleteFallbackMatchesServer(st: Realtime.Server, socket: Id, view: ChatView.View, k: nat,
                                    messageId: Id, me: Id, env: Realtime.Env)
    requires Realtime.SenderOwns(st.messages, messageId, me) && env.saveSucceeds
    requires k < |view| && view[k] == st.messages[Find(st.messages, messageId).value]
    ensures
      var m' := Realtime.OnDelete(st, socket, messageId, me, env).next.messages[Find(st.messages, messageId).value];
      && ChatView.DeleteFallback(view, messageId, true)[k] == m'.(updatedAt := view[k].updatedAt)
      && ChatView.OnMessageReplaced(view, m')[k] == m'
  {
  }

  /** A delete with the socket present becomes a socket request from the current user, and the
      server answers it at all (to anyone) exactly when that user is the stored
      sender of the row; otherwise nothing changes and nothing is emitted. */
  lemma DeleteRequestAcceptedIff(st: Realtime.Server, socket: Id, me: Id, messageId: Id,
                                 env: Realtime.Env)
    requires FreshId(st.messages, env.freshId)
    requires messageId != ""
    ensures ChatView.DeleteMessage(me, messageId, true) == ChatView.EmitDelete(messageId, me)
    ensures
      var r := Realtime.Handle(st, socket, Realtime.MessageDelete(messageId, me), env);
      && (r.out != [] <==> Realtime.SenderOwns(st.messages, messageId, me))
      && (!Realtime.SenderOwns(st.messages, messageId, me) ==> r.next == st)
  {
  }

  // ---------------------------------------------------------------------------
  // Unread badges
  // ---------------------------------------------------------------------------

  /** Whatever order the server lists its unread groups in, the badge the client
      shows for a user is the number of unread rows from that user to the id the
      client put in the query. */
  lemma BadgeMatchesServer(s: seq<Message>, cur: MessagePanel.CurrentUser,
                           payload: seq<UserList.UnreadGroup>, x: Id)
    requires UserList.Enumerates(payload, Rest.UnreadCounts(s, UserList.UnreadQueryId(cur)))
    ensures UserList.DisplayedCount(UserList.CountsMap(payload), x)
         == Rest.UnreadFrom(s, UserList.UnreadQueryId(cur), x)
  {
    UserList.EnumerationConverts(payload, Rest.UnreadCounts(s, UserList.UnreadQueryId(cur)));
  }

  /** The current user the login hands over has no `_id`, so the client asks for
      the unread rows of "undefined": unless some row is addressed to that text,
      the payload is empty and no badge ever shows. */
  lemma LoggedInUserSeesNoBadges(s: seq<Message>, cur: MessagePanel.CurrentUser,
                                 payload: seq<UserList.UnreadGroup>, x: Id)
    requires cur.altId == ""
    requires forall i :: 0 <= i < |s| ==> s[i].receiver != "undefined"
    requires UserList.Enumerates(payload, Rest.UnreadCounts(s, UserList.UnreadQueryId(cur)))
    ensures Rest.UnreadCounts(s, UserList.UnreadQueryId(cur)) == map[]
    ensures !UserList.ShowsBadge(UserList.CountsMap(payload), x)
  {
    var q := UserList.UnreadQueryId(cur);
    forall y
      ensures y !in Rest.UnreadCounts(s, q)
    {
      Rest.UnreadFromPositive(s, q, y);
    }
    BadgeMatchesServer(s, cur, payload, x);
    Rest.UnreadFromPositive(s, q, x);
  }

  /** The client clears a badge as soon as the mark-read request resolves, whether
      or not the server applied it (`patched`). The cleared map agrees with the
      next refetch on every other user; when the update was applied it agrees on
      the selected user too, and when it was not, the next refetch brings the old
      count back. The query and the authenticated user are the same `me` here. */
  lemma ClearedBadgeMatchesRefetch(s: seq<Message>, me: Id, partner: Id, now: Time, patched: bool,
                                   before: seq<UserList.UnreadGroup>, after: seq<UserList.UnreadGroup>)
    requires UserList.Enumerates(before, Rest.UnreadCounts(s, me))
    requires UserList.Enumerates(after,
      Rest.UnreadCounts(if patched then Rest.MarkRead(s, me, partner, now) else s, me))
    ensures UserList.ClearBadge(UserList.CountsMap(before), partner) == UserList.CountsMap(after) - {partner}
    ensures patched ==>
      UserList.ClearBadge(UserList.CountsMap(before), partner) == UserList.CountsMap(after)
      && !UserList.ShowsBadge(UserList.CountsMap(after), partner)
    ensures !patched ==>
      UserList.DisplayedCount(UserList.CountsMap(after), partner) == Rest.UnreadFrom(s, me, partner)
  {
    UserList.EnumerationConverts(before, Rest.UnreadCounts(s, me));
    if patched {
      UserList.EnumerationConverts(after, Rest.UnreadCounts(Rest.MarkRead(s, me, partner, now), me));
      Rest.UnreadAfterMarkRead(s, me, partner, now);
    } else {
      UserList.EnumerationConverts(after, Rest.UnreadCounts(s, me));
    }
  }

  // ---------------------------------------------------------------------------
  // Accounts
  // ---------------------------------------------------------------------------

  /** The empty address normalises to itself. */
  lemma NormalizeEmptyEmail()
    ensures UserModel.NormalizeEmail("") == ""
  {
    assert |Text.Trim(Text.Lower(""))| <= 0;
  }

  /** An address only the appended user carries is found at the appended position. */
  lemma FindAppendedEmail(users: seq<UserModel.User>, u: UserModel.User, email: string)
    requires u.email == UserModel.NormalizeEmail(email)
    requires forall i :: 0 <= i < |users| ==> users[i].email != u.email
    ensures UserModel.FindByEmail(users + [u], email) == Some(|users|)
  {
    var users' := users + [u];
    assert users'[|users|] == u;
    assert forall i :: 0 <= i < |users| ==> users'[i] == users[i];
  }

  /** A user who has just registered with a non-empty password logs in with the same
      email and password, as the id the account was saved under. */
  lemma RegisteredUserLogsIn(users: seq<UserModel.User>, data: Rest.Registration, freshId: Id,
                             hash: string, matches: (string, string) -> bool, password: string)
    requires freshId != "" && freshId !in UserModel.UserIds(users)
    requires Rest.Register(users, data, freshId, hash).Success?
    requires data.password == Some(password) && password != ""
    requires matches(password, hash)
    ensures Rest.Login(Rest.Register(users, data, freshId, hash).value.0, data.email.value, password, matches)
         == Success(Rest.StoredId(data, freshId))
  {
    var r := Rest.Register(users, data, freshId, hash);
    var u := r.value.1;
    assert data.email.value != "" by {
      NormalizeEmptyEmail();
    }
    FindAppendedEmail(users, u, data.email.value);
    assert (users + [u])[|users|] == u;
  }

  /** An account registered with the empty password is saved, but can never log in:
      the login route refuses the empty password before any lookup, and the stored
      hash matches no other password. */
  lemma EmptyPasswordAccountCannotLogIn(users: seq<UserModel.User>, data: Rest.Registration, freshId: Id,
                                        hash: string, matches: (string, string) -> bool, password: string)
    requires freshId != "" && freshId !in UserModel.UserIds(users)
    requires data.password == Some("")
    requires Rest.Register(users, data, freshId, hash).Success?
    requires forall p :: matches(p, hash) ==> p == ""
    ensures Rest.Register(users, data, freshId, hash).value.1.password == hash
    ensures Rest.Login(Rest.Register(users, data, freshId, hash).value.0, data.email.value, password, matches).Failure?
  {
    var r := Rest.Register(users, data, freshId, hash);
    var u := r.value.1;
    if data.email.value != "" && password != "" {
      FindAppendedEmail(users, u, data.email.value);
      assert (users + [u])[|users|] == u;
    }
  }

  /** Once an address is registered, registering it again, in any letter case or
      with surrounding blanks, or registering with no email at all, is refused
      with 400. */
  lemma SecondRegistrationRefused(users: seq<UserModel.User>, data: Rest.Registration, freshId: Id,
                                  hash: string, again: Rest.Registration, freshId': Id, hash': string)
    requires freshId != "" && freshId !in UserModel.UserIds(users)
    requires Rest.Register(users, data, freshId, hash).Success?
    requires freshId' != "" && freshId' !in UserModel.UserIds(Rest.Register(users, data, freshId, hash).value.0)
    requires again.email.None? || UserModel.NormalizeEmail(again.email.value) == UserModel.NormalizeEmail(data.email.value)
    ensures Rest.Register(Rest.Register(users, data, freshId, hash).value.0, again, freshId', hash')
         == Failure(Rest.HttpError(400, "User already exists"))
  {
    var users' := Rest.Register(users, data, freshId, hash).value.0;
    if again.email.Some? {
      assert users'[|users|].email == UserModel.NormalizeEmail(again.email.value);
    }
  }
}
