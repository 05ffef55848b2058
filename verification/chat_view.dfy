/** The conversation-view updates of client/src/Components/Chat.jsx: how the open
    conversation's message list changes when a socket event or a fallback REST
    answer arrives, which user list is shown, and which request a send, edit or
    delete turns into. The open partner's id is "" when no user is selected. */
module ChatView {
  import opened Wrappers
  import opened Identity
  import opened MessageModel
  import Rest

  /** The message list of the open conversation, in display order. */
  type View = seq<Message>

  /** The row concerns the open partner: it is from or to them. */
  predicate Concerns(m: Message, partner: Id) {
    m.sender == partner || m.receiver == partner
  }

  /** Some row of the list carries this id (`prev.some(...)`). */
  predicate HasId(view: View, id: Id) {
    exists i :: 0 <= i < |view| && view[i].id == id
  }

  /** No two rows of the list share an id. */
  predicate DistinctIds(view: View) {
    forall i, j :: 0 <= i < j < |view| ==> view[i].id != view[j].id
  }

  /** Every row of the list concerns the partner. */
  predicate AllConcern(view: View, partner: Id) {
    forall i :: 0 <= i < |view| ==> Concerns(view[i], partner)
  }

  /** `message:new`: appended when a partner is open and the row is from or to
      them; otherwise the list is unchanged. There is no duplicate check. */
  function OnMessageNew(view: View, partner: Id, m: Message): (r: View)
    ensures partner != "" && Concerns(m, partner) ==> r == view + [m]
    ensures partner == "" || !Concerns(m, partner) ==> r == view
  {
    if partner != "" && Concerns(m, partner) then view + [m] else view
  }

  /** `message:sent`: appended when it concerns the open partner and no row with the
      same id is listed yet; otherwise the list is unchanged. */
  function OnMessageSent(view: View, partner: Id, m: Message): (r: View)
    ensures partner != "" && Concerns(m, partner) && !HasId(view, m.id) ==> r == view + [m]
    ensures partner == "" || !Concerns(m, partner) || HasId(view, m.id) ==> r == view
  {
    if partner != "" && Concerns(m, partner) && !HasId(view, m.id) then view + [m] else view
  }

  /** Receiving the same acknowledgement twice is receiving it once. */
  lemma OnMessageSentIdempotent(view: View, partner: Id, m: Message)
    ensures OnMessageSent(OnMessageSent(view, partner, m), partner, m) == OnMessageSent(view, partner, m)
  {
    var v := OnMessageSent(view, partner, m);
    if v != view {
      assert v[|view|].id == m.id;
    }
  }

  /** The acknowledgement never introduces a second row with an id already listed. */
  lemma OnMessageSentKeepsDistinct(view: View, partner: Id, m: Message)
    requires DistinctIds(view)
    ensures DistinctIds(OnMessageSent(view, partner, m))
  {
  }

  /** Both appending updates keep a list that only concerns the partner that way. */
  lemma AppendsKeepConversation(view: View, partner: Id, m: Message)
    requires AllConcern(view, partner)
    ensures AllConcern(OnMessageNew(view, partner, m), partner)
    ensures AllConcern(OnMessageSent(view, partner, m), partner)
  {
  }

  /** `prev.map((m) => String(m._id) === String(id) ? row : m)`: every row with the
      id is replaced by `row`, in place; the length and every other row stay. */
  function Substitute(view: View, id: Id, row: Message): (r: View)
    ensures |r| == |view|
    ensures forall i :: 0 <= i < |view| ==> r[i] == if view[i].id == id then row else view[i]
  {
    seq(|view|, i requires 0 <= i < |view| => if view[i].id == id then row else view[i])
  }

  /** An id the list does not carry leaves it unchanged. */
  lemma SubstituteUnknownIsNoop(view: View, id: Id, row: Message)
    requires !HasId(view, id)
    ensures Substitute(view, id, row) == view
  {
  }

  /** Replacing by a row with the same id is idempotent, keeps the ids in their
      places, and keeps ids distinct. */
  lemma SubstituteSameId(view: View, row: Message)
    ensures Substitute(Substitute(view, row.id, row), row.id, row) == Substitute(view, row.id, row)
    ensures forall i :: 0 <= i < |view| ==> Substitute(view, row.id, row)[i].id == view[i].id
    ensures DistinctIds(view) ==> DistinctIds(Substitute(view, row.id, row))
  {
  }

  /** `message:edited` and `message:deleted` share one updater: the listed row with
      the same id becomes the server's row, every other row stays. */
  function OnMessageReplaced(view: View, m: Message): (r: View)
    ensures |r| == |view|
    ensures forall i :: 0 <= i < |view| && view[i].id == m.id ==> r[i] == m
    ensures forall i :: 0 <= i < |view| && view[i].id != m.id ==> r[i] == view[i]
  {
    Substitute(view, m.id, m)
  }

  /** The fallback send appends the row in the answer's payload, if any. */
  function SendFallback(view: View, payload: Option<Message>): (r: View)
    ensures payload.Some? ==> r == view + [payload.value]
    ensures payload.None? ==> r == view
  {
    match payload
    case Some(m) => view + [m]
    case None => view
  }

  /** The fallback edit replaces the row whose id is `messageId` by the answer's
      payload, if any; every other row stays. */
  function EditFallback(view: View, messageId: Id, payload: Option<Message>): (r: View)
    ensures payload.None? ==> r == view
    ensures payload.Some? ==>
      && |r| == |view|
      && (forall i :: 0 <= i < |view| && view[i].id == messageId ==> r[i] == payload.value)
      && (forall i :: 0 <= i < |view| && view[i].id != messageId ==> r[i] == view[i])
  {
    match payload
    case Some(m) => Substitute(view, messageId, m)
    case None => view
  }

  /** An edit answer carrying the row with the edited id updates the list exactly as
      the socket's `message:edited` with that row does. */
  lemma EditFallbackAgreesWithSocket(view: View, messageId: Id, row: Message)
    requires row.id == messageId
    ensures EditFallback(view, messageId, Some(row)) == OnMessageReplaced(view, row)
  {
  }

  /** The fallback delete, when the answer reports success, marks the row whose id
      is `messageId` deleted with the tombstone text the server writes; every other
      row, and every other field of that row, stays. */
  function DeleteFallback(view: View, messageId: Id, success: bool): (r: View)
    ensures !success ==> r == view
    ensures |r| == |view|
    ensures success ==> forall i :: 0 <= i < |view| && view[i].id == messageId ==>
      r[i] == view[i].(deleted := true, text := Tombstone)
    ensures forall i :: 0 <= i < |view| && view[i].id != messageId ==> r[i] == view[i]
  {
    if !success then view
    else
      seq(|view|, i requires 0 <= i < |view| =>
        if view[i].id == messageId then view[i].(deleted := true, text := Tombstone) else view[i])
  }

  /** `a` is `b` with some elements left out, the rest in their order. */
  predicate SubsequenceOf<T(==)>(a: seq<T>, b: seq<T>)
    decreases |b|
  {
    if |a| == 0 then true
    else if |b| == 0 then false
    else if a[0] == b[0] then SubsequenceOf(a[1..], b[1..])
    else SubsequenceOf(a, b[1..])
  }

  /** `list.filter((u) => String(u._id) !== String(user.id))`: the user list without
      the current user, every other user kept in order. */
  function OtherUsers(list: seq<Rest.Profile>, me: Id): (r: seq<Rest.Profile>)
    ensures forall p :: p in r <==> p in list && p.id != me
    ensures forall i :: 0 <= i < |r| ==> r[i].id != me
    ensures SubsequenceOf(r, list)
    ensures |r| <= |list|
  {
    if |list| == 0 then []
    else if list[0].id == me then OtherUsers(list[1..], me)
    else [list[0]] + OtherUsers(list[1..], me)
  }

  /** What a send, edit or delete turns into: a socket emit when the socket object
      exists (from the moment the chat view opens, whether or not it has connected),
      the REST fallback otherwise, or nothing. */
  datatype Outgoing =
    | Nothing
    | EmitSend(sender: Id, receiver: Id, text: string)
    | RestSend(receiver: Id, text: string)
    | EmitEdit(messageId: Id, newText: string, editor: Id)
    | PutEdit(messageId: Id, text: string)
    | EmitDelete(messageId: Id, requester: Id)
    | DeleteRequest(messageId: Id)

  /** `handleSendMessage`: nothing without an open partner; otherwise the sender is
      the current user and the receiver the open partner. */
  function SendMessage(me: Id, partner: Id, hasSocket: bool, text: string): (r: Outgoing)
    ensures partner == "" <==> r == Nothing
    ensures partner != "" && hasSocket ==> r == EmitSend(me, partner, text)
    ensures partner != "" && !hasSocket ==> r == RestSend(partner, text)
  {
    if partner == "" then Nothing
    else if hasSocket then EmitSend(me, partner, text)
    else RestSend(partner, text)
  }

  /** `handleEditMessage`: nothing without a message id; the editor is the current
      user. */
  function EditMessage(me: Id, messageId: Id, hasSocket: bool, newText: string): (r: Outgoing)
    ensures messageId == "" <==> r == Nothing
    ensures messageId != "" && hasSocket ==> r == EmitEdit(messageId, newText, me)
    ensures messageId != "" && !hasSocket ==> r == PutEdit(messageId, newText)
  {
    if messageId == "" then Nothing
    else if hasSocket then EmitEdit(messageId, newText, me)
    else PutEdit(messageId, newText)
  }

  /** `handleDeleteMessage`: nothing without a message id; the requester is the
      current user. */
  function DeleteMessage(me: Id, messageId: Id, hasSocket: bool): (r: Outgoing)
    ensures messageId == "" <==> r == Nothing
    ensures messageId != "" && hasSocket ==> r == EmitDelete(messageId, me)
    ensures messageId != "" && !hasSocket ==> r == DeleteRequest(messageId)
  {
    if messageId == "" then Nothing
    else if hasSocket then EmitDelete(messageId, me)
    else DeleteRequest(messageId)
  }
}
