/** The Message record (server/Models/message.js) and the two ways a row comes to
    be written: creation with the schema's defaults, and a revision of a loaded
    document followed by `save()`. The message collection is a sequence of rows in
    insertion order. */
module MessageModel {
  import opened Wrappers
  import opened Identity

  /** The text the server writes over a message it soft-deletes. */
  const Tombstone: string := "This message was deleted"

  /** Why Mongoose refused to write a row: a required field is missing. */
  const ValidationFailed: string := "Message validation failed"

  datatype Message = Message(
    id: Id,
    sender: Id,
    receiver: Id,
    text: string,
    read: bool,
    delivered: bool,
    edited: bool,
    deleted: bool,
    createdAt: Time,
    updatedAt: Time)

  /** The schema's `required: true` fields are present (a required String is
      rejected when it is empty). */
  predicate HasRequired(m: Message) {
    m.sender != "" && m.receiver != "" && m.text != ""
  }

  /** A row as it sits in the collection: an id and every required field. */
  predicate WellFormed(m: Message) {
    m.id != "" && HasRequired(m)
  }

  /** The fields no operation of the system rewrites once a row exists. */
  predicate SameIdentity(a: Message, b: Message) {
    a.id == b.id && a.sender == b.sender && a.receiver == b.receiver && a.createdAt == b.createdAt
  }

  /** `new Message({ sender, receiver, text, delivered })` then `save()`: every other
      field takes its schema default, `timestamps` sets both stamps to the save time,
      and validation refuses the row when a required field is missing. */
  function Create(id: Id, sender: Id, receiver: Id, text: string, delivered: bool, now: Time)
    : (r: Result<Message, string>)
    ensures r.Success? <==> sender != "" && receiver != "" && text != ""
    ensures r.Failure? ==> r.error == ValidationFailed
    ensures r.Success? ==>
      && r.value.id == id && r.value.sender == sender && r.value.receiver == receiver
      && r.value.text == text && r.value.delivered == delivered
      && !r.value.read && !r.value.edited && !r.value.deleted
      && r.value.createdAt == now && r.value.updatedAt == now
    ensures r.Success? && id != "" ==> WellFormed(r.value)
  {
    var m := Message(id, sender, receiver, text, false, delivered, false, false, now, now);
    if HasRequired(m) then Success(m) else Failure(ValidationFailed)
  }

  /** Assigns `text`, `edited` and `deleted` on a loaded document and saves it.
      Validation refuses an empty text. Mongoose writes nothing for a document none
      of whose fields changed, so `updatedAt` moves to `now` only on a real change. */
  function Revise(m: Message, text: string, edited: bool, deleted: bool, now: Time)
    : (r: Option<Message>)
    ensures r.None? <==> text == ""
    ensures r.Some? ==>
      && SameIdentity(m, r.value)
      && r.value.read == m.read && r.value.delivered == m.delivered
      && r.value.text == text && r.value.edited == edited && r.value.deleted == deleted
    ensures r.Some? && text == m.text && edited == m.edited && deleted == m.deleted ==> r.value == m
    ensures r.Some? && r.value != m ==> r.value.updatedAt == now
    ensures r.Some? && WellFormed(m) ==> WellFormed(r.value)
  {
    if text == "" then None
    else if text == m.text && edited == m.edited && deleted == m.deleted then Some(m)
    else Some(m.(text := text, edited := edited, deleted := deleted, updatedAt := now))
  }

  /** The ids present in a collection. */
  function Ids(s: seq<Message>): set<Id> {
    set m | m in s :: m.id
  }

  /** No two rows share an id (the `_id` index of the collection). */
  predicate UniqueIds(s: seq<Message>) {
    forall i, j :: 0 <= i < j < |s| ==> s[i].id != s[j].id
  }

  /** Every row is well formed and ids are unique. */
  predicate ValidStore(s: seq<Message>) {
    UniqueIds(s) && forall i :: 0 <= i < |s| ==> WellFormed(s[i])
  }

  /** An id the database may assign to a new row. */
  predicate FreshId(s: seq<Message>, id: Id) {
    id != "" && id !in Ids(s)
  }

  /** `Message.findById`: the position of the first row with this id, if any. */
  function Find(s: seq<Message>, id: Id): (r: Option<nat>)
    ensures r.None? <==> id !in Ids(s)
    ensures r.Some? ==> r.value < |s| && s[r.value].id == id
    ensures r.Some? ==> forall j :: 0 <= j < r.value ==> s[j].id != id
  {
    if |s| == 0 then None
    else if s[0].id == id then Some(0)
    else
      match Find(s[1..], id)
      case None => assert Ids(s) == {s[0].id} + Ids(s[1..]); None
      case Some(k) => Some(k + 1)
  }

  /** With unique ids, `Find` returns the one row carrying the id. */
  lemma FindUnique(s: seq<Message>, i: nat)
    requires UniqueIds(s) && i < |s|
    ensures Find(s, s[i].id) == Some(i)
  {
    assert s[i] in s;
  }

  /** Appending a well-formed row under a fresh id keeps the collection valid. */
  lemma AppendKeepsValid(s: seq<Message>, m: Message)
    requires ValidStore(s) && WellFormed(m) && m.id !in Ids(s)
    ensures ValidStore(s + [m])
    ensures Ids(s + [m]) == Ids(s) + {m.id}
  {
    var t := s + [m];
    forall i, j | 0 <= i < j < |t|
      ensures t[i].id != t[j].id
    {
      if j == |s| {
        assert t[i] in s;
      }
    }
  }

  /** Overwriting one row by a well-formed row with the same id keeps the collection valid. */
  lemma UpdateKeepsValid(s: seq<Message>, i: nat, m: Message)
    requires ValidStore(s) && i < |s| && WellFormed(m) && m.id == s[i].id
    ensures ValidStore(s[i := m])
    ensures Ids(s[i := m]) == Ids(s)
  {
    var t := s[i := m];
    forall x | x in Ids(s)
      ensures x in Ids(t)
    {
      var k :| 0 <= k < |s| && s[k].id == x;
      assert t[k].id == x;
    }
    forall x | x in Ids(t)
      ensures x in Ids(s)
    {
      var k :| 0 <= k < |t| && t[k].id == x;
      assert s[k].id == x;
    }
  }
}
