/** The unread-badge state of client/src/Components/UserList.jsx: the map built
    from the server's unread payload, its update when a user is selected, and the
    row predicates that read it. The active user's id is "" when none is selected. */
module UserList {
  import opened Identity
  import MessagePanel

  /** The path segment of the unread query, `${currentUser._id}`: the `_id` field
      when the current user object has one, and otherwise the text "undefined",
      which is what a template literal renders for a missing field. The object the
      login hands over carries `id` and no `_id`. */
  function UnreadQueryId(cur: MessagePanel.CurrentUser): (r: Id)
    ensures r != ""
    ensures cur.altId != "" ==> r == cur.altId
    ensures cur.altId == "" <==> r == "undefined" && cur.altId != "undefined"
  {
    if cur.altId != "" then cur.altId else "undefined"
  }

  /** One element `{ _id, count }` of the unread payload. */
  datatype UnreadGroup = UnreadGroup(id: Id, count: nat)

  /** Element `i` is the last one of the payload carrying its id. */
  predicate LastOfId(payload: seq<UnreadGroup>, i: nat)
    requires i < |payload|
  {
    forall j :: i < j < |payload| ==> payload[j].id != payload[i].id
  }

  /** The payload `forEach` assigning `counts[item._id] = item.count` in order: the
      map has at most one key per element, and the last element's assignment
      stands. */
  function CountsMap(payload: seq<UnreadGroup>): (r: map<Id, nat>)
    ensures |r| <= |payload|
    ensures |payload| > 0 ==>
      payload[|payload| - 1].id in r && r[payload[|payload| - 1].id] == payload[|payload| - 1].count
  {
    if |payload| == 0 then map[]
    else
      var last := payload[|payload| - 1];
      CountsMap(payload[..|payload| - 1])[last.id := last.count]
  }

  /** An id is a key of the converted map exactly when some element carries it. */
  lemma {:induction false} CountsMapKeys(payload: seq<UnreadGroup>, x: Id)
    ensures x in CountsMap(payload) <==> exists i :: 0 <= i < |payload| && payload[i].id == x
  {
    if |payload| > 0 {
      var init := payload[..|payload| - 1];
      var last := payload[|payload| - 1];
      CountsMapKeys(init, x);
      if x != last.id && x in CountsMap(payload) {
        var i :| 0 <= i < |init| && init[i].id == x;
        assert payload[i].id == x;
      }
      if x !in CountsMap(payload) {
        forall i | 0 <= i < |payload|
          ensures payload[i].id != x
        {
          if i < |init| {
            assert init[i] == payload[i];
          }
        }
      }
    }
  }

  /** The value stored for an id is the count of the LAST element carrying it. */
  lemma {:induction false} CountsMapLast(payload: seq<UnreadGroup>, i: nat)
    requires i < |payload| && LastOfId(payload, i)
    ensures payload[i].id in CountsMap(payload)
    ensures CountsMap(payload)[payload[i].id] == payload[i].count
  {
    var init := payload[..|payload| - 1];
    if i < |init| {
      assert init[i] == payload[i];
      assert LastOfId(init, i) by {
        forall j | i < j < |init|
          ensures init[j].id != init[i].id
        {
          assert init[j] == payload[j];
        }
      }
      CountsMapLast(init, i);
    }
  }

  /** The payload lists the map: distinct ids, each with its count, and every key. */
  predicate Enumerates(payload: seq<UnreadGroup>, m: map<Id, nat>) {
    && (forall i, j :: 0 <= i < j < |payload| ==> payload[i].id != payload[j].id)
    && (forall i :: 0 <= i < |payload| ==> payload[i].id in m && m[payload[i].id] == payload[i].count)
    && (forall x :: x in m ==> exists i :: 0 <= i < |payload| && payload[i].id == x)
  }

  /** Converting any listing of a map, in whatever order, gives back the map. */
  lemma EnumerationConverts(payload: seq<UnreadGroup>, m: map<Id, nat>)
    requires Enumerates(payload, m)
    ensures CountsMap(payload) == m
  {
    var r := CountsMap(payload);
    forall x | x in r
      ensures x in m && r[x] == m[x]
    {
      CountsMapKeys(payload, x);
      var i :| 0 <= i < |payload| && payload[i].id == x;
      assert LastOfId(payload, i);
      CountsMapLast(payload, i);
    }
    forall x | x in m
      ensures x in r
    {
      CountsMapKeys(payload, x);
    }
    assert r.Keys == m.Keys;
  }

  /** The badge update once the mark-read request resolves, whatever status it is
      answered with: the selected user's key goes, every other key keeps its
      value. A request that rejects (no answer at all) leaves the map alone. */
  function ClearBadge(counts: map<Id, nat>, id: Id): (r: map<Id, nat>)
    ensures id !in r
    ensures forall x :: x != id ==> (x in r <==> x in counts)
    ensures forall x :: x in r ==> r[x] == counts[x]
  {
    counts - {id}
  }

  /** `unreadCounts[user._id] || 0`. */
  function DisplayedCount(counts: map<Id, nat>, id: Id): (r: nat)
    ensures id in counts ==> r == counts[id]
    ensures id !in counts ==> r == 0
  {
    if id in counts then counts[id] else 0
  }

  /** The badge renders when the displayed count is positive. */
  predicate ShowsBadge(counts: map<Id, nat>, id: Id)
    ensures ShowsBadge(counts, id) <==> id in counts && counts[id] > 0
  {
    DisplayedCount(counts, id) > 0
  }

  /** A cleared badge shows nothing, and clearing one user's badge leaves every
      other user's displayed count alone. */
  lemma ClearBadgeHides(counts: map<Id, nat>, id: Id, other: Id)
    ensures !ShowsBadge(ClearBadge(counts, id), id)
    ensures other != id ==> DisplayedCount(ClearBadge(counts, id), other) == DisplayedCount(counts, other)
  {
  }

  /** `activeUser && activeUser._id === user._id`. */
  predicate IsActive(active: Id, row: Id)
    ensures IsActive(active, row) ==> row != "" && row == active
  {
    active != "" && active == row
  }

  /** With no user selected no row is active; otherwise exactly the rows carrying
      the selected id are, so among rows with distinct ids at most one is. */
  lemma ActiveRowIsSelected(active: Id, rows: seq<Id>, i: nat, j: nat)
    requires i < |rows| && j < |rows|
    ensures active == "" ==> !IsActive(active, rows[i])
    ensures IsActive(active, rows[i]) <==> active != "" && rows[i] == active
    ensures IsActive(active, rows[i]) && IsActive(active, rows[j]) ==> rows[i] == rows[j]
  {
  }
}
