/** The `onlineUsers` registry of server/index.js: a JavaScript `Map` from user id
    to socket id. A `Map` iterates in insertion order and the disconnect handler
    takes the FIRST entry bound to the closing socket, so the registry is a sequence
    of bindings; `Set` keeps an existing key in place and appends a new one, as
    `Map.prototype.set` does. */
module Presence {
  import opened Wrappers
  import opened Identity

  /** One entry of the map: a user bound to the socket it last declared itself on. */
  datatype Binding = Binding(user: Id, socket: Id)

  type Registry = seq<Binding>

  /** Map keys are unique. */
  predicate UniqueUsers(r: Registry) {
    forall i, j :: 0 <= i < j < |r| ==> r[i].user != r[j].user
  }

  /** The keys of the map. */
  function Users(r: Registry): set<Id> {
    set b | b in r :: b.user
  }

  /** `onlineUsers.get(user)`. */
  function Get(r: Registry, user: Id): (s: Option<Id>)
    ensures s.None? <==> user !in Users(r)
    ensures s.Some? ==> Binding(user, s.value) in r
  {
    if |r| == 0 then None
    else if r[0].user == user then Some(r[0].socket)
    else
      assert Users(r) == {r[0].user} + Users(r[1..]);
      Get(r[1..], user)
  }

  /** With unique keys, `Get` returns the socket of the one entry for the user. */
  lemma GetBound(r: Registry, i: nat)
    requires UniqueUsers(r) && i < |r|
    ensures Get(r, r[i].user) == Some(r[i].socket)
  {
    if i > 0 {
      assert r[1..][i - 1] == r[i];
      GetBound(r[1..], i - 1);
    }
  }

  /** The keys of a map with one more entry in front. */
  lemma UsersCons(b: Binding, t: Registry)
    ensures Users([b] + t) == {b.user} + Users(t)
  {
    assert forall x :: x in [b] + t <==> x == b || x in t;
  }

  /** A map with one more entry in front has unique keys exactly when the tail does
      and the new key is not among its keys. */
  lemma UniqueCons(b: Binding, t: Registry)
    ensures UniqueUsers([b] + t) <==> b.user !in Users(t) && UniqueUsers(t)
  {
    var r := [b] + t;
    if UniqueUsers(r) {
      forall c | c in t
        ensures c.user != b.user
      {
        var k :| 0 <= k < |t| && t[k] == c;
        assert r[0] == b && r[k + 1] == c;
      }
      forall i, j | 0 <= i < j < |t|
        ensures t[i].user != t[j].user
      {
        assert r[i + 1] == t[i] && r[j + 1] == t[j];
      }
    }
    if b.user !in Users(t) && UniqueUsers(t) {
      forall i, j | 0 <= i < j < |r|
        ensures r[i].user != r[j].user
      {
        assert r[j] == t[j - 1];
        if i == 0 {
          assert t[j - 1] in t;
        } else {
          assert r[i] == t[i - 1];
        }
      }
    }
  }

  /** Looking a user up in a map with one more entry in front. */
  lemma GetCons(b: Binding, t: Registry, user: Id)
    ensures Get([b] + t, user) == if b.user == user then Some(b.socket) else Get(t, user)
  {
    assert ([b] + t)[1..] == t;
  }

  /** `onlineUsers.set(user, socket)`: an existing key keeps its place and takes the
      new socket, a new key is appended. */
  function Set(r: Registry, user: Id, socket: Id): (r': Registry)
    ensures |r'| == if user in Users(r) then |r| else |r| + 1
  {
    if |r| == 0 then [Binding(user, socket)]
    else
      UsersCons(r[0], r[1..]);
      assert r == [r[0]] + r[1..];
      if r[0].user == user then [Binding(user, socket)] + r[1..]
      else [r[0]] + Set(r[1..], user, socket)
  }

  /** After `Set`, the user maps to the new socket (last bind wins) and every other
      user's lookup is what it was. */
  lemma {:induction false} SetGet(r: Registry, user: Id, socket: Id, u: Id)
    ensures Get(Set(r, user, socket), u) == if u == user then Some(socket) else Get(r, u)
  {
    if |r| > 0 {
      assert r == [r[0]] + r[1..];
      GetCons(r[0], r[1..], u);
      if r[0].user == user {
        GetCons(Binding(user, socket), r[1..], u);
      } else {
        SetGet(r[1..], user, socket, u);
        GetCons(r[0], Set(r[1..], user, socket), u);
      }
    }
  }

  /** `Set` adds the user to the keys. */
  lemma {:induction false} SetUsers(r: Registry, user: Id, socket: Id)
    ensures Users(Set(r, user, socket)) == Users(r) + {user}
  {
    if |r| > 0 {
      var b := r[0];
      assert r == [b] + r[1..];
      UsersCons(b, r[1..]);
      if b.user == user {
        UsersCons(Binding(user, socket), r[1..]);
      } else {
        SetUsers(r[1..], user, socket);
        UsersCons(b, Set(r[1..], user, socket));
      }
    } else {
      UsersCons(Binding(user, socket), []);
    }
  }

  /** `Set` keeps keys unique. */
  lemma {:induction false} SetUnique(r: Registry, user: Id, socket: Id)
    requires UniqueUsers(r)
    ensures UniqueUsers(Set(r, user, socket))
  {
    if |r| > 0 {
      var b := r[0];
      assert r == [b] + r[1..];
      UniqueCons(b, r[1..]);
      if b.user == user {
        UniqueCons(Binding(user, socket), r[1..]);
      } else {
        SetUnique(r[1..], user, socket);
        SetUsers(r[1..], user, socket);
        UniqueCons(b, Set(r[1..], user, socket));
      }
    }
  }

  /** A user the map has not seen is appended at the end, as a `Map` orders keys. */
  lemma {:induction false} SetAppends(r: Registry, user: Id, socket: Id)
    requires user !in Users(r)
    ensures Set(r, user, socket) == r + [Binding(user, socket)]
  {
    if |r| > 0 {
      var b := r[0];
      assert r == [b] + r[1..];
      UsersCons(b, r[1..]);
      SetAppends(r[1..], user, socket);
      assert [b] + (r[1..] + [Binding(user, socket)]) == r + [Binding(user, socket)];
    }
  }

  /** Every entry after `Set` was already there or is the new binding. */
  lemma {:induction false} SetEntries(r: Registry, user: Id, socket: Id, b: Binding)
    requires b in Set(r, user, socket)
    ensures b in r || b == Binding(user, socket)
  {
    if |r| > 0 {
      assert r == [r[0]] + r[1..];
      if r[0].user != user && b != r[0] {
        SetEntries(r[1..], user, socket, b);
      }
    }
  }

  /** `onlineUsers.delete(user)`: the user has no entry any more, no other user's
      lookup changes, the surviving entries keep their order, and keys stay unique. */
  function Delete(r: Registry, user: Id): (r': Registry)
    ensures Get(r', user) == None
    ensures forall u :: u != user ==> Get(r', u) == Get(r, u)
    ensures Users(r') == Users(r) - {user}
    ensures UniqueUsers(r) ==> UniqueUsers(r')
    ensures |r'| <= |r|
  {
    if |r| == 0 then []
    else
      var b := r[0];
      assert r == [b] + r[1..];
      UsersCons(b, r[1..]);
      UniqueCons(b, r[1..]);
      var t := Delete(r[1..], user);
      assert forall u :: Get(r, u) == if u == b.user then Some(b.socket) else Get(r[1..], u) by {
        forall u { GetCons(b, r[1..], u); }
      }
      if b.user == user then t
      else
        var r' := [b] + t;
        UsersCons(b, t);
        UniqueCons(b, t);
        assert forall u :: Get(r', u) == if u == b.user then Some(b.socket) else Get(t, u) by {
          forall u { GetCons(b, t, u); }
        }
        r'
  }

  /** `[...onlineUsers.entries()].find(([_, id]) => id === socket)?.[0]`: the user of
      the first entry bound to `socket`, or nothing when no entry is. */
  function FindBySocket(r: Registry, socket: Id): (u: Option<Id>)
    ensures u.None? <==> forall i :: 0 <= i < |r| ==> r[i].socket != socket
    ensures u.Some? ==>
      exists i :: 0 <= i < |r| && r[i] == Binding(u.value, socket)
                  && (forall j :: 0 <= j < i ==> r[j].socket != socket)
  {
    if |r| == 0 then None
    else if r[0].socket == socket then
      assert r[0] == Binding(r[0].user, socket);
      Some(r[0].user)
    else
      match FindBySocket(r[1..], socket)
      case None => None
      case Some(v) =>
        var i :| 0 <= i < |r[1..]| && r[1..][i] == Binding(v, socket)
          && forall j :: 0 <= j < i ==> r[1..][j].socket != socket;
        assert r[i + 1] == Binding(v, socket);
        assert forall j :: 0 < j < i + 1 ==> r[j] == r[1..][j - 1];
        Some(v)
  }

  /** The user found for a socket is, with unique keys, bound to that very socket. */
  lemma FindBySocketBound(r: Registry, socket: Id)
    requires UniqueUsers(r) && FindBySocket(r, socket).Some?
    ensures Get(r, FindBySocket(r, socket).value) == Some(socket)
  {
    var u := FindBySocket(r, socket).value;
    var i :| 0 <= i < |r| && r[i] == Binding(u, socket);
    GetBound(r, i);
  }
}
