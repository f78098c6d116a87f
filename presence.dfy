/**
 * The presence registry: the process-wide `users` dictionary from user id
 * to the socket that last registered under that id.
 *
 * The dictionary is a plain JavaScript object whose keys are integer ids, and
 * such an object enumerates its keys in ascending numeric order. The model
 * therefore keeps it as a list of bindings in strictly ascending user order;
 * re-assigning an existing key keeps its place. That order is what decides
 * which entry the first-match loop of `disconnect` removes.
 */
module Presence {
  import opened Domain

  datatype Binding = Binding(user: UserId, socket: SocketId)

  /** User ids strictly ascending, hence each user bound at most once. */
  ghost predicate Ascending(b: seq<Binding>)
  {
    forall i, j :: 0 <= i < j < |b| ==> b[i].user < b[j].user
  }

  /** The dictionary the bindings stand for. */
  ghost function Registry(b: seq<Binding>): map<UserId, SocketId>
  {
    if b == [] then map[] else Registry(b[1..])[b[0].user := b[0].socket]
  }

  /** Setting two different keys in either order gives the same dictionary. */
  lemma UpdateCommute(m: map<UserId, SocketId>, a: UserId, x: SocketId, c: UserId, y: SocketId)
    requires a != c
    ensures m[a := x][c := y] == m[c := y][a := x]
  {
  }

  /** Setting a key that was absent and deleting it again gives the dictionary back. */
  lemma UpdateThenRemove(m: map<UserId, SocketId>, a: UserId, x: SocketId)
    requires a !in m
    ensures m[a := x] - {a} == m
  {
  }

  /** Setting one key and deleting another commute. */
  lemma UpdateRemoveCommute(m: map<UserId, SocketId>, a: UserId, x: SocketId, k: UserId)
    requires a != k
    ensures (m - {k})[a := x] == m[a := x] - {k}
  {
  }

  /** The keys of the dictionary are the bound users, and each maps to the
      socket of its binding. */
  lemma {:induction false} RegistryIndex(b: seq<Binding>)
    requires Ascending(b)
    ensures forall i :: 0 <= i < |b| ==> b[i].user in Registry(b) && Registry(b)[b[i].user] == b[i].socket
    ensures forall u :: u in Registry(b) ==> exists i :: 0 <= i < |b| && b[i].user == u
  {
    if b != [] {
      RegistryIndex(b[1..]);
      assert forall i :: 1 <= i < |b| ==> b[1..][i - 1] == b[i];
      forall u | u in Registry(b) ensures exists i :: 0 <= i < |b| && b[i].user == u {
        if u != b[0].user {
          var i :| 0 <= i < |b[1..]| && b[1..][i].user == u;
          assert b[i + 1].user == u;
        }
      }
    }
  }

  /** `users[u]`: the socket bound to `u`, if any. */
  function Lookup(b: seq<Binding>, u: UserId): (r: Option<SocketId>)
    ensures r.Some? <==> u in Registry(b)
    ensures r.Some? ==> r.value == Registry(b)[u]
  {
    if b == [] then None
    else if b[0].user == u then Some(b[0].socket)
    else Lookup(b[1..], u)
  }

  /** `users[u] = s`: a new key takes its place in ascending order, an existing
      key keeps its place and gets the new socket. */
  function Assign(b: seq<Binding>, u: UserId, s: SocketId): (r: seq<Binding>)
    requires Ascending(b)
    ensures Ascending(r)
    ensures Registry(r) == Registry(b)[u := s]
    ensures |r| > 0 && (r[0].user == u || (b != [] && r[0] == b[0]))
  {
    if b == [] then [Binding(u, s)]
    else if u < b[0].user then [Binding(u, s)] + b
    else if u == b[0].user then [Binding(u, s)] + b[1..]
    else
      var t := Assign(b[1..], u, s);
      var r := [b[0]] + t;
      assert r[1..] == t;
      UpdateCommute(Registry(b[1..]), u, s, b[0].user, b[0].socket);
      assert Ascending(r) by {
        forall i, j | 0 <= i < j < |r| ensures r[i].user < r[j].user {
          if i == 0 && j > 1 {
            assert t[0].user < t[j - 1].user;
          }
        }
      }
      r
  }

  /** Index of the first binding, in enumeration order, whose socket is `s`. */
  function FirstHolder(b: seq<Binding>, s: SocketId): (r: Option<nat>)
    ensures r.Some? ==> r.value < |b| && b[r.value].socket == s
    ensures r.Some? ==> forall j :: 0 <= j < r.value ==> b[j].socket != s
    ensures r.None? ==> forall j :: 0 <= j < |b| ==> b[j].socket != s
  {
    if b == [] then None
    else if b[0].socket == s then Some(0)
    else
      var k := FirstHolder(b[1..], s);
      assert forall j :: 1 <= j < |b| ==> b[1..][j - 1] == b[j];
      match k
      case None => None
      case Some(k) => Some(k + 1)
  }

  /** The bindings after the disconnect loop has run for socket `s`: the first
      binding to `s` is deleted, and the loop stops there. */
  function Unbind(b: seq<Binding>, s: SocketId): seq<Binding>
  {
    match FirstHolder(b, s)
    case None => b
    case Some(k) => b[..k] + b[k + 1..]
  }

  /** The user whose binding the disconnect of `s` deletes, if any. */
  function Released(b: seq<Binding>, s: SocketId): Option<UserId>
  {
    match FirstHolder(b, s)
    case None => None
    case Some(k) => Some(b[k].user)
  }

  /** Deleting one binding keeps the users ascending. */
  lemma RemoveAtAscending(b: seq<Binding>, k: nat)
    requires Ascending(b) && k < |b|
    ensures Ascending(b[..k] + b[k + 1..])
  {
    var c := b[..k] + b[k + 1..];
    forall i | 0 <= i < |c| ensures c[i] == if i < k then b[i] else b[i + 1] {
      if i < k { assert c[i] == b[..k][i]; } else { assert c[i] == b[k + 1..][i - k]; }
    }
  }

  /** A user below every bound user is not a key of the dictionary. */
  lemma {:induction false} BelowAllUnbound(b: seq<Binding>, u: UserId)
    requires Ascending(b)
    requires b != [] ==> u < b[0].user
    ensures u !in Registry(b)
  {
    if b != [] {
      assert |b| > 1 ==> b[0].user < b[1].user;
      BelowAllUnbound(b[1..], u);
    }
  }

  /** Deleting one binding deletes its key from the dictionary and nothing else. */
  lemma {:induction false} RemoveAtRegistry(b: seq<Binding>, k: nat)
    requires Ascending(b) && k < |b|
    ensures Ascending(b[..k] + b[k + 1..])
    ensures Registry(b[..k] + b[k + 1..]) == Registry(b) - {b[k].user}
  {
    RemoveAtAscending(b, k);
    var c := b[..k] + b[k + 1..];
    if k == 0 {
      assert c == b[1..];
      assert |b| > 1 ==> b[0].user < b[1].user;
      BelowAllUnbound(b[1..], b[0].user);
      UpdateThenRemove(Registry(b[1..]), b[0].user, b[0].socket);
    } else {
      var t := b[1..];
      var c' := t[..k - 1] + t[k..];
      RemoveAtRegistry(t, k - 1);
      assert c == [b[0]] + c';
      assert c[1..] == c';
      assert t[k - 1] == b[k];
      assert b[0].user < b[k].user;
      UpdateRemoveCommute(Registry(t), b[0].user, b[0].socket, b[k].user);
    }
  }

  /** What disconnecting socket `s` does to the dictionary: if some user is
      bound to `s`, exactly one such user, the one with the smallest id, loses
      its entry and every other entry stays; otherwise nothing changes. */
  lemma UnbindRegistry(b: seq<Binding>, s: SocketId)
    requires Ascending(b)
    ensures Ascending(Unbind(b, s))
    ensures Released(b, s).None? ==>
      Registry(Unbind(b, s)) == Registry(b) &&
      forall u :: u in Registry(b) ==> Registry(b)[u] != s
    ensures Released(b, s).Some? ==>
      var u := Released(b, s).value;
      u in Registry(b) && Registry(b)[u] == s &&
      Registry(Unbind(b, s)) == Registry(b) - {u} &&
      forall v :: v in Registry(b) && Registry(b)[v] == s ==> u <= v
  {
    var r := Registry(b);
    RegistryIndex(b);
    match FirstHolder(b, s)
    case None =>
      forall u | u in r ensures r[u] != s {
        var i :| 0 <= i < |b| && b[i].user == u;
      }
    case Some(k) =>
      RemoveAtRegistry(b, k);
      forall v | v in r && r[v] == s ensures b[k].user <= v {
        var i :| 0 <= i < |b| && b[i].user == v;
        assert k <= i;
      }
  }

  /** A disconnect of a socket that was superseded by a later registration of
      the same user leaves the user's newer binding in place. */
  lemma SupersededBindingSurvives(b: seq<Binding>, u: UserId, c1: SocketId, c2: SocketId)
    requires Ascending(b) && c1 != c2
    ensures var after := Unbind(Assign(Assign(b, u, c1), u, c2), c1);
      Ascending(after) && u in Registry(after) && Registry(after)[u] == c2
  {
    var b2 := Assign(Assign(b, u, c1), u, c2);
    UnbindRegistry(b2, c1);
  }

  /** The loop stops at its first match: when two users are bound to the same
      socket, disconnecting it leaves the one with the larger id bound to it. */
  lemma SecondHolderStaysBound(b: seq<Binding>, s: SocketId, u1: UserId, u2: UserId)
    requires Ascending(b) && u1 < u2
    requires u1 in Registry(b) && Registry(b)[u1] == s
    requires u2 in Registry(b) && Registry(b)[u2] == s
    ensures Ascending(Unbind(b, s))
    ensures u2 in Registry(Unbind(b, s)) && Registry(Unbind(b, s))[u2] == s
  {
    UnbindRegistry(b, s);
  }
}
