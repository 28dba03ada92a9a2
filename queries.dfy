/**
 * The read side: user search without the caller, the relationship view
 * with pending incoming requests, and profile lookup.
 */
module Queries {
  import opened Wrappers
  import opened Text
  import opened Records

  /** The search's `$or` over username, e-mail, full name and location. */
  predicate Matches(u: User, input: string)
  {
    ContainsIgnoringCase(u.username, input) || ContainsIgnoringCase(u.email, input) ||
    ContainsIgnoringCase(u.fullName, input) || ContainsIgnoringCase(u.location, input)
  }

  /** `discoverUsers`: the matching users, without the caller. */
  function Discover(users: map<Id, User>, caller: Id, input: string): (r: set<Id>)
    ensures caller !in r
    ensures forall k :: k in r ==> k in users && Matches(users[k], input)
    ensures forall k :: k in users && k != caller && Matches(users[k], input) ==> k in r
  {
    set k | k in users && Matches(users[k], input) && k != caller
  }

  /** An empty search text matches every user. */
  lemma EmptyInputMatchesAll(u: User)
    ensures Matches(u, "")
  {
    assert MatchesAt(u.username, "", 0);
  }

  /** `populate` on an id array: the ids that resolve to a stored user, in order. */
  function Resolve(ids: seq<Id>, users: map<Id, User>): seq<Id>
  {
    if ids == [] then []
    else (if ids[0] in users then [ids[0]] else []) + Resolve(ids[1..], users)
  }

  /** No more entries than ids; exactly the ids that resolve. */
  lemma {:induction false} ResolveSpec(ids: seq<Id>, users: map<Id, User>)
    ensures |Resolve(ids, users)| <= |ids|
    ensures forall x :: x in Resolve(ids, users) <==> x in ids && x in users
  {
    if ids != [] {
      ResolveSpec(ids[1..], users);
      assert forall x :: x in ids <==> x == ids[0] || x in ids[1..];
    }
  }

  /** Resolving keeps order and duplicates: it filters element by element. */
  lemma {:induction false} ResolveAppend(a: seq<Id>, b: seq<Id>, users: map<Id, User>)
    ensures Resolve(a + b, users) == Resolve(a, users) + Resolve(b, users)
  {
    if a == [] {
      assert a + b == b;
    } else {
      var head := if a[0] in users then [a[0]] else [];
      assert (a + b)[0] == a[0];
      assert (a + b)[1..] == a[1..] + b;
      ResolveAppend(a[1..], b, users);
      assert Resolve(a + b, users) == head + Resolve(a[1..] + b, users);
      assert Resolve(a, users) == head + Resolve(a[1..], users);
    }
  }

  /** A single id resolves to itself or to nothing. */
  lemma ResolveSingle(x: Id, users: map<Id, User>)
    ensures Resolve([x], users) == if x in users then [x] else []
  {
    assert [x][1..] == [];
  }

  /** A pending request to `id` whose sender still resolves. */
  predicate IsPendingFor(q: Request, users: map<Id, User>, id: Id)
  {
    q.to == id && q.status == Pending && q.from in users
  }

  /**
   * The senders of the pending requests addressed to `id`, in stored order,
   * without the senders that no longer resolve.
   */
  function PendingSenders(reqs: seq<Request>, users: map<Id, User>, id: Id): seq<Id>
  {
    if reqs == [] then []
    else (if IsPendingFor(reqs[0], users, id) then [reqs[0].from] else []) + PendingSenders(reqs[1..], users, id)
  }

  /** No more entries than requests; exactly the senders of resolving pending requests. */
  lemma {:induction false} PendingSendersSpec(reqs: seq<Request>, users: map<Id, User>, id: Id)
    ensures |PendingSenders(reqs, users, id)| <= |reqs|
    ensures forall x :: x in PendingSenders(reqs, users, id) ==> x in users
    ensures forall x :: x in PendingSenders(reqs, users, id) <==>
              exists i :: 0 <= i < |reqs| && IsPendingFor(reqs[i], users, id) && reqs[i].from == x
  {
    if reqs != [] {
      var rest := PendingSenders(reqs[1..], users, id);
      PendingSendersSpec(reqs[1..], users, id);
      assert forall i :: 1 <= i < |reqs| ==> reqs[i] == reqs[1..][i - 1];
      forall x | x in rest
        ensures exists i :: 1 <= i < |reqs| && IsPendingFor(reqs[i], users, id) && reqs[i].from == x
      {
        var j :| 0 <= j < |reqs[1..]| && IsPendingFor(reqs[1..][j], users, id) && reqs[1..][j].from == x;
        assert reqs[j + 1] == reqs[1..][j];
      }
    }
  }

  /** One entry per pending request to `id` whose sender resolves, in stored order. */
  lemma {:induction false} PendingSendersAppend(a: seq<Request>, b: seq<Request>, users: map<Id, User>, id: Id)
    ensures PendingSenders(a + b, users, id) == PendingSenders(a, users, id) + PendingSenders(b, users, id)
  {
    if a == [] {
      assert a + b == b;
    } else {
      var head := if IsPendingFor(a[0], users, id) then [a[0].from] else [];
      assert (a + b)[0] == a[0];
      assert (a + b)[1..] == a[1..] + b;
      PendingSendersAppend(a[1..], b, users, id);
      assert PendingSenders(a + b, users, id) == head + PendingSenders(a[1..] + b, users, id);
      assert PendingSenders(a, users, id) == head + PendingSenders(a[1..], users, id);
    }
  }

  /** A single request contributes its sender exactly when it is pending for `id` and resolves. */
  lemma PendingSendersSingle(q: Request, users: map<Id, User>, id: Id)
    ensures PendingSenders([q], users, id) == if IsPendingFor(q, users, id) then [q.from] else []
  {
    assert [q][1..] == [];
  }

  /** What `getUserConnections` returns. */
  datatype ConnectionsView = ConnectionsView(
    connections: seq<Id>,
    followers: seq<Id>,
    following: seq<Id>,
    pendingConnections: seq<Id>)

  datatype QueryError = NotFound

  /** `getUserConnections`: the user's resolved relationships and pending incoming senders. */
  function Connections(users: map<Id, User>, reqs: seq<Request>, id: Id): (r: Result<ConnectionsView, QueryError>)
    ensures r.Failure? <==> id !in users
    ensures r.Success? ==>
      && r.value.connections == Resolve(users[id].connections, users)
      && r.value.followers == Resolve(users[id].followers, users)
      && r.value.following == Resolve(users[id].following, users)
      && (forall x :: x in r.value.connections <==> x in users[id].connections && x in users)
      && (forall x :: x in r.value.followers <==> x in users[id].followers && x in users)
      && (forall x :: x in r.value.following <==> x in users[id].following && x in users)
      && r.value.pendingConnections == PendingSenders(reqs, users, id)
  {
    if id !in users then Failure(NotFound)
    else
      var u := users[id];
      ResolveSpec(u.connections, users);
      ResolveSpec(u.followers, users);
      ResolveSpec(u.following, users);
      Success(ConnectionsView(Resolve(u.connections, users), Resolve(u.followers, users),
                              Resolve(u.following, users), PendingSenders(reqs, users, id)))
  }

  /** `getUserProfiles`: the stored profile, or "not found". */
  function GetProfile(users: map<Id, User>, id: Id): (r: Result<User, QueryError>)
    ensures r.Success? <==> id in users
    ensures r.Success? ==> r.value == users[id]
  {
    if id in users then Success(users[id]) else Failure(NotFound)
  }
}
