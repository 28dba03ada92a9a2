/**
 * The user controller's handlers as operations on one mutable store of
 * user records and connection requests. Each handler performs the same
 * steps as the controller, in the same order, and its contract ties the
 * new state to the pure definition of that handler.
 */
module SocialStore {
  import opened Wrappers
  import opened Text
  import opened Records
  import opened Hydration
  import opened Graph
  import opened ConnectionRequests
  import opened Profile
  import opened Queries

  datatype AuthError = NotAuthenticated

  datatype UpdateError = UserNotFound

  class Store {
    /** The user collection, keyed by the provider's subject id. */
    var users: map<Id, User>
    /** The connection collection, in insertion order. */
    var requests: seq<Request>
    /** The indices of the created requests announced to the event bus, in order. */
    ghost var events: seq<nat>

    /** Usernames are unique and each pair of users has at most one request. */
    ghost predicate Valid()
      reads this
    {
      UniqueUsernames(users) && AtMostOnePerPair(requests)
    }

    constructor ()
      ensures Valid()
      ensures users == map[] && requests == [] && events == []
    {
      users := map[];
      requests := [];
      events := [];
    }

    /**
     * The collision loop: try the base, then base1, base2, ... until no
     * other identity holds the name. It stops because the names it tries
     * are distinct and only finitely many are held.
     */
    method ResolveUsername(id: Id, base: string) returns (name: string)
      ensures name !in OtherNames(users, id)
      ensures IsFirstFree(OtherNames(users, id), base, name)
      ensures name == base <==> base !in OtherNames(users, id)
    {
      var held := OtherNames(users, id);
      name := base;
      var count: nat := 1;
      while name in held
        invariant name == Candidate(base, count - 1)
        invariant forall j :: 0 <= j < count - 1 ==> Candidate(base, j) in held
        invariant count - 1 <= |held|
        decreases |held| - (count - 1)
      {
        TakenBound(held, base, count);
        name := base + NatToString(count);
        count := count + 1;
      }
    }

    /**
     * `getUserData`: refuse an unauthenticated caller; return the stored
     * record when it does not look provisional; otherwise resolve a free
     * username and create or refresh the record.
     */
    method GetUserData(id: Id, p: Option<ProviderUser>, c: SessionClaims) returns (res: Result<User, AuthError>)
      modifies this
      ensures id == "" ==> res == Failure(NotAuthenticated) && users == old(users)
      ensures id != "" && !ShouldHydrate(Lookup(old(users), id)) ==>
                users == old(users) && res == Success(old(users)[id])
      ensures id != "" && ShouldHydrate(Lookup(old(users), id)) ==>
                exists name :: IsFirstFree(OtherNames(old(users), id), HydrationBase(id, p, c), name) &&
                               users == old(users)[id := Hydrate(Lookup(old(users), id), p, c, name)] &&
                               res == Success(users[id])
      ensures requests == old(requests) && events == old(events)
      ensures old(Valid()) ==> Valid()
    {
      if id == "" {
        return Failure(NotAuthenticated);
      }
      var existing := Lookup(users, id);
      if !ShouldHydrate(existing) {
        return Success(existing.value);
      }
      ghost var before := users;
      var base := HydrationBase(id, p, c);
      var name := ResolveUsername(id, base);
      if Valid() {
        HydratePreservesUnique(users, id, p, c, name);
      }
      var record := Hydrate(existing, p, c, name);
      users := users[id := record];
      res := Success(record);
      assert IsFirstFree(OtherNames(before, id), base, name) && users == before[id := record];
    }

    /**
     * `updateUserData`: keep the old username when none is given or the
     * requested one is held by someone else, then store the given fields.
     */
    method UpdateUserData(id: Id, edit: ProfileEdit, picture: Option<string>, cover: Option<string>)
      returns (res: Result<User, UpdateError>)
      modifies this
      ensures id !in old(users) ==> res == Failure(UserNotFound) && users == old(users)
      ensures id in old(users) ==>
                users == old(users)[id := UpdatedRecord(old(users), id, edit, picture, cover)] &&
                res == Success(users[id])
      ensures requests == old(requests) && events == old(events)
      ensures old(Valid()) ==> Valid()
    {
      if id !in users {
        return Failure(UserNotFound);
      }
      if Valid() {
        UpdatePreservesUnique(users, id, edit, picture, cover);
      }
      var record := UpdatedRecord(users, id, edit, picture, cover);
      users := users[id := record];
      res := Success(record);
    }

    /** `followUser`, one save at a time. */
    method FollowUser(actor: Id, target: Id) returns (o: FollowOutcome)
      modifies this
      ensures (o, users) == Follow(old(users), actor, target)
      ensures requests == old(requests) && events == old(events)
      ensures old(Valid()) ==> Valid()
    {
      FollowKeepsNames(users, actor, target);
      if Valid() {
        SameNamesPreserveUnique(users, Follow(users, actor, target).1);
      }
      if actor !in users {
        return FollowNotFound;
      }
      var u := users[actor];
      if target in u.following {
        return AlreadyFollowing;
      }
      users := users[actor := u.(following := u.following + [target])];
      if target !in users {
        return FollowNotFound;
      }
      var t := users[target];
      users := users[target := t.(followers := t.followers + [actor])];
      o := Followed;
    }

    /** `unfollowUser`, one save at a time. */
    method UnfollowUser(actor: Id, target: Id) returns (o: UnfollowOutcome)
      modifies this
      ensures (o, users) == Unfollow(old(users), actor, target)
      ensures requests == old(requests) && events == old(events)
      ensures old(Valid()) ==> Valid()
    {
      UnfollowKeepsNames(users, actor, target);
      if Valid() {
        SameNamesPreserveUnique(users, Unfollow(users, actor, target).1);
      }
      if actor !in users {
        return UnfollowNotFound;
      }
      var u := users[actor];
      users := users[actor := u.(following := Remove(u.following, target))];
      if target !in users {
        return UnfollowNotFound;
      }
      var t := users[target];
      users := users[target := t.(followers := Remove(t.followers, actor))];
      o := Unfollowed;
    }

    /**
     * `sendConnectionRequest` at time `now`: rate limit, lookup in either
     * direction, creation; a created request is announced on the event bus.
     */
    method SendConnectionRequest(sender: Id, receiver: Id, now: int) returns (o: SendOutcome)
      modifies this
      ensures (o, requests) == Send(old(requests), sender, receiver, now)
      ensures events == old(events) + (if o == Created then [|old(requests)|] else [])
      ensures users == old(users)
      ensures old(Valid()) ==> Valid()
    {
      if Valid() {
        SendPreservesPairs(requests, sender, receiver, now);
      }
      if CountRecent(requests, sender, now) >= DailyLimit {
        return RateLimited;
      }
      var found := FindFirst(requests, sender, receiver, true);
      if found.None? {
        events := events + [|requests|];
        requests := requests + [Request(sender, receiver, Pending, now)];
        return Created;
      }
      if requests[found.value].status == Accepted {
        return AlreadyConnected;
      }
      o := PendingExists;
    }

    /** `acceptConnectionRequest`, one save at a time. */
    method AcceptConnectionRequest(accepter: Id, requester: Id) returns (o: AcceptOutcome)
      modifies this
      ensures (o, users, requests) == Accept(old(users), old(requests), accepter, requester)
      ensures events == old(events)
      ensures old(Valid()) ==> Valid()
    {
      AcceptKeepsNames(users, requests, accepter, requester);
      if Valid() {
        SameNamesPreserveUnique(users, Accept(users, requests, accepter, requester).1);
        AcceptPreservesPairs(users, requests, accepter, requester);
      }
      var found := FindFirst(requests, requester, accepter, false);
      if found.None? {
        return RequestNotFound;
      }
      if accepter !in users {
        return AcceptNotFound;
      }
      var u := users[accepter];
      users := users[accepter := u.(connections := u.connections + [requester])];
      if requester !in users {
        return AcceptNotFound;
      }
      var t := users[requester];
      users := users[requester := t.(connections := t.connections + [accepter])];
      var i := found.value;
      requests := requests[i := requests[i].(status := Accepted)];
      o := Connected;
    }

    /** `discoverUsers`: the matching users other than the caller. */
    method DiscoverUsers(caller: Id, input: string) returns (r: set<Id>)
      ensures caller !in r
      ensures forall k :: k in r <==> k in users && k != caller && Matches(users[k], input)
    {
      r := Discover(users, caller, input);
    }

    /** `getUserConnections`. */
    method GetUserConnections(id: Id) returns (r: Result<ConnectionsView, QueryError>)
      ensures r.Failure? <==> id !in users
      ensures r.Success? ==> r.value.pendingConnections == PendingSenders(requests, users, id)
      ensures r.Success? ==> r.value.connections == Resolve(users[id].connections, users)
      ensures r.Success? ==> r.value.followers == Resolve(users[id].followers, users)
      ensures r.Success? ==> r.value.following == Resolve(users[id].following, users)
      ensures r.Success? ==> forall x :: x in r.value.connections <==> x in users[id].connections && x in users
      ensures r.Success? ==> forall x :: x in r.value.followers <==> x in users[id].followers && x in users
      ensures r.Success? ==> forall x :: x in r.value.following <==> x in users[id].following && x in users
    {
      r := Connections(users, requests, id);
    }

    /** `getUserProfiles` (the posts are not part of this model). */
    method GetUserProfiles(id: Id) returns (r: Result<User, QueryError>)
      ensures r.Success? <==> id in users
      ensures r.Success? ==> r.value == users[id]
    {
      r := GetProfile(users, id);
    }
  }

  /**
   * Accepting a request whose sender has no record yet writes the
   * accepter's side only; when the sender then signs in, hydration creates
   * a record with no connections, so `connections` is no longer symmetric.
   */
  lemma LateSignupBreaksSymmetry(users: map<Id, User>, reqs: seq<Request>, sender: Id, accepter: Id,
                                 p: Option<ProviderUser>, c: SessionClaims, name: string)
    requires accepter in users && sender !in users && sender != accepter
    requires exists i :: 0 <= i < |reqs| && Exact(reqs[i], sender, accepter)
    ensures var (o, u1, r1) := Accept(users, reqs, accepter, sender);
      var u2 := u1[sender := Hydrate(Lookup(u1, sender), p, c, name)];
      && o == AcceptNotFound && r1 == reqs
      && sender in u2[accepter].connections
      && accepter !in u2[sender].connections
      && !Symmetric(u2)
  {
    AcceptHalfApplied(users, reqs, accepter, sender);
    var u1 := users[accepter := users[accepter].(connections := users[accepter].connections + [sender])];
    assert Lookup(u1, sender) == None;
    HydrateNew(PrimaryEmail(p, c), FullName(p, c), name, ImageUrl(p));
    var u2 := u1[sender := Hydrate(None, p, c, name)];
    assert sender in u2[accepter].connections;
    assert accepter !in u2[sender].connections;
  }
}
