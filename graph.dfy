/**
 * The directed follow graph: `following` on the actor's record and
 * `followers` on the target's, written one record after the other.
 */
module Graph {
  import opened Records

  /** `ids.filter(x => x !== v)` */
  function Remove(ids: seq<Id>, v: Id): seq<Id>
  {
    if ids == [] then [] else (if ids[0] == v then [] else [ids[0]]) + Remove(ids[1..], v)
  }

  /** Filtering removes every occurrence of `v` and keeps every other id with its multiplicity. */
  lemma {:induction false} RemoveSpec(ids: seq<Id>, v: Id)
    ensures v !in Remove(ids, v)
    ensures multiset(Remove(ids, v)) == multiset(ids)[v := 0]
  {
    if ids != [] {
      RemoveSpec(ids[1..], v);
      assert ids == [ids[0]] + ids[1..];
    }
  }

  /** Filtering works element by element, so the kept elements stay in their order. */
  lemma {:induction false} RemoveAppend(a: seq<Id>, b: seq<Id>, v: Id)
    ensures Remove(a + b, v) == Remove(a, v) + Remove(b, v)
    ensures |a| == 1 ==> Remove(a, v) == if a[0] == v then [] else a
  {
    if a != [] {
      assert (a + b)[1..] == a[1..] + b;
      RemoveAppend(a[1..], b, v);
    } else {
      assert a + b == b;
    }
  }

  /** Filtering out an absent id leaves the sequence as it is. */
  lemma {:induction false} RemoveAbsent(ids: seq<Id>, v: Id)
    requires v !in ids
    ensures Remove(ids, v) == ids
  {
    if ids != [] {
      RemoveAbsent(ids[1..], v);
      assert ids == [ids[0]] + ids[1..];
    }
  }

  datatype FollowOutcome = Followed | AlreadyFollowing | FollowNotFound

  datatype UnfollowOutcome = Unfollowed | UnfollowNotFound

  /**
   * `followUser`: refuse when the target is already followed; otherwise
   * append the target to the actor's `following` and save, then load the
   * target and append the actor to its `followers`. A missing actor fails
   * before any write; a missing target fails after the first write.
   */
  function Follow(users: map<Id, User>, actor: Id, target: Id): (FollowOutcome, map<Id, User>)
  {
    if actor !in users then (FollowNotFound, users)
    else if target in users[actor].following then (AlreadyFollowing, users)
    else
      var u1 := users[actor := users[actor].(following := users[actor].following + [target])];
      if target !in u1 then (FollowNotFound, u1)
      else (Followed, u1[target := u1[target].(followers := u1[target].followers + [actor])])
  }

  /**
   * `unfollowUser`: filter the target out of the actor's `following` and
   * save, then filter the actor out of the target's `followers`.
   */
  function Unfollow(users: map<Id, User>, actor: Id, target: Id): (UnfollowOutcome, map<Id, User>)
  {
    if actor !in users then (UnfollowNotFound, users)
    else
      var u1 := users[actor := users[actor].(following := Remove(users[actor].following, target))];
      if target !in u1 then (UnfollowNotFound, u1)
      else (Unfollowed, u1[target := u1[target].(followers := Remove(u1[target].followers, actor))])
  }

  /** A follow of an already-followed target, or by an unknown actor, changes nothing. */
  lemma FollowRefused(users: map<Id, User>, actor: Id, target: Id)
    requires actor !in users || target in users[actor].following
    ensures Follow(users, actor, target).1 == users
    ensures Follow(users, actor, target).0 == if actor in users then AlreadyFollowing else FollowNotFound
  {
  }

  /**
   * A follow between two known users appends the target to the actor's
   * `following` and the actor to the target's `followers`; every other
   * field of the two records, and every other record, stays as it was.
   */
  lemma FollowEffect(users: map<Id, User>, actor: Id, target: Id)
    requires actor in users && target in users && target !in users[actor].following
    ensures var (o, r) := Follow(users, actor, target);
      && o == Followed
      && r.Keys == users.Keys
      && (actor != target ==>
            r[actor] == users[actor].(following := users[actor].following + [target]) &&
            r[target] == users[target].(followers := users[target].followers + [actor]))
      && (actor == target ==>
            r[actor] == users[actor].(following := users[actor].following + [target],
                                      followers := users[actor].followers + [actor]))
      && (forall k :: k in users && k != actor && k != target ==> r[k] == users[k])
  {
  }

  /** With the target missing, the actor's edge is written and the call fails. */
  lemma FollowHalfApplied(users: map<Id, User>, actor: Id, target: Id)
    requires actor in users && target !in users && target !in users[actor].following
    ensures Follow(users, actor, target) ==
      (FollowNotFound, users[actor := users[actor].(following := users[actor].following + [target])])
  {
  }

  /** Follow is not idempotent: a second follow is refused. */
  lemma FollowTwiceFails(users: map<Id, User>, actor: Id, target: Id)
    requires actor in users && target in users && target !in users[actor].following
    ensures var r := Follow(users, actor, target).1;
      Follow(r, actor, target) == (AlreadyFollowing, r)
  {
    FollowEffect(users, actor, target);
  }

  /**
   * Unfollow between two known users removes every occurrence of the target
   * from the actor's `following` and of the actor from the target's
   * `followers`, always succeeds, and changes no other field and no other
   * record.
   */
  lemma UnfollowEffect(users: map<Id, User>, actor: Id, target: Id)
    requires actor in users && target in users
    ensures var (o, r) := Unfollow(users, actor, target);
      && o == Unfollowed
      && r.Keys == users.Keys
      && target !in r[actor].following && actor !in r[target].followers
      && (actor != target ==>
            r[actor] == users[actor].(following := Remove(users[actor].following, target)) &&
            r[target] == users[target].(followers := Remove(users[target].followers, actor)))
      && (actor == target ==>
            r[actor] == users[actor].(following := Remove(users[actor].following, target),
                                      followers := Remove(users[actor].followers, actor)))
      && (forall k :: k in users && k != actor && k != target ==> r[k] == users[k])
  {
    RemoveSpec(users[actor].following, target);
    RemoveSpec(users[target].followers, actor);
  }

  /**
   * With the target missing, the actor's filtered `following` is saved
   * anyway and the call fails.
   */
  lemma UnfollowHalfApplied(users: map<Id, User>, actor: Id, target: Id)
    requires actor in users && target !in users
    ensures var (o, r) := Unfollow(users, actor, target);
      && o == UnfollowNotFound
      && r == users[actor := users[actor].(following := Remove(users[actor].following, target))]
      && target !in r[actor].following
  {
    RemoveSpec(users[actor].following, target);
  }

  /** Unfollow changes nothing when neither edge is present. */
  lemma UnfollowAbsent(users: map<Id, User>, actor: Id, target: Id)
    requires actor in users && target !in users[actor].following
    requires target in users ==> actor !in users[target].followers
    ensures Unfollow(users, actor, target) == (if target in users then Unfollowed else UnfollowNotFound, users)
  {
    var u0 := users[actor];
    RemoveAbsent(u0.following, target);
    assert u0.(following := Remove(u0.following, target)) == u0;
    var u1 := users[actor := u0];
    assert u1 == users;
    if target in users {
      var t0 := users[target];
      RemoveAbsent(t0.followers, actor);
      assert t0.(followers := Remove(t0.followers, actor)) == t0;
      assert users[target := t0] == users;
    }
  }

  /** Unfollowing twice is unfollowing once, whatever the store. */
  lemma UnfollowIdempotent(users: map<Id, User>, actor: Id, target: Id)
    ensures var r := Unfollow(users, actor, target);
      Unfollow(r.1, actor, target) == r
  {
    if actor in users {
      var r := Unfollow(users, actor, target);
      RemoveSpec(users[actor].following, target);
      if target in users {
        RemoveSpec(users[target].followers, actor);
        if actor == target {
          RemoveSpec(Remove(users[actor].following, target), target);
        }
      }
      assert r.1.Keys == users.Keys;
      assert target !in r.1[actor].following;
      assert target in r.1 ==> actor !in r.1[target].followers;
      UnfollowAbsent(r.1, actor, target);
    }
  }

  /** After a follow and then an unfollow, neither edge is present. */
  lemma FollowThenUnfollow(users: map<Id, User>, actor: Id, target: Id)
    requires actor in users && target in users && target !in users[actor].following
    ensures var r := Unfollow(Follow(users, actor, target).1, actor, target);
      r.0 == Unfollowed && target !in r.1[actor].following && actor !in r.1[target].followers
  {
    FollowEffect(users, actor, target);
    UnfollowEffect(Follow(users, actor, target).1, actor, target);
  }

  /** Following touches neither usernames nor the set of identities. */
  lemma FollowKeepsNames(users: map<Id, User>, actor: Id, target: Id)
    ensures SameNames(users, Follow(users, actor, target).1)
  {
    if actor in users && target !in users[actor].following {
      var u1 := users[actor := users[actor].(following := users[actor].following + [target])];
      assert SameNames(users, u1);
    }
  }

  /** Unfollowing touches neither usernames nor the set of identities. */
  lemma UnfollowKeepsNames(users: map<Id, User>, actor: Id, target: Id)
    ensures SameNames(users, Unfollow(users, actor, target).1)
  {
    if actor in users {
      var u1 := users[actor := users[actor].(following := Remove(users[actor].following, target))];
      assert SameNames(users, u1);
    }
  }
}
