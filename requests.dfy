/**
 * The connection-request state machine: rate-limited, de-duplicated
 * creation of pending requests, and acceptance, which writes `connections`
 * on both users and marks the request accepted.
 */
module ConnectionRequests {
  import opened Wrappers
  import opened Records

  /** The rate-limit window, 24 hours in milliseconds. */
  const DayMs: int := 24 * 60 * 60 * 1000

  /** At this many requests in the window a sender is refused. */
  const DailyLimit: nat := 20

  /** A request sent by `sender` strictly after `now - DayMs`. */
  predicate IsRecent(r: Request, sender: Id, now: int)
  {
    r.from == sender && r.createdAt > now - DayMs
  }

  /** The number of requests sent by `sender` in the 24 hours before `now`. */
  function CountRecent(reqs: seq<Request>, sender: Id, now: int): (n: nat)
    ensures n <= |reqs|
  {
    if reqs == [] then 0
    else (if IsRecent(reqs[0], sender, now) then 1 else 0) + CountRecent(reqs[1..], sender, now)
  }

  /** The indices of the requests `sender` made in the 24 hours before `now`. */
  function RecentIndices(reqs: seq<Request>, sender: Id, now: int): set<nat>
  {
    set i: nat | i < |reqs| && IsRecent(reqs[i], sender, now)
  }

  /** The count is the number of the sender's requests created after `now - DayMs`. */
  lemma {:induction false} CountRecentIsRecentIndices(reqs: seq<Request>, sender: Id, now: int)
    ensures CountRecent(reqs, sender, now) == |RecentIndices(reqs, sender, now)|
    decreases |reqs|
  {
    if reqs != [] {
      var p := reqs[..|reqs| - 1];
      var q := reqs[|reqs| - 1];
      assert reqs == p + [q];
      CountRecentAppend(p, q, sender, now);
      CountRecentIsRecentIndices(p, sender, now);
      RecentIndicesAppend(p, q, sender, now);
    }
  }

  lemma RecentIndicesAppend(p: seq<Request>, q: Request, sender: Id, now: int)
    ensures |RecentIndices(p + [q], sender, now)| ==
            |RecentIndices(p, sender, now)| + (if IsRecent(q, sender, now) then 1 else 0)
  {
    var a := RecentIndices(p, sender, now);
    var b := RecentIndices(p + [q], sender, now);
    assert forall i :: 0 <= i < |p| ==> (p + [q])[i] == p[i];
    assert |p| !in a;
    if IsRecent(q, sender, now) {
      assert b == a + {|p|};
    } else {
      assert b == a;
    }
  }

  /** The count only falls as time passes. */
  lemma {:induction false} CountRecentAntitone(reqs: seq<Request>, sender: Id, now1: int, now2: int)
    requires now1 <= now2
    ensures CountRecent(reqs, sender, now2) <= CountRecent(reqs, sender, now1)
  {
    if reqs != [] {
      CountRecentAntitone(reqs[1..], sender, now1, now2);
    }
  }

  /** Once every request of the sender is 24 hours old, the count is zero. */
  lemma {:induction false} CountRecentExpired(reqs: seq<Request>, sender: Id, now: int)
    requires forall i :: 0 <= i < |reqs| && reqs[i].from == sender ==> reqs[i].createdAt <= now - DayMs
    ensures CountRecent(reqs, sender, now) == 0
  {
    if reqs != [] {
      assert forall i :: 1 <= i < |reqs| ==> reqs[1..][i - 1] == reqs[i];
      CountRecentExpired(reqs[1..], sender, now);
    }
  }

  /** Appending a request adds one to the count exactly when it is recent and the sender's. */
  lemma {:induction false} CountRecentAppend(reqs: seq<Request>, r: Request, sender: Id, now: int)
    ensures CountRecent(reqs + [r], sender, now) ==
            CountRecent(reqs, sender, now) + (if IsRecent(r, sender, now) then 1 else 0)
  {
    if reqs == [] {
      assert [] + [r] == [r];
      assert [r][1..] == [];
    } else {
      assert (reqs + [r])[1..] == reqs[1..] + [r];
      CountRecentAppend(reqs[1..], r, sender, now);
    }
  }

  /** The request links `a` and `b` in either direction. */
  predicate Between(r: Request, a: Id, b: Id)
  {
    (r.from == a && r.to == b) || (r.from == b && r.to == a)
  }

  /** The request goes exactly from `from` to `to`. */
  predicate Exact(r: Request, from: Id, to: Id)
  {
    r.from == from && r.to == to
  }

  predicate Links(r: Request, from: Id, to: Id, eitherWay: bool)
  {
    if eitherWay then Between(r, from, to) else Exact(r, from, to)
  }

  /** `findOne`: the first request (in stored order) that links the two ids. */
  function FindFirst(reqs: seq<Request>, from: Id, to: Id, eitherWay: bool): (r: Option<nat>)
    ensures r.None? <==> forall j :: 0 <= j < |reqs| ==> !Links(reqs[j], from, to, eitherWay)
    ensures r.Some? ==> r.value < |reqs| && Links(reqs[r.value], from, to, eitherWay) &&
                        forall j :: 0 <= j < r.value ==> !Links(reqs[j], from, to, eitherWay)
  {
    if reqs == [] then None
    else if Links(reqs[0], from, to, eitherWay) then Some(0)
    else
      var rest := FindFirst(reqs[1..], from, to, eitherWay);
      assert forall j :: 1 <= j < |reqs| ==> reqs[j] == reqs[1..][j - 1];
      match rest
      case None => None
      case Some(k) => Some(k + 1)
  }

  /** No two stored requests link the same unordered pair. */
  ghost predicate AtMostOnePerPair(reqs: seq<Request>)
  {
    forall i, j :: 0 <= i < j < |reqs| ==> !Between(reqs[j], reqs[i].from, reqs[i].to)
  }

  /** The outcomes of `sendConnectionRequest`; only `Created` answers `success: true`. */
  datatype SendOutcome = Created | AlreadyConnected | PendingExists | RateLimited
  {
    predicate IsSuccess() { this == Created }
  }

  /**
   * `sendConnectionRequest`: the rate limit first, then the lookup of a
   * request in either direction, then creation of a pending request.
   */
  function Send(reqs: seq<Request>, sender: Id, receiver: Id, now: int): (SendOutcome, seq<Request>)
  {
    if CountRecent(reqs, sender, now) >= DailyLimit then (RateLimited, reqs)
    else
      match FindFirst(reqs, sender, receiver, true)
      case None => (Created, reqs + [Request(sender, receiver, Pending, now)])
      case Some(i) => if reqs[i].status == Accepted then (AlreadyConnected, reqs) else (PendingExists, reqs)
  }

  /** At the limit the send is refused as rate-limited, even when a request between the two exists. */
  lemma SendRateLimited(reqs: seq<Request>, sender: Id, receiver: Id, now: int)
    requires CountRecent(reqs, sender, now) >= DailyLimit
    ensures Send(reqs, sender, receiver, now) == (RateLimited, reqs)
  {
  }

  /**
   * Below the limit, an existing request in either direction means nothing
   * is added: "already connected" when the first such request is accepted,
   * "Pending" otherwise.
   */
  lemma SendDeduplicates(reqs: seq<Request>, sender: Id, receiver: Id, now: int, i: nat)
    requires CountRecent(reqs, sender, now) < DailyLimit
    requires i < |reqs| && Between(reqs[i], sender, receiver)
    ensures var (o, r) := Send(reqs, sender, receiver, now);
      && r == reqs
      && (o == AlreadyConnected || o == PendingExists)
      && (o == AlreadyConnected <==> reqs[FindFirst(reqs, sender, receiver, true).value].status == Accepted)
  {
  }

  /** Below the limit and with no request between the two, exactly one pending request is appended. */
  lemma SendCreates(reqs: seq<Request>, sender: Id, receiver: Id, now: int)
    requires CountRecent(reqs, sender, now) < DailyLimit
    requires forall i :: 0 <= i < |reqs| ==> !Between(reqs[i], sender, receiver)
    ensures Send(reqs, sender, receiver, now) == (Created, reqs + [Request(sender, receiver, Pending, now)])
  {
  }

  /** The request log grows only on `Created`, by one request. */
  lemma SendGrowth(reqs: seq<Request>, sender: Id, receiver: Id, now: int)
    ensures var (o, r) := Send(reqs, sender, receiver, now);
      (o.IsSuccess() <==> |r| == |reqs| + 1) && (!o.IsSuccess() ==> r == reqs) && r[..|reqs|] == reqs
  {
  }

  /** Sending keeps at most one request per unordered pair. */
  lemma SendPreservesPairs(reqs: seq<Request>, sender: Id, receiver: Id, now: int)
    requires AtMostOnePerPair(reqs)
    ensures AtMostOnePerPair(Send(reqs, sender, receiver, now).1)
  {
    var (o, r) := Send(reqs, sender, receiver, now);
    if o == Created {
      forall i, j | 0 <= i < j < |r| ensures !Between(r[j], r[i].from, r[i].to) {
        if j == |reqs| {
          assert !Between(reqs[i], sender, receiver);
        }
      }
    }
  }

  /** Under the pair invariant, "already connected" means the request between the two is accepted. */
  lemma SendAlreadyConnectedIff(reqs: seq<Request>, sender: Id, receiver: Id, now: int)
    requires AtMostOnePerPair(reqs)
    requires CountRecent(reqs, sender, now) < DailyLimit
    ensures Send(reqs, sender, receiver, now).0 == AlreadyConnected <==>
            exists i :: 0 <= i < |reqs| && Between(reqs[i], sender, receiver) && reqs[i].status == Accepted
  {
    var f := FindFirst(reqs, sender, receiver, true);
    if i :| 0 <= i < |reqs| && Between(reqs[i], sender, receiver) && reqs[i].status == Accepted {
      var k := f.value;
      if k < i {
        assert Between(reqs[i], reqs[k].from, reqs[k].to);
      }
    }
  }

  datatype AcceptOutcome = Connected | RequestNotFound | AcceptNotFound

  /**
   * `acceptConnectionRequest`: find the request from `requester` to
   * `accepter` (any status); append `requester` to the accepter's
   * `connections` and save, then append `accepter` to the requester's and
   * save, then mark the request accepted. A missing accepter fails before
   * any write; a missing requester fails after the first write.
   */
  function Accept(users: map<Id, User>, reqs: seq<Request>, accepter: Id, requester: Id)
    : (AcceptOutcome, map<Id, User>, seq<Request>)
  {
    match FindFirst(reqs, requester, accepter, false)
    case None => (RequestNotFound, users, reqs)
    case Some(i) =>
      if accepter !in users then (AcceptNotFound, users, reqs)
      else
        var u1 := users[accepter := users[accepter].(connections := users[accepter].connections + [requester])];
        if requester !in u1 then (AcceptNotFound, u1, reqs)
        else
          (Connected,
           u1[requester := u1[requester].(connections := u1[requester].connections + [accepter])],
           reqs[i := reqs[i].(status := Accepted)])
  }

  /** Acceptance needs a request in exactly this direction; a reverse one does not count. */
  lemma AcceptNeedsExactRequest(users: map<Id, User>, reqs: seq<Request>, accepter: Id, requester: Id)
    ensures var (o, u, r) := Accept(users, reqs, accepter, requester);
      (o == RequestNotFound <==> forall i :: 0 <= i < |reqs| ==> !Exact(reqs[i], requester, accepter))
      && (o == RequestNotFound ==> u == users && r == reqs)
  {
  }

  /** A request only in the other direction is "not found". */
  lemma AcceptReverseOnly(users: map<Id, User>, reqs: seq<Request>, accepter: Id, requester: Id)
    requires AtMostOnePerPair(reqs)
    requires exists i :: 0 <= i < |reqs| && Exact(reqs[i], accepter, requester)
    requires accepter != requester
    ensures Accept(users, reqs, accepter, requester) == (RequestNotFound, users, reqs)
  {
    var i :| 0 <= i < |reqs| && Exact(reqs[i], accepter, requester);
    forall j | 0 <= j < |reqs| ensures !Exact(reqs[j], requester, accepter) {
      if j < i {
        assert !Between(reqs[i], reqs[j].from, reqs[j].to);
      } else if i < j {
        assert !Between(reqs[j], reqs[i].from, reqs[i].to);
      }
    }
  }

  /**
   * A successful accept appends each user to the other's `connections`,
   * marks the found request accepted, and changes no other user and no
   * other request.
   */
  lemma AcceptEffect(users: map<Id, User>, reqs: seq<Request>, accepter: Id, requester: Id)
    requires accepter in users && requester in users
    requires exists i :: 0 <= i < |reqs| && Exact(reqs[i], requester, accepter)
    ensures var (o, u, r) := Accept(users, reqs, accepter, requester);
      var i := FindFirst(reqs, requester, accepter, false).value;
      && o == Connected
      && u.Keys == users.Keys && |r| == |reqs|
      && (accepter != requester ==>
            u[accepter] == users[accepter].(connections := users[accepter].connections + [requester]) &&
            u[requester] == users[requester].(connections := users[requester].connections + [accepter]))
      && (accepter == requester ==>
            u[accepter] == users[accepter].(connections := users[accepter].connections + [requester, accepter]))
      && r[i] == reqs[i].(status := Accepted)
      && (forall j :: 0 <= j < |reqs| && j != i ==> r[j] == reqs[j])
      && (forall k :: k in users && k != accepter && k != requester ==> u[k] == users[k])
      && SameNames(users, u)
  {
    var i := FindFirst(reqs, requester, accepter, false).value;
    var u1 := users[accepter := users[accepter].(connections := users[accepter].connections + [requester])];
    assert SameNames(users, u1);
    if accepter == requester {
      assert users[accepter].connections + [requester] + [accepter] == users[accepter].connections + [requester, accepter];
    }
  }

  /** With the requester missing, only the accepter's side is written. */
  lemma AcceptHalfApplied(users: map<Id, User>, reqs: seq<Request>, accepter: Id, requester: Id)
    requires accepter in users && requester !in users
    requires exists i :: 0 <= i < |reqs| && Exact(reqs[i], requester, accepter)
    ensures Accept(users, reqs, accepter, requester) ==
      (AcceptNotFound,
       users[accepter := users[accepter].(connections := users[accepter].connections + [requester])],
       reqs)
  {
  }

  /** Whatever the outcome, acceptance adds and removes no user and renames nobody. */
  lemma AcceptKeepsNames(users: map<Id, User>, reqs: seq<Request>, accepter: Id, requester: Id)
    ensures SameNames(users, Accept(users, reqs, accepter, requester).1)
  {
    if FindFirst(reqs, requester, accepter, false).Some? && accepter in users {
      var u1 := users[accepter := users[accepter].(connections := users[accepter].connections + [requester])];
      assert SameNames(users, u1);
    }
  }

  /** `connections` is symmetric among known users. */
  ghost predicate Symmetric(users: map<Id, User>)
  {
    forall a, b :: a in users && b in users ==> (b in users[a].connections <==> a in users[b].connections)
  }

  /** A successful accept keeps `connections` symmetric. */
  lemma AcceptPreservesSymmetry(users: map<Id, User>, reqs: seq<Request>, accepter: Id, requester: Id)
    requires Symmetric(users)
    requires Accept(users, reqs, accepter, requester).0 == Connected
    ensures Symmetric(Accept(users, reqs, accepter, requester).1)
  {
    var u := Accept(users, reqs, accepter, requester).1;
    forall a, b | a in u && b in u ensures b in u[a].connections <==> a in u[b].connections {
      assert a in users && b in users;
      assert forall x :: x in u[a].connections <==> x in users[a].connections ||
                                                    (a == accepter && x == requester) || (a == requester && x == accepter);
      assert forall x :: x in u[b].connections <==> x in users[b].connections ||
                                                    (b == accepter && x == requester) || (b == requester && x == accepter);
    }
  }

  /**
   * Acceptance does not look at the status: accepting an accepted request
   * succeeds again and appends the ids again.
   */
  lemma AcceptRepeats(users: map<Id, User>, reqs: seq<Request>, accepter: Id, requester: Id)
    requires accepter in users && requester in users && accepter != requester
    requires exists i :: 0 <= i < |reqs| && Exact(reqs[i], requester, accepter)
    ensures var (o1, u1, r1) := Accept(users, reqs, accepter, requester);
      var (o2, u2, r2) := Accept(u1, r1, accepter, requester);
      && o1 == Connected && o2 == Connected
      && multiset(u2[accepter].connections)[requester] == multiset(users[accepter].connections)[requester] + 2
      && multiset(u2[requester].connections)[accepter] == multiset(users[requester].connections)[accepter] + 2
  {
    AcceptEffect(users, reqs, accepter, requester);
    var (o1, u1, r1) := Accept(users, reqs, accepter, requester);
    var i := FindFirst(reqs, requester, accepter, false).value;
    assert Exact(r1[i], requester, accepter);
    AcceptEffect(u1, r1, accepter, requester);
  }

  /** Acceptance keeps at most one request per unordered pair. */
  lemma AcceptPreservesPairs(users: map<Id, User>, reqs: seq<Request>, accepter: Id, requester: Id)
    requires AtMostOnePerPair(reqs)
    ensures AtMostOnePerPair(Accept(users, reqs, accepter, requester).2)
  {
    var r := Accept(users, reqs, accepter, requester).2;
    assert |r| == |reqs| && forall j :: 0 <= j < |r| ==> r[j].from == reqs[j].from && r[j].to == reqs[j].to;
  }

  /**
   * A sends to B (created), B accepts (connected), and A's next request to
   * B is refused as "already connected".
   */
  lemma ConnectScenario(users: map<Id, User>, a: Id, b: Id, t1: int, t2: int)
    requires a in users && b in users && a != b
    ensures var (o1, r1) := Send([], a, b, t1);
      var (o2, u2, r2) := Accept(users, r1, b, a);
      var (o3, r3) := Send(r2, a, b, t2);
      && o1 == Created && o2 == Connected && o3 == AlreadyConnected && r3 == r2
      && a in u2[b].connections && b in u2[a].connections
      && r2 == [Request(a, b, Accepted, t1)]
  {
    var (o1, r1) := Send([], a, b, t1);
    assert r1 == [Request(a, b, Pending, t1)];
    assert Exact(r1[0], a, b);
    AcceptEffect(users, r1, b, a);
    var r2 := Accept(users, r1, b, a).2;
    assert r2 == [Request(a, b, Accepted, t1)];
    assert CountRecent(r2, a, t2) <= 1;
    assert Between(r2[0], a, b);
  }
}
