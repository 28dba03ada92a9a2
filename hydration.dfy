/**
 * Identity hydration: deciding when a local record must be refreshed from
 * the identity provider, the fallback chains for e-mail, name and raw
 * username, username collision resolution, and the create-or-update rules.
 */
module Hydration {
  import opened Wrappers
  import opened Text
  import opened Username
  import opened Records

  /** One e-mail address of the provider's user. */
  datatype EmailAddress = EmailAddress(id: string, emailAddress: string)

  /** The provider's user record (`clerkClient.users.getUser`); a failed fetch is `None`. */
  datatype ProviderUser = ProviderUser(
    emailAddresses: seq<EmailAddress>,
    primaryEmailAddressId: string,
    firstName: string,
    lastName: string,
    fullName: string,
    username: string,
    imageUrl: string)

  /** The claims of the authenticated session; a missing claim is "". */
  datatype SessionClaims = SessionClaims(
    email: string,
    emailAddress: string,
    firstName: string,
    lastName: string,
    fullName: string,
    username: string)

  const PlaceholderDomain: string := "@example.local"
  const DefaultName: string := "New User"
  const AutoPrefix: string := "user_"

  /** `/^user_[a-z0-9]+$/i` : the username shape the provider assigns by default. */
  predicate IsAutoUsername(s: string)
  {
    |s| > |AutoPrefix| && LowerAscii(s[..|AutoPrefix|]) == AutoPrefix &&
    forall i :: |AutoPrefix| <= i < |s| ==> IsAlnum(s[i])
  }

  /** A stored record still holding placeholder data. */
  predicate LooksProvisional(u: User)
  {
    u.email == "" || EndsWith(u.email, PlaceholderDomain) || u.fullName == DefaultName ||
    IsAutoUsername(u.username)
  }

  /** Hydration runs when there is no record or the record looks provisional. */
  predicate ShouldHydrate(existing: Option<User>)
  {
    existing.None? || LooksProvisional(existing.value)
  }

  /** The auto-generated shape is matched case-insensitively and needs a non-empty alphanumeric tail. */
  lemma AutoUsernameExamples()
    ensures IsAutoUsername("user_a1") && IsAutoUsername("USER_A1")
    ensures !IsAutoUsername("user_") && !IsAutoUsername("user_a_") && !IsAutoUsername("jane")
  {
    assert LowerAscii("user_") == "user_";
    assert LowerAscii("USER_") == "user_";
    assert "user_a1"[..5] == "user_" && "USER_A1"[..5] == "USER_";
    assert !IsAlnum("user_a_"[6]);
  }

  /** `emailAddresses.find(e => e.id === pid)?.emailAddress`, "" when nothing matches. */
  function FindEmail(addrs: seq<EmailAddress>, pid: string): string
  {
    if |addrs| == 0 then ""
    else if addrs[0].id == pid then addrs[0].emailAddress
    else FindEmail(addrs[1..], pid)
  }

  /** The address of the first entry with the primary id, or "" when no entry has it. */
  lemma {:induction false} FindEmailSpec(addrs: seq<EmailAddress>, pid: string)
    ensures (forall i :: 0 <= i < |addrs| ==> addrs[i].id != pid) ==> FindEmail(addrs, pid) == ""
    ensures forall i :: (0 <= i < |addrs| && addrs[i].id == pid &&
                         (forall j :: 0 <= j < i ==> addrs[j].id != pid)) ==> FindEmail(addrs, pid) == addrs[i].emailAddress
  {
    if |addrs| > 0 && addrs[0].id != pid {
      FindEmailSpec(addrs[1..], pid);
      assert forall i :: 1 <= i < |addrs| ==> addrs[i] == addrs[1..][i - 1];
    }
  }

  /** The e-mail chain: the primary address, else the first listed, else the session's claims. */
  function PrimaryEmail(p: Option<ProviderUser>, c: SessionClaims): string
  {
    var byId := if p.Some? then FindEmail(p.value.emailAddresses, p.value.primaryEmailAddressId) else "";
    var first := if p.Some? && |p.value.emailAddresses| > 0 then p.value.emailAddresses[0].emailAddress else "";
    FirstNonEmpty([byId, first, c.email, c.emailAddress])
  }

  /** The name chain: "first last" trimmed, else the provider's and the session's full name, else "New User". */
  function FullName(p: Option<ProviderUser>, c: SessionClaims): (r: string)
    ensures r != ""
  {
    var first := FirstNonEmpty([if p.Some? then p.value.firstName else "", c.firstName]);
    var last := FirstNonEmpty([if p.Some? then p.value.lastName else "", c.lastName]);
    var cands := [Trim(first + " " + last), if p.Some? then p.value.fullName else "", c.fullName, DefaultName];
    assert cands[3] != "";
    FirstNonEmpty(cands)
  }

  /**
   * The e-mail chain prefers the provider's primary address; without a
   * provider record it is the session's `email`, else its `email_address`.
   */
  lemma PrimaryEmailSpec(p: Option<ProviderUser>, c: SessionClaims)
    ensures p.Some? && FindEmail(p.value.emailAddresses, p.value.primaryEmailAddressId) != "" ==>
              PrimaryEmail(p, c) == FindEmail(p.value.emailAddresses, p.value.primaryEmailAddressId)
    ensures p.None? ==> PrimaryEmail(p, c) == if c.email != "" then c.email else c.emailAddress
    ensures PrimaryEmail(p, c) == "" ==> c.email == "" && c.emailAddress == ""
  {
    var byId := if p.Some? then FindEmail(p.value.emailAddresses, p.value.primaryEmailAddressId) else "";
    var first := if p.Some? && |p.value.emailAddresses| > 0 then p.value.emailAddresses[0].emailAddress else "";
    var cands := [byId, first, c.email, c.emailAddress];
    assert PrimaryEmail(p, c) == FirstNonEmpty(cands);
    assert cands[2] == c.email && cands[3] == c.emailAddress;
    if p.Some? && byId != "" {
      FirstNonEmptyAt(cands, 0);
    }
    if p.None? {
      if c.email != "" {
        FirstNonEmptyAt(cands, 2);
      } else if c.emailAddress != "" {
        FirstNonEmptyAt(cands, 3);
      }
    }
  }

  /** With nothing from the provider or the session, the name is "New User". */
  lemma FullNameDefault(c: SessionClaims)
    requires c.firstName == "" && c.lastName == "" && c.fullName == ""
    ensures FullName(None, c) == DefaultName
  {
    FirstOfTwo("", "");
    var space := "" + " " + "";
    TrimEmptyIff(space);
    assert IsJsSpace(space[0]);
    var cands := [Trim(space), "", "", DefaultName];
    FirstNonEmptyAt(cands, 3);
  }

  /** `email.split("@")[0]` : everything before the first `@`. */
  function BeforeAt(s: string): (r: string)
    ensures '@' !in r && StartsWith(s, r)
    ensures |r| < |s| ==> s[|r|] == '@'
  {
    if |s| == 0 || s[0] == '@' then "" else [s[0]] + BeforeAt(s[1..])
  }

  /** The e-mail's local part, or "" (JavaScript `null`) when there is no e-mail. */
  function EmailPrefix(email: string): string
  {
    if email == "" then "" else BeforeAt(email)
  }

  /** `id.slice(-6)` : the last six characters, or all of a shorter id. */
  function Last6(id: Id): (r: string)
    ensures |r| == if |id| < 6 then |id| else 6
    ensures EndsWith(id, r)
  {
    if |id| <= 6 then id else id[|id| - 6..]
  }

  /** `user_<last 6 of id>` */
  function FallbackUsername(id: Id): string
  {
    AutoPrefix + Last6(id)
  }

  /** The raw username chain: provider, session, e-mail local part, fallback. */
  function RawUsername(id: Id, p: Option<ProviderUser>, c: SessionClaims, email: string): string
  {
    FirstNonEmpty([if p.Some? then p.value.username else "", c.username, EmailPrefix(email), FallbackUsername(id)])
  }

  /**
   * The raw username is never empty; the provider's username wins, and
   * with no username and no e-mail it is the `user_` fallback.
   */
  lemma RawUsernameSpec(id: Id, p: Option<ProviderUser>, c: SessionClaims, email: string)
    ensures RawUsername(id, p, c, email) != ""
    ensures p.Some? && p.value.username != "" ==> RawUsername(id, p, c, email) == p.value.username
    ensures (p.None? || p.value.username == "") && c.username == "" && email == "" ==>
              RawUsername(id, p, c, email) == FallbackUsername(id)
  {
    var cands := [if p.Some? then p.value.username else "", c.username, EmailPrefix(email), FallbackUsername(id)];
    assert RawUsername(id, p, c, email) == FirstNonEmpty(cands);
    assert |cands[3]| >= |AutoPrefix|;
    if p.Some? && p.value.username != "" {
      FirstNonEmptyAt(cands, 0);
    } else if c.username == "" && email == "" {
      FirstNonEmptyAt(cands, 3);
    }
  }

  /** The normalised raw username, or the (unnormalised) fallback when nothing survives. */
  function BaseUsername(id: Id, raw: string): string
  {
    match Normalize(raw)
    case Some(n) => n
    case None => FallbackUsername(id)
  }

  /** The base is the fallback exactly when the raw name has no ASCII letter or digit, and canonical otherwise. */
  lemma {:induction false} BaseUsernameSpec(id: Id, raw: string)
    ensures (forall i :: 0 <= i < |raw| ==> !IsAlnum(raw[i])) ==> BaseUsername(id, raw) == FallbackUsername(id)
    ensures (exists i :: 0 <= i < |raw| && IsAlnum(raw[i])) ==>
              Canonical(BaseUsername(id, raw)) && Strip(BaseUsername(id, raw)) == Kept(raw)
  {
  }

  /** The k-th name tried by the collision loop: the base, then base1, base2, ... */
  function Candidate(base: string, k: nat): string
  {
    if k == 0 then base else base + NatToString(k)
  }

  /** The collision loop never tries the same name twice. */
  lemma {:induction false} CandidatesDistinct(base: string, j: nat, k: nat)
    requires Candidate(base, j) == Candidate(base, k)
    ensures j == k
  {
    if j != 0 && k != 0 {
      assert Candidate(base, j)[|base|..] == NatToString(j);
      assert Candidate(base, k)[|base|..] == NatToString(k);
      NatToStringInjective(j, k);
    }
  }

  /** The first `n` names the loop tries. */
  function Candidates(base: string, n: nat): set<string>
  {
    set j | 0 <= j < n :: Candidate(base, j)
  }

  lemma {:induction false} CandidatesCard(base: string, n: nat)
    ensures |Candidates(base, n)| == n
  {
    if n > 0 {
      CandidatesCard(base, n - 1);
      assert Candidates(base, n) == Candidates(base, n - 1) + {Candidate(base, n - 1)};
      if Candidate(base, n - 1) in Candidates(base, n - 1) {
        var j :| 0 <= j < n - 1 && Candidate(base, j) == Candidate(base, n - 1);
        CandidatesDistinct(base, j, n - 1);
      }
    }
  }

  /** Pigeonhole: if the first `n` names are all taken, at least `n` names are taken. */
  lemma {:induction false} TakenBound(held: set<string>, base: string, n: nat)
    requires forall j :: 0 <= j < n ==> Candidate(base, j) in held
    ensures n <= |held|
  {
    CandidatesCard(base, n);
    var c := Candidates(base, n);
    assert c <= held;
    assert held == c + (held - c);
  }

  /** `name` is what the collision loop returns: the first candidate not in `held`. */
  ghost predicate IsFirstFree(held: set<string>, base: string, name: string)
  {
    exists k: nat :: name == Candidate(base, k) && name !in held &&
                     forall j :: 0 <= j < k ==> Candidate(base, j) in held
  }

  /** There is only one first free name, and its suffix is at most the number of taken names. */
  lemma {:induction false} FirstFreeUnique(held: set<string>, base: string, n1: string, n2: string)
    requires IsFirstFree(held, base, n1) && IsFirstFree(held, base, n2)
    ensures n1 == n2
    ensures exists k: nat :: k <= |held| && n1 == Candidate(base, k)
  {
    var k1: nat :| n1 == Candidate(base, k1) && n1 !in held && forall j :: 0 <= j < k1 ==> Candidate(base, j) in held;
    var k2: nat :| n2 == Candidate(base, k2) && n2 !in held && forall j :: 0 <= j < k2 ==> Candidate(base, j) in held;
    TakenBound(held, base, k1);
    assert k1 <= |held| && n1 == Candidate(base, k1);
  }

  /** The collision example: with `jane_doe` taken, the loop yields `jane_doe1`. */
  lemma CollisionExample()
    ensures IsFirstFree({"jane_doe"}, "jane_doe", "jane_doe1")
  {
    assert NatToString(1) == "1";
    assert Candidate("jane_doe", 1) == "jane_doe1";
    assert forall j :: 0 <= j < 1 ==> Candidate("jane_doe", j) in {"jane_doe"};
  }

  /** `!user.username || /^user_[a-z0-9]+$/i.test(user.username)` */
  predicate ShouldUpdateUsername(name: string)
  {
    name == "" || IsAutoUsername(name)
  }

  /** `!p || p.trim() === ""` */
  predicate IsBlank(p: string)
  {
    Trim(p) == ""
  }

  function ImageUrl(p: Option<ProviderUser>): string
  {
    if p.Some? then p.value.imageUrl else ""
  }

  /** The record hydration stores: a new record, or the existing one refreshed. */
  function HydratedRecord(existing: Option<User>, email: string, fullName: string, username: string,
                          imageUrl: string): User
  {
    match existing
    case None =>
      User(username, FirstNonEmpty([email, username + PlaceholderDomain]), fullName, imageUrl,
           "", "", "", [], [], [])
    case Some(u) =>
      u.(email := FirstNonEmpty([email, u.email]),
         fullName := FirstNonEmpty([fullName, u.fullName]),
         username := if ShouldUpdateUsername(u.username) then username else u.username,
         profilePicture := if IsBlank(u.profilePicture) && imageUrl != "" then imageUrl else u.profilePicture)
  }

  /**
   * A created record carries the resolved username, the e-mail or the
   * placeholder `<username>@example.local`, the name and the provider's
   * image, and no relationships.
   */
  lemma HydrateNew(email: string, fullName: string, username: string, imageUrl: string)
    ensures var r := HydratedRecord(None, email, fullName, username, imageUrl);
      && r.username == username
      && r.email == (if email != "" then email else username + PlaceholderDomain)
      && r.fullName == fullName && r.profilePicture == imageUrl
      && r.followers == [] && r.following == [] && r.connections == []
  {
    FirstOfTwo(email, username + PlaceholderDomain);
  }

  /**
   * Refreshing an existing record replaces the username only when it is
   * empty or auto-generated, sets the picture only when it is blank and
   * the provider has an image, prefers the fresh e-mail and name, and keeps
   * every other field.
   */
  lemma HydrateExisting(u: User, email: string, fullName: string, username: string, imageUrl: string)
    ensures var r := HydratedRecord(Some(u), email, fullName, username, imageUrl);
      && (r.username == if ShouldUpdateUsername(u.username) then username else u.username)
      && (r.profilePicture != u.profilePicture ==> IsBlank(u.profilePicture) && imageUrl != "" && r.profilePicture == imageUrl)
      && (IsBlank(u.profilePicture) && imageUrl != "" ==> r.profilePicture == imageUrl)
      && r.email == (if email != "" then email else u.email)
      && r.fullName == (if fullName != "" then fullName else u.fullName)
      && r.followers == u.followers && r.following == u.following && r.connections == u.connections
      && r.bio == u.bio && r.location == u.location && r.coverPhoto == u.coverPhoto
  {
    FirstOfTwo(email, u.email);
    FirstOfTwo(fullName, u.fullName);
  }

  /** Hydrating a hydrated record again with the same claims changes nothing. */
  lemma {:induction false} HydrateIdempotent(existing: Option<User>, email: string, fullName: string,
                                             username: string, imageUrl: string)
    requires fullName != ""
    ensures var r := HydratedRecord(existing, email, fullName, username, imageUrl);
      HydratedRecord(Some(r), email, fullName, username, imageUrl) == r
  {
    var r := HydratedRecord(existing, email, fullName, username, imageUrl);
    FirstOfTwo(email, r.email);
    FirstOfTwo(fullName, r.fullName);
    match existing {
      case None =>
        FirstOfTwo(email, username + PlaceholderDomain);
      case Some(u) =>
        FirstOfTwo(email, u.email);
        FirstOfTwo(fullName, u.fullName);
    }
  }

  /** Storing a record under `id` does not change the names held by others. */
  lemma OtherNamesAfterStore(users: map<Id, User>, id: Id, u: User)
    ensures OtherNames(users[id := u], id) == OtherNames(users, id)
  {
    var a, b := OtherNames(users[id := u], id), OtherNames(users, id);
    forall n | n in a ensures n in b {
      var k :| k in users[id := u] && k != id && users[id := u][k].username == n;
      assert users[k].username == n;
    }
    forall n | n in b ensures n in a {
      var k :| k in users && k != id && users[k].username == n;
      assert users[id := u][k].username == n;
    }
  }

  /** The base username hydration starts the collision loop from. */
  function HydrationBase(id: Id, p: Option<ProviderUser>, c: SessionClaims): string
  {
    BaseUsername(id, RawUsername(id, p, c, PrimaryEmail(p, c)))
  }

  /** The record hydration stores once the collision loop has settled on `username`. */
  function Hydrate(existing: Option<User>, p: Option<ProviderUser>, c: SessionClaims, username: string): User
  {
    HydratedRecord(existing, PrimaryEmail(p, c), FullName(p, c), username, ImageUrl(p))
  }

  /**
   * Hydrating one identity with a name nobody else holds keeps usernames
   * unique: the stored name is either that name or the identity's own.
   */
  lemma HydratePreservesUnique(users: map<Id, User>, id: Id, p: Option<ProviderUser>, c: SessionClaims,
                               username: string)
    requires UniqueUsernames(users)
    requires username !in OtherNames(users, id)
    ensures UniqueUsernames(users[id := Hydrate(Lookup(users, id), p, c, username)])
  {
    var r := Hydrate(Lookup(users, id), p, c, username);
    if id in users {
      assert users[id].username !in OtherNames(users, id);
    }
    StorePreservesUnique(users, id, r);
  }

  /**
   * Hydration with a real e-mail and name and a resolved name of custom
   * shape leaves a record that no longer looks provisional, so the next
   * login does not hydrate again.
   */
  lemma HydrateSettles(existing: Option<User>, p: Option<ProviderUser>, c: SessionClaims, name: string)
    requires PrimaryEmail(p, c) != "" && !EndsWith(PrimaryEmail(p, c), PlaceholderDomain)
    requires FullName(p, c) != DefaultName
    requires !IsAutoUsername(name)
    ensures !ShouldHydrate(Some(Hydrate(existing, p, c, name)))
  {
    match existing {
      case None =>
        HydrateNew(PrimaryEmail(p, c), FullName(p, c), name, ImageUrl(p));
      case Some(u) =>
        HydrateExisting(u, PrimaryEmail(p, c), FullName(p, c), name, ImageUrl(p));
    }
  }

  /**
   * A second hydration with the same inputs changes nothing: the names
   * held by the other identities are the same, so the collision loop picks
   * the same name, and the record is refreshed to itself.
   */
  lemma {:induction false} HydrateTwiceNoop(users: map<Id, User>, id: Id, p: Option<ProviderUser>, c: SessionClaims,
                                            n1: string, n2: string)
    requires IsFirstFree(OtherNames(users, id), HydrationBase(id, p, c), n1)
    requires IsFirstFree(OtherNames(users[id := Hydrate(Lookup(users, id), p, c, n1)], id), HydrationBase(id, p, c), n2)
    ensures var u1 := users[id := Hydrate(Lookup(users, id), p, c, n1)];
      u1[id := Hydrate(Lookup(u1, id), p, c, n2)] == u1
  {
    var r := Hydrate(Lookup(users, id), p, c, n1);
    SameFirstFree(users, id, r, HydrationBase(id, p, c), n1, n2);
    HydrateFixpoint(Lookup(users, id), p, c, n1);
    assert Lookup(users[id := r], id) == Some(r);
  }

  /** Storing an identity's own record does not move its first free name. */
  lemma SameFirstFree(users: map<Id, User>, id: Id, r: User, base: string, n1: string, n2: string)
    requires IsFirstFree(OtherNames(users, id), base, n1)
    requires IsFirstFree(OtherNames(users[id := r], id), base, n2)
    ensures n1 == n2
  {
    OtherNamesAfterStore(users, id, r);
    FirstFreeUnique(OtherNames(users, id), base, n1, n2);
  }

  /** Refreshing a hydrated record with the same inputs and name gives it back. */
  lemma HydrateFixpoint(existing: Option<User>, p: Option<ProviderUser>, c: SessionClaims, name: string)
    ensures Hydrate(Some(Hydrate(existing, p, c, name)), p, c, name) == Hydrate(existing, p, c, name)
  {
    HydrateIdempotent(existing, PrimaryEmail(p, c), FullName(p, c), name, ImageUrl(p));
  }
}
