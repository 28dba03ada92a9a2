# pingup social graph: a Dafny model of the user controller

This project models the social-graph core of the pingup backend, the
handlers of `server/controllers/userController.js`:

- username normalisation;
- identity hydration on login: the provisional-record test, the e-mail,
  name and username fallback chains, the username collision loop, and the
  create-or-update rules;
- the directed follow graph (follow and unfollow);
- the connection-request state machine: a 24-hour rate limit,
  deduplication in either direction, creation, and acceptance that fills
  `connections` on both sides;
- the profile update's username rule;
- the read queries: search without the caller, the relationship view with
  pending incoming requests, and profile lookup.

The store is one mutable object, `SocialStore.Store`. It holds the user
collection (a map from the identity provider's subject id to a record) and
the connection collection (a sequence of requests, in insertion order).
Each handler is a method of the store that takes the controller's steps in
the controller's order. Its `ensures` ties the new state to a pure function
of the old state in the modules `Hydration`, `Graph`,
`ConnectionRequests`, `Profile` and `Queries`, and the lemmas beside those
functions state what the handlers promise. Every handler keeps the store
invariant `Valid()`: usernames are unique, and each unordered pair of users
has at most one request.

Modules:

| file | module | contents |
|---|---|---|
| wrappers.dfy | Wrappers | `Option`, `Result`, map lookup |
| text.dfy | Text | ASCII character classes and lower-casing, JavaScript `trim`, `a \|\| b` over strings, decimal digits, case-insensitive substring search |
| username.dfy | Username | `normalizeUsername` and its proofs |
| records.dfy | Records | user records, requests, username uniqueness |
| hydration.dfy | Hydration | the pure parts of `getUserData` |
| graph.dfy | Graph | `followUser`, `unfollowUser` |
| requests.dfy | ConnectionRequests | `sendConnectionRequest`, `acceptConnectionRequest` |
| profile.dfy | Profile | the `updateUserData` field rules |
| queries.dfy | Queries | `discoverUsers`, `getUserConnections`, `getUserProfiles` |
| store.dfy | SocialStore | the store class and its handler methods |

Conventions:

- A JavaScript value that the code tests only for truthiness (`null`,
  `undefined`, `""`) is the empty string.
- The fields of a profile edit that the update leaves as they are when
  absent are `Option`s.
- Timestamps are integers in milliseconds. The current time is a
  parameter.
- The identity provider's user record is an input, `None` when the fetch
  fails.
- The event bus is a ghost log of the indices of the created requests.

Behaviour of the code that a reader may not expect; the model follows the
code:

- A send that finds a pending request in either direction answers
  `success: false` (`PendingExists` is not `IsSuccess()`).
- The rate limit is checked before deduplication, so a duplicate send at
  the limit is `RateLimited`.
- Acceptance does not look at the request's status. Accepting again
  appends the ids again (`AcceptRepeats`).
- Follow, unfollow and accept save the first user before loading the
  second. When the second user is missing, the first write stays
  (`FollowHalfApplied`, `UnfollowHalfApplied`, `AcceptHalfApplied`).
- Because of that, accepting a request whose sender has no record yet,
  followed by that sender's first sign-in, leaves `connections` asymmetric
  (`LateSignupBreaksSymmetry`).
- Hydration sets the profile picture when the stored one is empty *or
  only whitespace*, and only when the provider has an image.

## Model

| member | source | states |
|---|---|---|
| Username.Normalize | server/controllers/userController.js:9-16 | the result is "no username" exactly when the input has no ASCII letter or digit; otherwise it has only `[a-z0-9_]`, no `__`, no `_` at either end, and its non-separator characters are the input's letters and digits, lower-cased, in order |
| Username.NormalizeSeparated | server/controllers/userController.js:9-16 | a character that is not an ASCII letter or digit, between two parts that each normalise to a name, becomes exactly one `_` between the two names |
| Username.NormalizeSeparatorExample | server/controllers/userController.js:9-16 | `"a b"` normalises to `"a_b"` |
| Username.TidySeparated | server/controllers/userController.js:13-14 | collapsing and trimming a `_` between two parts that each hold a non-separator gives the two tidied parts joined by one `_` |
| Username.CollapseAllSep | server/controllers/userController.js:13 | a run of `_` collapses to one `_`, and the empty run to nothing |
| Username.TrimLeadingAppend | server/controllers/userController.js:14 | the `^_+` trim stops inside a prefix that holds a non-separator |
| Username.TrimTrailingAppend | server/controllers/userController.js:14 | the `_+$` trim stops inside a suffix that holds a non-separator |
| Username.NormalizeAlnum | server/controllers/userController.js:9-16 | a non-empty word of ASCII letters and digits normalises to itself, lower-cased, with no `_` added |
| Username.NormalizeCapitalsExample | server/controllers/userController.js:11 | `"Jane"` normalises to `"jane"` |
| Username.NormalizeDropsEdge | server/controllers/userController.js:12-14 | a character other than an ASCII letter or digit at the start or at the end of an input that normalises to a name leaves the name unchanged |
| Username.NormalizeIdempotent | server/controllers/userController.js:9-16 | normalising a normalised name returns it unchanged |
| Username.CanonicalIsFixpoint | server/controllers/userController.js:9-16 | every string of the normalised shape is its own normalisation |
| Username.NormalizeExample | server/controllers/userController.js:9-16 | `"  Jane DOE!! "` normalises to `"jane_doe"` |
| Username.CollapseSpec | server/controllers/userController.js:13 | collapsing runs of `_` leaves no `__`, keeps the first character and the non-separator characters, uses only input characters, and leaves a string without `__` unchanged |
| Username.CollapseShape | server/controllers/userController.js:13 | the collapsed string keeps the first character, takes every character from the input, and has no `__` |
| Username.CollapseKeepsStrip | server/controllers/userController.js:13 | collapsing keeps the non-separator characters in order |
| Username.CollapseIdentity | server/controllers/userController.js:13 | a string without `__` is left unchanged |
| Username.TrimLeadingSpec | server/controllers/userController.js:14 | trimming leading `_` yields a suffix that does not start with `_` and keeps every non-separator |
| Username.TrimTrailingSpec | server/controllers/userController.js:14 | trimming trailing `_` yields a prefix that does not end with `_` and keeps every non-separator |
| Username.CollapseAppend | server/controllers/userController.js:13 | collapsing distributes over a concatenation whose seam is not `__` |
| Text.TrimEmptyIff | server/controllers/userController.js:52 | a trimmed string is empty exactly when it is all JavaScript whitespace |
| Text.FirstNonEmpty | server/controllers/userController.js:41-55 | an `a \|\| b \|\| …` chain over strings is empty exactly when every operand is, and otherwise is the first non-empty operand |
| Text.FirstNonEmptyAt | server/controllers/userController.js:41-55 | the chain yields the operand at the first non-empty position |
| Text.NatToString | server/controllers/userController.js:69 | a count prints as a non-empty run of decimal digits whose decimal value is the count, with no leading zero, one digit exactly below ten |
| Text.NatToStringInjective | server/controllers/userController.js:69 | different counts print differently |
| Hydration.IsAutoUsername | server/controllers/userController.js:31 | the test `/^user_[a-z0-9]+$/i`: the prefix `user_` in any case followed by at least one ASCII letter or digit and nothing else; see `AutoUsernameExamples` |
| Hydration.AutoUsernameExamples | server/controllers/userController.js:31 | `user_a1` and `USER_A1` are auto-generated names; `user_`, `user_a_` and `jane` are not |
| Hydration.LooksProvisional | server/controllers/userController.js:27-31 | a record is provisional when its e-mail is empty or a placeholder, its name is "New User", or its username is auto-generated; see `HydrateSettles` |
| Hydration.ShouldHydrate | server/controllers/userController.js:26-31 | hydrate when there is no record or the record is provisional; see `HydrateSettles` |
| Hydration.HydrateSettles | server/controllers/userController.js:26-31 | with a real e-mail, a real name and a chosen name that is not auto-generated, the hydrated record is no longer provisional, so the next sign-in does not hydrate again |
| Hydration.FindEmailSpec | server/controllers/userController.js:42-44 | the e-mail address whose id is the primary id, the first such in list order, or empty when none has it |
| Hydration.PrimaryEmail | server/controllers/userController.js:41-47 | the `\|\|` chain of the provider's primary address, its first address, the session's `email` and `email_address`; see `PrimaryEmailSpec` |
| Hydration.PrimaryEmailSpec | server/controllers/userController.js:41-47 | the provider's primary address wins; without a provider record the session's `email`, else its `email_address`; an empty result means both session claims are empty |
| Hydration.FullName | server/controllers/userController.js:49-55 | the name chain never yields an empty name |
| Hydration.FullNameDefault | server/controllers/userController.js:49-55 | with no provider record and no name claims the name is "New User" |
| Hydration.BeforeAt | server/controllers/userController.js:57 | the local part is a prefix without `@`, followed in the input by `@` when shorter than it |
| Hydration.Last6 | server/controllers/userController.js:62 | the last six characters of the id, or the whole of a shorter id |
| Hydration.RawUsername | server/controllers/userController.js:58-62 | the `\|\|` chain of the provider's username, the session's `username`, the e-mail's local part and `user_<last 6 of id>`; see `RawUsernameSpec` |
| Hydration.RawUsernameSpec | server/controllers/userController.js:58-62 | the raw username is never empty; the provider's username wins; with no username and no e-mail it is `user_<last 6 of id>` |
| Hydration.BaseUsername | server/controllers/userController.js:63-64 | the normalised raw name, or `user_<last 6 of id>` when it normalises to nothing; see `BaseUsernameSpec` |
| Hydration.BaseUsernameSpec | server/controllers/userController.js:63-64 | when the raw name has no ASCII letter or digit the base is `user_<last 6 of id>`; otherwise it is the normalised raw name |
| Hydration.CandidatesDistinct | server/controllers/userController.js:66-71 | the collision loop never tries the same name twice |
| Hydration.CandidatesCard | server/controllers/userController.js:66-71 | the first n names tried are n different names |
| Hydration.TakenBound | server/controllers/userController.js:68 | pigeonhole: if the first n names tried are all held, at least n names are held, so the loop stops |
| Hydration.FirstFreeUnique | server/controllers/userController.js:66-71 | only one name is the first free one, and its numeric suffix is at most the number of taken names |
| Hydration.CollisionExample | server/controllers/userController.js:66-71 | with `jane_doe` held by another identity, the loop yields `jane_doe1` |
| Hydration.HydrationBase | server/controllers/userController.js:57-64 | the base name of the collision loop: the raw-name chain over the resolved e-mail, normalised, with the `user_<last 6 of id>` fallback; see `RawUsernameSpec` and `BaseUsernameSpec` |
| Hydration.Hydrate | server/controllers/userController.js:73-96 | the record stored for the identity, built from the resolved e-mail, name, username and provider image; see `HydrateNew`, `HydrateExisting`, `HydrateFixpoint` and `HydrateSettles` |
| Hydration.HydratedRecord | server/controllers/userController.js:73-96 | the created or refreshed record; see `HydrateNew`, `HydrateExisting` and `HydrateIdempotent` |
| Hydration.HydrateNew | server/controllers/userController.js:73-80 | a created record has the resolved username, the e-mail or `<username>@example.local`, the resolved name, the provider's image, and no relationships |
| Hydration.HydrateExisting | server/controllers/userController.js:81-96 | a refreshed record replaces the username only when it is empty or auto-generated, sets the picture only when it is blank and the provider has one, takes the fresh e-mail and name when present, and keeps every other field |
| Hydration.HydrateIdempotent | server/controllers/userController.js:73-96 | hydrating the hydrated record again with the same inputs changes nothing |
| Hydration.HydrateFixpoint | server/controllers/userController.js:73-96 | hydrating the hydrated record again with the same provider data and name returns it unchanged |
| Hydration.SameFirstFree | server/controllers/userController.js:66-71 | after an identity's own record is stored, the collision loop finds the same first free name again |
| Hydration.HydrateTwiceNoop | server/controllers/userController.js:66-96 | a second hydration of the same identity, with the collision loop run again on the updated users, stores exactly what is already there |
| Hydration.OtherNamesAfterStore | server/controllers/userController.js:68 | storing an identity's record does not change the names held by the others |
| Hydration.HydratePreservesUnique | server/controllers/userController.js:66-96 | storing the hydrated record with a free name keeps usernames unique |
| Records.OtherNames | server/controllers/userController.js:68 | the set of usernames held by identities other than the given one |
| Records.StorePreservesUnique | server/controllers/userController.js:88 | storing a record whose name no other identity holds keeps usernames unique |
| Records.SameNamesPreserveUnique | server/controllers/userController.js:194-227 | a store with the same ids and names is still unique |
| Graph.RemoveSpec | server/controllers/userController.js:222 | filtering removes every occurrence of the id and keeps every other element with its multiplicity |
| Graph.RemoveAppend | server/controllers/userController.js:222 | filtering works element by element and keeps the order: it distributes over concatenation, and a single element stays exactly when it is not the id |
| Graph.RemoveAbsent | server/controllers/userController.js:222 | filtering out an absent id changes nothing |
| Graph.Follow | server/controllers/userController.js:194-207 | the follow handler on the user map; see `FollowRefused`, `FollowEffect`, `FollowHalfApplied` and `FollowTwiceFails` |
| Graph.FollowRefused | server/controllers/userController.js:194-200 | an unknown actor, or a target already followed, leaves the store unchanged with `AlreadyFollowing` or "not found" |
| Graph.FollowEffect | server/controllers/userController.js:202-207 | a follow replaces the actor's record by one whose `following` has the target appended, and the target's by one whose `followers` has the actor appended, every other field unchanged (both appends on one record when actor and target are the same); no other user changes |
| Graph.FollowHalfApplied | server/controllers/userController.js:202-206 | with the target missing, the actor's `following` is still extended and the outcome is "not found" |
| Graph.FollowTwiceFails | server/controllers/userController.js:195 | following the same target again is refused and changes nothing |
| Graph.Unfollow | server/controllers/userController.js:221-227 | the unfollow handler on the user map; see `UnfollowEffect`, `UnfollowAbsent` and `UnfollowIdempotent` |
| Graph.UnfollowEffect | server/controllers/userController.js:221-227 | an unfollow replaces the actor's record by one whose `following` is filtered of the target, and the target's by one whose `followers` is filtered of the actor, every other field unchanged (both filters on one record when they are the same); no other user changes |
| Graph.UnfollowHalfApplied | server/controllers/userController.js:221-226 | with the target missing, the actor's `following` is still filtered of the target and saved, and the outcome is "not found" |
| Graph.UnfollowAbsent | server/controllers/userController.js:221-227 | unfollowing with no edge in either list changes nothing |
| Graph.UnfollowIdempotent | server/controllers/userController.js:221-227 | unfollowing twice is unfollowing once |
| Graph.FollowThenUnfollow | server/controllers/userController.js:194-227 | a follow then an unfollow leaves neither id in the other's list |
| Graph.FollowKeepsNames | server/controllers/userController.js:194-207 | follow adds or removes no user and renames nobody |
| Graph.UnfollowKeepsNames | server/controllers/userController.js:221-227 | unfollow adds or removes no user and renames nobody |
| ConnectionRequests.CountRecentIsRecentIndices | server/controllers/userController.js:241-245 | the count is the number of indices of requests from the sender with `createdAt` after `now` minus 24 hours |
| ConnectionRequests.RecentIndicesAppend | server/controllers/userController.js:241-245 | appending a request adds its index to the recent ones exactly when it is a recent one from the sender |
| ConnectionRequests.CountRecentAntitone | server/controllers/userController.js:241-245 | as time passes the count never grows |
| ConnectionRequests.CountRecentExpired | server/controllers/userController.js:241-245 | once all the sender's requests are 24 hours old the count is zero, so the window has slid |
| ConnectionRequests.CountRecentAppend | server/controllers/userController.js:241-245 | appending a request adds one to the count exactly when it is a recent one from the sender |
| ConnectionRequests.FindFirst | server/controllers/userController.js:253-258 | the first request between the two users (in the chosen direction or either), or none exactly when there is no such request |
| ConnectionRequests.Send | server/controllers/userController.js:241-279 | the send handler on the request list; see `SendRateLimited`, `SendDeduplicates`, `SendCreates` and `SendGrowth` |
| ConnectionRequests.SendRateLimited | server/controllers/userController.js:241-251 | with 20 or more recent requests from the sender the send is rate-limited and nothing is added, even when a request between the two exists |
| ConnectionRequests.SendDeduplicates | server/controllers/userController.js:253-279 | below the limit, an existing request in either direction means nothing is added: "already connected" when the first one found is accepted, "pending" otherwise |
| ConnectionRequests.SendCreates | server/controllers/userController.js:260-271 | below the limit and with no request between the two, exactly one pending sender-to-receiver request at time `now` is appended |
| ConnectionRequests.SendGrowth | server/controllers/userController.js:236-284 | a send adds at most one request, and one exactly when the outcome is `Created` |
| ConnectionRequests.SendPreservesPairs | server/controllers/userController.js:253-264 | a send keeps at most one request per unordered pair |
| ConnectionRequests.SendAlreadyConnectedIff | server/controllers/userController.js:272-277 | when at most one request per pair exists (the store invariant keeps this), below the limit, "already connected" exactly when an accepted request between the two exists |
| ConnectionRequests.Accept | server/controllers/userController.js:329-343 | the accept handler on users and requests; see `AcceptNeedsExactRequest`, `AcceptEffect` and `AcceptHalfApplied` |
| ConnectionRequests.AcceptNeedsExactRequest | server/controllers/userController.js:329-332 | acceptance reports "not found" exactly when there is no request from the requester to the accepter, and then changes nothing |
| ConnectionRequests.AcceptReverseOnly | server/controllers/userController.js:329-332 | a request only in the other direction is "not found" |
| ConnectionRequests.AcceptEffect | server/controllers/userController.js:334-343 | a successful accept replaces each user's record by one whose `connections` has the other appended, every other field unchanged (both ids appended on one record when they are the same), marks the found request accepted with its other fields kept, and changes no other user and no other request |
| ConnectionRequests.AcceptHalfApplied | server/controllers/userController.js:334-340 | with the requester missing, the accepter's `connections` is still extended and the request stays as it was |
| ConnectionRequests.AcceptKeepsNames | server/controllers/userController.js:334-340 | acceptance adds or removes no user and renames nobody |
| ConnectionRequests.AcceptPreservesSymmetry | server/controllers/userController.js:334-340 | a successful accept keeps `connections` symmetric |
| ConnectionRequests.AcceptRepeats | server/controllers/userController.js:329-343 | accepting an accepted request succeeds again and appends both ids a second time |
| ConnectionRequests.AcceptPreservesPairs | server/controllers/userController.js:342 | acceptance keeps at most one request per unordered pair |
| ConnectionRequests.ConnectScenario | server/controllers/userController.js:236-343 | A sends to B, B accepts, and A's next send to B is "already connected" |
| Profile.ChosenUsername | server/controllers/userController.js:111-119 | the username rule of the update; see `ChosenUsernameSpec` |
| Profile.ChosenUsernameSpec | server/controllers/userController.js:110-119 | the requested name is kept when it is non-empty and is the current name or held by nobody else; otherwise the current name stays |
| Profile.UpdatedRecord | server/controllers/userController.js:121-159 | the record after an update; see `UpdateSpec` |
| Profile.UpdateSpec | server/controllers/userController.js:121-159 | bio, location, name and uploaded pictures given in the edit are stored, the ones not given are kept, and e-mail and relationships are untouched |
| Profile.UpdatePreservesUnique | server/controllers/userController.js:110-159 | the update keeps usernames unique |
| Queries.Matches | server/controllers/userController.js:174-179 | the search's `$or`: the text occurs, ignoring ASCII case, in the username, e-mail, full name or location; see `Discover` and `EmptyInputMatchesAll` |
| Queries.Discover | server/controllers/userController.js:172-180 | the result is exactly the matching users other than the caller |
| Queries.EmptyInputMatchesAll | server/controllers/userController.js:172-179 | an empty search text matches every user |
| Queries.ResolveSpec | server/controllers/userController.js:289 | populating an id list keeps exactly the ids that resolve to a stored user, never more entries than ids |
| Queries.ResolveAppend | server/controllers/userController.js:289 | populating works id by id and keeps order and duplicates: it distributes over concatenation |
| Queries.ResolveSingle | server/controllers/userController.js:289 | a single id stays exactly when it resolves |
| Queries.PendingSendersSpec | server/controllers/userController.js:302-309 | the senders of the pending requests addressed to the user, exactly those that resolve, never more entries than requests |
| Queries.PendingSendersAppend | server/controllers/userController.js:302-309 | the list is built request by request in stored order: it distributes over concatenation |
| Queries.PendingSendersSingle | server/controllers/userController.js:302-309 | one request contributes its sender exactly when it is pending, addressed to the user, and the sender resolves |
| Queries.Connections | server/controllers/userController.js:289-317 | "not found" exactly for a missing user; otherwise the connections, followers and following each populated in stored order (`Resolve`, so `ResolveAppend` applies), holding exactly the ids that resolve, and the pending senders |
| Queries.GetProfile | server/controllers/userController.js:354-358 | "profile not found" exactly when no record has the id; otherwise that record |
| SocialStore.LateSignupBreaksSymmetry | server/controllers/userController.js:73-80 | accepting a request from a sender with no record, then hydrating that sender, leaves the accepter connected to the sender but not the sender to the accepter |
| SocialStore.Store.constructor | server/controllers/userController.js:1-7 | an empty store satisfies the invariant |
| SocialStore.Store.ResolveUsername | server/controllers/userController.js:66-71 | the loop returns the first of `base`, `base1`, `base2`, … that no other identity holds; it is `base` exactly when `base` is free |
| SocialStore.Store.GetUserData | server/controllers/userController.js:18-100 | an unauthenticated caller is refused; a stored record that is not provisional is returned unchanged; otherwise only the caller's record is replaced, by the hydrated record with the first free name; the invariant is kept |
| SocialStore.Store.UpdateUserData | server/controllers/userController.js:107-163 | a missing user changes nothing; otherwise only that user's record is replaced by the updated record; the invariant is kept |
| SocialStore.Store.FollowUser | server/controllers/userController.js:189-214 | the outcome and the new users are those of `Graph.Follow` on the old users; requests are untouched; the invariant is kept |
| SocialStore.Store.UnfollowUser | server/controllers/userController.js:216-234 | the outcome and the new users are those of `Graph.Unfollow`; requests are untouched; the invariant is kept |
| SocialStore.Store.SendConnectionRequest | server/controllers/userController.js:236-284 | the outcome and the new requests are those of `ConnectionRequests.Send`; users are untouched; one event is logged exactly when a request is created; the invariant is kept |
| SocialStore.Store.AcceptConnectionRequest | server/controllers/userController.js:324-350 | the outcome, users and requests are those of `ConnectionRequests.Accept`; the invariant is kept |
| SocialStore.Store.DiscoverUsers | server/controllers/userController.js:167-187 | exactly the matching users other than the caller |
| SocialStore.Store.GetUserConnections | server/controllers/userController.js:286-322 | "not found" exactly for a missing user; otherwise the three relationship lists populated in stored order, holding exactly the ids that resolve, and the pending senders |
| SocialStore.Store.GetUserProfiles | server/controllers/userController.js:352-358 | the stored profile, "not found" exactly when it is missing |

## Left out

- Uploading pictures to the media service and reading the uploaded files
  (userController.js:128-157): an uploaded picture arrives as an optional
  URL string.
- The identity provider's user fetch (userController.js:35-39): it is an
  input, `None` when the fetch fails.
- The event bus call (userController.js:266): it is a ghost log of request
  indices and has no effect on the state.
- Database query, populate and save mechanics, and the clock: the stores
  are in-memory collections, and the time is a parameter.
- Full regular-expression semantics of the search
  (userController.js:174-177): the search text is a literal,
  ASCII-case-insensitive substring. A text with regular-expression
  metacharacters, or an invalid pattern, behaves differently in the
  source.
- Concurrency: each handler is one sequential step. The races between the
  checks and the writes are not modelled.
- Text.ToLower: only ASCII capitals are lowered. JavaScript's
  `toLowerCase` also lowers non-ASCII letters, which the next step then
  turns into `_` either way, except for letters whose lower-case form is or
  contains ASCII. The Kelvin sign lowers to `k`, and U+0130 (capital I
  with dot above) lowers to `i` followed by U+0307, whose `i` the source
  keeps; the model turns both characters into `_`.
- Database defaults of the user schema: `server/models/User.js` is not
  part of this model, so the fields a created record does not set are
  empty strings and empty lists.
- Database defaults of the connection schema: the model assumes a created
  request has status pending and `createdAt` equal to the time of
  creation. `server/models/Connection.js` is not part of this model.
- Handlers other than `getUserData` are given the caller's id. Their
  behaviour for an unauthenticated caller (a null id) is not modelled.
- The posts that `getUserProfiles` returns beside the profile
  (userController.js:359): posts are not part of this model.
- The search result is a set of ids. The order of the results is not
  modelled.
- Populated relationships and senders are ids of stored users, not the
  user documents themselves.
- Failures of the database itself, and the generic error replies they
  produce, are not modelled. The "not found" outcomes model the errors the
  code raises on a missing record.
