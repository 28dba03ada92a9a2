/** The stored entities: user identities and connection requests. */
module Records {

  /** Identity ids are the provider's subject ids, which are strings. */
  type Id = string

  /**
   * A user identity. A field the source leaves unset is the empty string
   * here: the code only ever tests such fields for truthiness.
   */
  datatype User = User(
    username: string,
    email: string,
    fullName: string,
    profilePicture: string,
    coverPhoto: string,
    bio: string,
    location: string,
    followers: seq<Id>,
    following: seq<Id>,
    connections: seq<Id>)

  datatype Status = Pending | Accepted

  /** A connection request; `createdAt` is a timestamp in milliseconds. */
  datatype Request = Request(from: Id, to: Id, status: Status, createdAt: int)

  /** The usernames held by identities other than `id`. */
  function OtherNames(users: map<Id, User>, id: Id): (r: set<string>)
    ensures forall k :: k in users && k != id ==> users[k].username in r
    ensures forall n :: n in r ==> exists k :: k in users && k != id && users[k].username == n
  {
    set k | k in users && k != id :: users[k].username
  }

  /** No two identities share a username. */
  ghost predicate UniqueUsernames(users: map<Id, User>)
  {
    forall a, b :: a in users && b in users && a != b ==> users[a].username != users[b].username
  }

  /** Storing a record under `id` keeps usernames unique when its name is not held by anyone else. */
  lemma StorePreservesUnique(users: map<Id, User>, id: Id, u: User)
    requires UniqueUsernames(users)
    requires u.username !in OtherNames(users, id)
    ensures UniqueUsernames(users[id := u])
  {
  }

  /** Two stores with the same ids and the same usernames. */
  ghost predicate SameNames(users: map<Id, User>, users': map<Id, User>)
  {
    users.Keys == users'.Keys && forall k :: k in users ==> users'[k].username == users[k].username
  }

  lemma SameNamesPreserveUnique(users: map<Id, User>, users': map<Id, User>)
    requires UniqueUsernames(users) && SameNames(users, users')
    ensures UniqueUsernames(users')
  {
  }
}
