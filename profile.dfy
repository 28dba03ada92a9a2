/**
 * Profile update: the username rule (empty keeps the old name, a name
 * held by someone else is silently reverted) and the copied fields.
 */
module Profile {
  import opened Wrappers
  import opened Records

  /**
   * The request body. A missing username is ""; a missing bio, location
   * or name is `None`, which the update leaves as it is.
   */
  datatype ProfileEdit = ProfileEdit(
    username: string,
    bio: Option<string>,
    location: Option<string>,
    fullName: Option<string>)

  /** `User.findOne({ username })` finds someone. */
  predicate NameTaken(users: map<Id, User>, name: string)
  {
    exists k :: k in users && users[k].username == name
  }

  /** The username the update stores. */
  function ChosenUsername(users: map<Id, User>, id: Id, requested: string): string
    requires id in users
  {
    var current := users[id].username;
    var wanted := if requested == "" then current else requested;
    if current != wanted && NameTaken(users, wanted) then current else wanted
  }

  /**
   * The requested name is stored when it is non-empty and is either the
   * current name or held by nobody else; in every other case the current
   * name stays.
   */
  lemma ChosenUsernameSpec(users: map<Id, User>, id: Id, requested: string)
    requires id in users
    ensures ChosenUsername(users, id, requested) ==
      if requested != "" && (requested == users[id].username || requested !in OtherNames(users, id))
      then requested else users[id].username
  {
  }

  function Pick(v: Option<string>, current: string): string
  {
    if v.Some? then v.value else current
  }

  /** The record `findByIdAndUpdate` stores; uploaded pictures arrive as URLs. */
  function UpdatedRecord(users: map<Id, User>, id: Id, edit: ProfileEdit,
                         picture: Option<string>, cover: Option<string>): User
    requires id in users
  {
    var u := users[id];
    u.(username := ChosenUsername(users, id, edit.username),
       bio := Pick(edit.bio, u.bio),
       location := Pick(edit.location, u.location),
       fullName := Pick(edit.fullName, u.fullName),
       profilePicture := Pick(picture, u.profilePicture),
       coverPhoto := Pick(cover, u.coverPhoto))
  }

  /**
   * The update copies the given fields, keeps the ones not given, never
   * touches e-mail or relationships, and keeps usernames unique.
   */
  lemma UpdateSpec(users: map<Id, User>, id: Id, edit: ProfileEdit,
                   picture: Option<string>, cover: Option<string>)
    requires id in users
    ensures var r := UpdatedRecord(users, id, edit, picture, cover);
      && (edit.bio.Some? ==> r.bio == edit.bio.value) && (edit.bio.None? ==> r.bio == users[id].bio)
      && (edit.location.Some? ==> r.location == edit.location.value)
      && (edit.location.None? ==> r.location == users[id].location)
      && (edit.fullName.Some? ==> r.fullName == edit.fullName.value)
      && (edit.fullName.None? ==> r.fullName == users[id].fullName)
      && (picture.Some? ==> r.profilePicture == picture.value)
      && (picture.None? ==> r.profilePicture == users[id].profilePicture)
      && (cover.Some? ==> r.coverPhoto == cover.value)
      && (cover.None? ==> r.coverPhoto == users[id].coverPhoto)
      && r.email == users[id].email
      && r.followers == users[id].followers && r.following == users[id].following
      && r.connections == users[id].connections
  {
  }

  /** Storing the updated record keeps usernames unique. */
  lemma UpdatePreservesUnique(users: map<Id, User>, id: Id, edit: ProfileEdit,
                              picture: Option<string>, cover: Option<string>)
    requires id in users && UniqueUsernames(users)
    ensures UniqueUsernames(users[id := UpdatedRecord(users, id, edit, picture, cover)])
  {
    ChosenUsernameSpec(users, id, edit.username);
    var r := UpdatedRecord(users, id, edit, picture, cover);
    assert users[id].username !in OtherNames(users, id);
    StorePreservesUnique(users, id, r);
  }
}
