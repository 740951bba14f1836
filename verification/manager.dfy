/**
 * database/manager.js: the JSON file holding the whole dataset, and the two
 * user lookups built on it.
 */
module Manager {
  import opened Collections
  import opened Model

  /** The store: one whole dataset, read and written as a unit. */
  datatype Store = Store(contents: Dataset)

  /** `read()`: the dataset last written. */
  function Read(s: Store): Dataset {
    s.contents
  }

  /** `update(data)`: the file is replaced, so what was there before does not
      survive in any part. */
  function Update(s: Store, d: Dataset): (r: Store)
    ensures Read(r) == d
  {
    Store(d)
  }

  /** `getUser(username)` over `read().users`: the first user with that name. */
  function GetUser(users: seq<User>, username: string): (r: Option<User>)
    ensures r.None? <==> forall i :: 0 <= i < |users| ==> users[i].username != username
    ensures r.Some? ==> exists i :: 0 <= i < |users| && users[i] == r.value
                          && users[i].username == username
                          && forall j :: 0 <= j < i ==> users[j].username != username
  {
    match FindUser(users, username)
    case None => None
    case Some(i) => Some(users[i])
  }

  /** The result of `getUserSpotifyToken`: `false` when no user matches,
      otherwise the user's token field, which may be undefined. */
  datatype TokenLookup = NoSuchUser | TokenOf(token: Option<string>)

  /** `getUserSpotifyToken(username)` over `read().users`. */
  function GetUserSpotifyToken(users: seq<User>, username: string): (r: TokenLookup)
    ensures r.NoSuchUser? <==> GetUser(users, username).None?
    ensures r.TokenOf? ==> r.token == GetUser(users, username).value.spotifyToken
  {
    match FindUser(users, username)
    case None => NoSuchUser
    case Some(i) => TokenOf(users[i].spotifyToken)
  }
}
