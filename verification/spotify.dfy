/**
 * The local logic of controllers/spotifyAPI.js: storing a user's Spotify
 * token, and the fan-out of `syncCurrentTrack`, which pushes the caller's
 * current playback to every member of the caller's group. Spotify's answers
 * are inputs: the caller's playback as read, and whether each PUT succeeds.
 */
module SpotifyApi {
  import opened Collections
  import opened Model
  import opened Manager

  /** `_storeSpotifyToken(username, token)`: the dataset written, or `None`
      when no user has that name and nothing is written. */
  function StoreSpotifyToken(d: Dataset, username: string, token: string): (r: Option<Dataset>)
    ensures r.None? <==> forall i :: 0 <= i < |d.users| ==> d.users[i].username != username
    ensures r.Some? ==>
      && r.value.groups == d.groups
      && |r.value.users| == |d.users|
      && exists i :: 0 <= i < |d.users| && d.users[i].username == username
           && (forall j :: 0 <= j < i ==> d.users[j].username != username)
           && r.value.users[i] == d.users[i].(spotifyToken := Some(token))
           && forall j :: 0 <= j < |d.users| && j != i ==> r.value.users[j] == d.users[j]
  {
    match FindUser(d.users, username)
    case None => None
    case Some(i) => Some(d.(users := d.users[i := d.users[i].(spotifyToken := Some(token))]))
  }

  /** Storing a token and then looking it up returns that token. */
  lemma StoredTokenIsLookedUp(d: Dataset, username: string, token: string)
    requires exists i :: 0 <= i < |d.users| && d.users[i].username == username
    ensures StoreSpotifyToken(d, username, token).Some?
    ensures GetUserSpotifyToken(StoreSpotifyToken(d, username, token).value.users, username)
            == TokenOf(Some(token))
  {
    var i := FindUser(d.users, username).value;
    var users := StoreSpotifyToken(d, username, token).value.users;
    assert users[i].username == username;
    var k := FindUser(users, username).value;
    assert forall j :: 0 <= j < i ==> users[j] == d.users[j];
  }

  /** Storing a token keeps usernames unique: no username changes. */
  lemma StoreKeepsUsernames(d: Dataset, username: string, token: string)
    requires exists i :: 0 <= i < |d.users| && d.users[i].username == username
    ensures StoreSpotifyToken(d, username, token).Some?
    ensures var users := StoreSpotifyToken(d, username, token).value.users;
      forall i :: 0 <= i < |users| ==> users[i].username == d.users[i].username
    ensures UniqueUsernames(d.users) ==> UniqueUsernames(StoreSpotifyToken(d, username, token).value.users)
  {
    var users := StoreSpotifyToken(d, username, token).value.users;
    assert forall i :: 0 <= i < |users| ==> users[i].username == d.users[i].username;
    if UniqueUsernames(d.users) {
      forall a, b | 0 <= a < b < |users| ensures UsernamesDiffer(users[a], users[b]) {
        assert UsernamesDiffer(d.users[a], d.users[b]);
      }
    }
  }

  /** The caller's playback as `GET /me/player/currently-playing` reports it:
      `context.uri` and `progress_ms`. */
  datatype Playback = Playback(contextUri: string, progressMs: int)

  /** One `PUT /me/player/play` request. A `token` of `None` is sent as the
      header "Bearer undefined". */
  datatype PlayCommand = PlayCommand(token: Option<string>, contextUri: string, positionMs: int)

  /** What `_callSpotifyAPI` resolves to: the member's user record and whether
      the PUT succeeded. A failed PUT is caught and reported as `success`
      false, never rethrown, so every member's call yields a result. */
  datatype CallResult = CallResult(user: User, success: bool)

  datatype SyncStatus =
    | PlaybackUnavailable               // 500: reading the caller's playback failed
    | NotInGroup                        // 400: the caller belongs to no group
    | SyncFailed                        // 500: a member has no user record
    | Synced(results: seq<CallResult>)  // 200: one result per member

  /** The response of `syncCurrentTrack` and the PUT requests it sent. */
  datatype SyncOutcome = SyncOutcome(status: SyncStatus, issued: seq<PlayCommand>)

  /** `syncCurrentTrack` for `caller`. `current` is the caller's playback
      (`None` when the GET fails or reports no context); `putSucceeds(i)` is
      whether the PUT for the i-th member succeeds. */
  method SyncCurrentTrack(d: Dataset, caller: string, current: Option<Playback>, putSucceeds: nat -> bool)
    returns (r: SyncOutcome)
    ensures current.None? ==> r == SyncOutcome(PlaybackUnavailable, [])
    ensures current.Some? && FindGroupOf(d.groups, caller).None? ==> r == SyncOutcome(NotInGroup, [])
    ensures current.Some? && FindGroupOf(d.groups, caller).Some? ==>
      var members := d.groups[FindGroupOf(d.groups, caller).value].members;
      var play := current.value;
      && (r.status.Synced? <==> forall i :: 0 <= i < |members| ==> GetUser(d.users, members[i]).Some?)
      && (r.status.Synced? ==>
            && |r.status.results| == |members|
            && |r.issued| == |members|
            && forall i :: 0 <= i < |members| ==>
                 && GetUser(d.users, members[i]) == Some(r.status.results[i].user)
                 && r.status.results[i].success == putSucceeds(i)
                 && r.issued[i] == PlayCommand(r.status.results[i].user.spotifyToken, play.contextUri, play.progressMs))
      && (!r.status.Synced? ==>
            && r.status.SyncFailed?
            && |r.issued| < |members|
            && GetUser(d.users, members[|r.issued|]).None?
            && forall i :: 0 <= i < |r.issued| ==>
                 && GetUser(d.users, members[i]).Some?
                 && r.issued[i] == PlayCommand(GetUser(d.users, members[i]).value.spotifyToken, play.contextUri, play.progressMs))
  {
    if current.None? {
      return SyncOutcome(PlaybackUnavailable, []);
    }
    var play := current.value;
    var group := FindGroupOf(d.groups, caller);
    if group.None? {
      return SyncOutcome(NotInGroup, []);
    }
    var members := d.groups[group.value].members;
    var issued: seq<PlayCommand> := [];
    var results: seq<CallResult> := [];
    var i := 0;
    while i < |members|
      invariant 0 <= i <= |members|
      invariant |issued| == i && |results| == i
      invariant forall k :: 0 <= k < i ==>
        && GetUser(d.users, members[k]) == Some(results[k].user)
        && results[k].success == putSucceeds(k)
        && issued[k] == PlayCommand(results[k].user.spotifyToken, play.contextUri, play.progressMs)
    {
      var user := GetUser(d.users, members[i]);
      if user.None? {
        return SyncOutcome(SyncFailed, issued);
      }
      issued := issued + [PlayCommand(user.value.spotifyToken, play.contextUri, play.progressMs)];
      results := results + [CallResult(user.value, putSucceeds(i))];
      i := i + 1;
    }
    return SyncOutcome(Synced(results), issued);
  }
}
