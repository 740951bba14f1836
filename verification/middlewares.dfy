/**
 * controllers/middlewares.js: reading the bearer token from the
 * Authorization header (`verifyToken`), and loading the caller's stored
 * Spotify token (`setSpotifyToken`). JWT verification is a parameter.
 */
module Middlewares {
  import opened Collections
  import opened Model
  import opened Manager
  import opened SpotifyApi

  /** Position of the first space in `s`. */
  function FirstSpace(s: string): (i: nat)
    requires ' ' in s
    ensures i < |s| && s[i] == ' ' && ' ' !in s[..i]
  {
    if s[0] == ' ' then 0
    else
      var k := FirstSpace(s[1..]);
      assert s[..k + 1] == [s[0]] + s[1..][..k];
      k + 1
  }

  /** The fields joined back with single spaces. */
  function JoinFields(fields: seq<string>): string
    requires |fields| >= 1
    decreases |fields|
  {
    if |fields| == 1 then fields[0] else fields[0] + " " + JoinFields(fields[1..])
  }

  /** `s.split(' ')`: the maximal space-free pieces between single spaces. */
  function Split(s: string): (fields: seq<string>)
    ensures |fields| >= 1
    ensures forall k :: 0 <= k < |fields| ==> ' ' !in fields[k]
    ensures JoinFields(fields) == s
    decreases |s|
  {
    if ' ' !in s then [s]
    else
      var i := FirstSpace(s);
      var rest := Split(s[i + 1..]);
      assert ([s[..i]] + rest)[1..] == rest;
      assert s == s[..i] + " " + s[i + 1..];
      [s[..i]] + rest
  }

  /** Splitting undoes joining, for fields free of spaces. */
  lemma {:induction false} SplitJoinFields(fields: seq<string>)
    requires |fields| >= 1
    requires forall k :: 0 <= k < |fields| ==> ' ' !in fields[k]
    ensures Split(JoinFields(fields)) == fields
    decreases |fields|
  {
    if |fields| > 1 {
      var head, tail := fields[0], JoinFields(fields[1..]);
      var s := head + " " + tail;
      assert s[|head|] == ' ' && s[..|head|] == head;
      assert FirstSpace(s) == |head|;
      assert s[|head| + 1..] == tail;
      SplitJoinFields(fields[1..]);
    }
  }

  /** `authorization.split(' ')[1]`: the second field of the header, absent
      when the header has no space. */
  function BearerToken(header: string): (t: Option<string>)
    ensures t.None? <==> ' ' !in header
    ensures t.Some? ==> ' ' !in t.value
  {
    var fields := Split(header);
    if |fields| > 1 then Some(fields[1]) else None
  }

  /** A header "<scheme> <token>", possibly followed by more space-separated
      text, yields the token. */
  lemma BearerTokenOfHeader(scheme: string, token: string, rest: string)
    requires ' ' !in scheme && ' ' !in token
    requires rest == "" || rest[0] == ' '
    ensures BearerToken(scheme + " " + token + rest) == Some(token)
  {
    var h := scheme + " " + token + rest;
    assert h[|scheme|] == ' ' && h[..|scheme|] == scheme;
    assert FirstSpace(h) == |scheme|;
    var after := h[|scheme| + 1..];
    assert after == token + rest;
    assert Split(h) == [scheme] + Split(after);
    if rest == "" {
      assert after == token;
      assert Split(after) == [token];
    } else {
      assert after[|token|] == ' ' && after[..|token|] == token;
      assert FirstSpace(after) == |token|;
    }
  }

  /** "Bearer abc" carries the token "abc"; "Bearer" carries none. */
  lemma BearerTokenExamples()
    ensures BearerToken("Bearer abc") == Some("abc")
    ensures BearerToken("Bearer") == None
  {
    BearerTokenOfHeader("Bearer", "abc", "");
    assert "Bearer" + " " + "abc" + "" == "Bearer abc";
  }

  /** The decoded JWT payload. */
  datatype Claims = Claims(username: string)

  datatype AuthOutcome =
    | MissingToken             // 403: no Authorization header
    | InvalidToken             // 401: jwt.verify threw
    | Authenticated(username: string)  // next(), with req.username set

  /** `verifyToken` on the request's Authorization header. `verify` stands for
      `jwt.verify` with the server secret; it receives the extracted token,
      which is absent for a header without a space. */
  function VerifyToken(authorization: Option<string>, verify: Option<string> -> Option<Claims>): (r: AuthOutcome)
    ensures r.MissingToken? <==> authorization.None? || authorization.value == ""
    ensures r.InvalidToken? <==>
      authorization.Some? && authorization.value != "" && verify(BearerToken(authorization.value)).None?
    ensures r.Authenticated? ==> r.username == verify(BearerToken(authorization.value)).value.username
  {
    if authorization.None? || authorization.value == "" then MissingToken
    else match verify(BearerToken(authorization.value))
      case None => InvalidToken
      case Some(claims) => Authenticated(claims.username)
  }

  datatype TokenGate =
    | UnknownUser              // 400: no user with that name
    | NoSpotifyToken           // 400: the user's token is missing or empty
    | TokenSet(token: string)  // next(), with req.spotifyToken set

  /** `setSpotifyToken` for the authenticated `username`. */
  function SetSpotifyToken(users: seq<User>, username: string): (r: TokenGate)
    ensures r.UnknownUser? <==> GetUser(users, username).None?
    ensures r.NoSpotifyToken? <==>
      GetUser(users, username).Some? && GetUser(users, username).value.spotifyToken in {None, Some("")}
    ensures r.TokenSet? ==> r.token != "" && GetUserSpotifyToken(users, username) == TokenOf(Some(r.token))
  {
    match FindUser(users, username)
    case None => UnknownUser
    case Some(i) =>
      match users[i].spotifyToken
      case None => NoSpotifyToken
      case Some(t) => if t == "" then NoSpotifyToken else TokenSet(t)
  }

  /** Once a non-empty token is stored for a user, `setSpotifyToken` lets that
      user through with exactly that token. */
  lemma StoredTokenPassesGate(d: Dataset, username: string, token: string)
    requires token != ""
    requires exists i :: 0 <= i < |d.users| && d.users[i].username == username
    ensures StoreSpotifyToken(d, username, token).Some?
    ensures SetSpotifyToken(StoreSpotifyToken(d, username, token).value.users, username) == TokenSet(token)
  {
    StoredTokenIsLookedUp(d, username, token);
  }
}
