# Listening groups: a verified model of the group core

This project models the core of a small Express service in which users register, log in, link a Spotify account, and gather in named "listening groups". Every user belongs to at most one group. Each group has a leader. A member can push its current Spotify playback to every member of its group.

The model covers these parts of the service:

- **Group registry** (`controllers/groupControllers.js`). `joinGroup` is modelled as `Groups.JoinGroup`. It creates a group, or appends the caller to an existing one. It then takes the caller out of its previous group. If that group is now empty it is deleted; otherwise, if the caller led a group, a new leader is drawn. `getGroupList` becomes `Groups.GroupList` and `getGroupMembers` becomes `Groups.GroupMembers`.
- **Playback fan-out** (`controllers/spotifyAPI.js`). `SpotifyApi.SyncCurrentTrack` builds one identical play command per group member, the caller included, and gathers one `{user, success}` result per member in member order. `_callSpotifyAPI` never rejects; that is carried by each result's `success` being the member's PUT outcome. `_storeSpotifyToken` becomes `SpotifyApi.StoreSpotifyToken`.
- **Middlewares** (`controllers/middlewares.js`). The bearer token is taken from the Authorization header by splitting it on single spaces. The user/token gate of `setSpotifyToken` is modelled too.
- **Authentication** (`controllers/authentication.js`). `register` has a duplicate check and appends the new user. `login` has two failure cases and returns a signed token.
- **Store** (`database/manager.js`). The JSON file is one whole dataset, read and written as a unit. It also provides the first-match lookups `getUser` and `getUserSpotifyToken`. Join requests are served against it: `JoinProofs.ServeJoin` reads the dataset and writes it back only when the join reaches `db.update`.

Everything is a pure function over immutable datatypes, except the fan-out, which is a method with a loop. The operations take the outside world as parameters:

- `Math.random()` is a fraction `num/den` with `num < den`. The drawn index is `floor(num * n / den)`, as `Math.floor(Math.random() * n)` computes it.
- The caller's playback, as read from Spotify, is an `Option<Playback>`.
- The outcome of each member's PUT is an oracle `putSucceeds(i)`.
- `jwt.verify`, `jwt.sign` and `bcrypt.compare` are function parameters.
- The bcrypt hash of a new password is an input string.

A join outcome carries a dataset only when the source calls `db.update`. Two outcomes write nothing. An invalid name is one. A rejoin of the caller's own group is the other: the source returns at line 95, before `db.update` at line 117.

Where the source could reasonably behave another way, the model follows it exactly:

- The leader test (`wasLeaderOfPreviousGroup`) looks at every group, not just the previous one. `JoinProofs.LeadsAGroupIsOwnGroup` shows the two tests agree under the registry invariants.
- The existing-group branch pushes the caller onto every group of that name.
- Deleting an emptied group removes every group with its name.
- A member without a user record makes `syncCurrentTrack` fail with 500. The play commands for the members before it have already been sent, so the model returns those commands with the failure.

The model also follows the source on these points:

- The caller receives a play command too.
- A member without a stored Spotify token is not skipped. Its command carries the header `Bearer undefined` (token `None`).
- A missing playback session gives the 500 outcome.

## Model

| member | source | states |
|---|---|---|
| Manager.Update | database/manager.js:11-17 | after `update(data)` the store reads back exactly `data`; nothing of the previous contents survives |
| Manager.GetUser | database/manager.js:19-23 | nothing exactly when no user has the name; otherwise the user at the first position with that name |
| Manager.GetUserSpotifyToken | database/manager.js:25-31 | `false` exactly when `getUser` finds nobody; otherwise that user's token, absent if none was stored |
| Groups.ElectIndex | controllers/groupControllers.js:112 | the drawn position is always inside the remaining member list |
| Groups.ElectionReachesEveryIndex | controllers/groupControllers.js:112 | every remaining member can be drawn as the new leader |
| Groups.JoinGroup | controllers/groupControllers.js:44-122 | invalid-request exactly when the name is missing or empty; "already in this group", with nothing written, exactly when the caller's first group has that name; a written dataset keeps the users unchanged |
| Groups.GroupMembers | controllers/groupControllers.js:207-227 | not-a-member exactly when no group contains the caller; otherwise one entry per member of the caller's first group, in member order, with `isLeader` true exactly for the leader |
| JoinProofs.JoinCreatesGroup | controllers/groupControllers.js:59-75 | joining an unknown name appends, as the last group, a group with that name led by the caller whose only member is the caller |
| JoinProofs.JoinAppendsToExisting | controllers/groupControllers.js:76-85 | joining an existing group that is not the caller's own puts the caller at the end of its members and keeps its leader |
| JoinProofs.JoinLeavesPreviousGroup | controllers/groupControllers.js:98-106 | on a switch, the previous group loses exactly the caller and keeps the others in order; a group left empty no longer exists under that name |
| JoinProofs.JoinReelectsLeader | controllers/groupControllers.js:108-114 | if members remain and the caller led a group, the previous group's new leader is a remaining member and not the caller; otherwise its leader is unchanged |
| JoinProofs.LeadsAGroupIsOwnGroup | controllers/groupControllers.js:60-61 | under the invariants, "some group containing the caller is led by it" is the same as "the caller leads its own group" |
| JoinProofs.JoinPreservesInvariants | controllers/groupControllers.js:59-117 | a successful join keeps at most one group per user, unique names, leader among members, no repeated member and no empty group; the caller ends up in a group of the requested name |
| JoinProofs.JoinWritesOnlyTouched | controllers/groupControllers.js:74-114 | every group a join writes is an original group kept as it was, a group of the requested name, or the previous group with the caller taken out |
| JoinProofs.UntouchedSurvives | controllers/groupControllers.js:80-114 | under the invariants a group that neither has the requested name nor contains the caller is written back unchanged |
| JoinProofs.RejoinLeavesStoreUnchanged | controllers/groupControllers.js:88-96 | asking to join the group one is already in returns before `db.update`, so the store is exactly as before |
| JoinProofs.ReplayPreservesInvariants | controllers/groupControllers.js:44-122 | after the store serves any sequence of join requests the registry invariants still hold and no user record has changed |
| GroupViews.GroupListFindsEveryGroup | controllers/groupControllers.js:160-165 | a name appears in the group list exactly when a group of that name exists, and the first such group is listed with its member count |
| GroupViews.ListedGroupsNonEmpty | controllers/groupControllers.js:160-165 | under the invariants every listed group has at least one user and no name is listed twice |
| GroupViews.JoinedGroupListed | controllers/groupControllers.js:64-85 | after a successful join the requested group appears in the group list with at least one user |
| GroupViews.LeftEmptyGroupNotListed | controllers/groupControllers.js:101-106 | when the last member leaves a group by joining another, that group's name disappears from the group list |
| GroupViews.ExactlyOneLeaderListed | controllers/groupControllers.js:222-227 | under the invariants the member list contains the caller and flags exactly one entry as leader |
| GroupViews.TrackQueries | controllers/groupControllers.js:232-238 | a current-track request is sent exactly for the members whose stored token is truthy; its bearer is the member's username, since the call passes `member` where the callee takes the token, and the stored token rides along unused |
| GroupViews.AliceAndBobScenario | controllers/groupControllers.js:64-85 | alice creates "jazz", bob joins it; alice then sees [alice (leader), bob] |
| GroupViews.LeaderMovesScenario | controllers/groupControllers.js:98-114 | alice leads "jazz" with bob and joins "rock": "jazz" becomes [bob] led by bob, and "rock" is created with leader alice |
| SpotifyApi.StoreSpotifyToken | controllers/spotifyAPI.js:457-467 | nothing is written exactly when no user has the name; otherwise only the first user with that name gets the token, and every other user and all groups are unchanged |
| SpotifyApi.StoredTokenIsLookedUp | controllers/spotifyAPI.js:457-467 | after storing a token, `getUserSpotifyToken` returns that token |
| SpotifyApi.StoreKeepsUsernames | controllers/spotifyAPI.js:457-467 | storing a token changes no username, so unique usernames stay unique |
| SpotifyApi.SyncCurrentTrack | controllers/spotifyAPI.js:250-307 | a failed playback read gives 500 before any group lookup and sends nothing; a caller in no group gives 400 and sends nothing; otherwise there is one result per member, caller included, in member order, each carrying the member's PUT outcome, and every command carries the caller's context URI and position; tokenless members still get a command; a member without a user record gives 500 after the commands for the members before it; because `_callSpotifyAPI` (lines 431-452) never rejects, a failed PUT is a result with `success` false rather than an error |
| Middlewares.Split | controllers/middlewares.js:30 | the fields contain no space and joined with single spaces give back the header |
| Middlewares.SplitJoinFields | controllers/middlewares.js:30 | splitting space-free fields joined by single spaces returns those fields |
| Middlewares.BearerToken | controllers/middlewares.js:30 | the token is absent exactly when the header has no space, and never contains a space |
| Middlewares.BearerTokenOfHeader | controllers/middlewares.js:28-30 | a header "scheme token", optionally followed by more space-separated text, yields that token |
| Middlewares.BearerTokenExamples | controllers/middlewares.js:30 | "Bearer abc" yields "abc"; "Bearer" yields no token |
| Middlewares.VerifyToken | controllers/middlewares.js:21-42 | 403 exactly when the header is missing or empty; 401 exactly when verification of the extracted token fails; otherwise the request username is the decoded payload's username |
| Middlewares.SetSpotifyToken | controllers/middlewares.js:49-70 | 400 for an unknown user; 400 for a user whose token is missing or empty; otherwise the request token is the user's stored token |
| Middlewares.StoredTokenPassesGate | controllers/middlewares.js:56-67 | once a non-empty token is stored for a user, the gate lets that user through with exactly that token |
| Authentication.Register | controllers/authentication.js:18-44 | fails, writing nothing, exactly when the username is taken; otherwise appends exactly one user with that name and hash and no token, keeping existing users and groups |
| Authentication.RegisterKeepsUsernamesUnique | controllers/authentication.js:27-41 | registration keeps usernames unique |
| Authentication.RegisteredUserIsFound | controllers/authentication.js:36-41 | the user just registered is what `getUser` finds for that name |
| Authentication.Login | controllers/authentication.js:51-82 | fails for an unknown username and for a wrong password, without a token; otherwise the token signs a payload carrying the username |
| Authentication.RegisterThenLogin | controllers/authentication.js:61-81 | a user who has just registered logs in with the same password |
| Authentication.LoginThenVerify | controllers/authentication.js:73-81 | the token from `login`, sent as "Bearer token", authenticates the same username in `verifyToken` |

## Left out

- HTTP routing, server start-up and Express `req`/`res`/`next` plumbing (app.js) are left out. Each handler's responses are result datatypes instead of status calls.
- generateDoc.js is left out: it only writes API documentation.
- File-system access and JSON (de)serialisation in database/manager.js are left out. The store is an abstract whole dataset. The 500 responses that a failed read or write would cause are not modelled.
- All Spotify HTTP calls are left out and replaced by inputs. So are `oAuthLogin`, `oAuthCallback`, `_getSpotifyUserInfos` and `createPlaylistFromUserTopTracks`. `oAuthCallback` only fetches a token and calls `_storeSpotifyToken`, which is modelled.
- `getUserPersonality` is left out: it averages floating-point audio features and rounds them.
- The Spotify enrichment of `getGroupMembers` (controllers/groupControllers.js:240-253) is left out. `_getSpotifyUserCurrentTrack` is called with two arguments but declared with one. It therefore sends the username as the bearer token. Its results carry no `user` field, so they never match a member. Its error path calls an undefined `log`. Only the choice of members to query is modelled (`GroupViews.TrackQueries`).
- bcrypt hashing and comparison, and JWT signing, verification and expiry, are opaque parameters.
- Groups.GroupMembers: states the member list that `getGroupMembers` builds, which the source sends only when no member has a truthy stored token. Otherwise each current-track request is sent with the member's username as bearer, so Spotify rejects it, and the catch block calls `log`, which controllers/spotifyAPI.js never defines. The resulting ReferenceError rejects `Promise.all` at controllers/groupControllers.js:241, and the handler, which has no try/catch, never answers with the list.
- Concurrency is left out. The fan-out is a sequential loop, which is sound because `_callSpotifyAPI` never rejects. The lost-update race between concurrent joins is not modelled.
- Floating point in `Math.random()` is left out. The model uses an exact fraction in [0, 1).
- Non-string request fields are left out (for example a numeric group name), and so are missing `username`/`password` fields in `register`. A missing `password` makes `bcrypt.hash` reject, so `register` writes nothing and never answers. A missing `username` is stored as a record without a username field.
- Groups.ElectIndex: the model proves that every remaining member can be drawn, not that the draw is uniform, because probabilities are outside the model.
- JoinProofs.JoinAppendsToExisting: states that the grown group is in the written list, not at which index, because deleting an emptied previous group shifts the later groups.
- SpotifyApi.SyncCurrentTrack: each member's PUT outcome is an oracle indexed by the member's position. Timeouts and the content of Spotify's error responses are not modelled.
