/**
 * The dataset the service keeps in its JSON store: registered users and
 * listening groups, with the invariants the group operations maintain.
 */
module Model {
  import opened Collections

  /** A registered account. `passwordHash` is the bcrypt digest, kept opaque;
      `spotifyToken` is absent until the Spotify OAuth callback stores one. */
  datatype User = User(username: string, passwordHash: string, spotifyToken: Option<string>)

  /** A listening group: members in insertion order, and a leader who should
      be one of them. */
  datatype Group = Group(name: string, leader: string, members: seq<string>)

  /** The whole document that `db.read()` returns and `db.update()` writes. */
  datatype Dataset = Dataset(users: seq<User>, groups: seq<Group>)

  /** The first group called `name` (`groups.find(group => group.name === name)`). */
  function FindGroupNamed(groups: seq<Group>, name: string): (r: Option<nat>)
    ensures r.Some? ==> r.value < |groups| && groups[r.value].name == name
    ensures r.Some? ==> forall j :: 0 <= j < r.value ==> groups[j].name != name
    ensures r.None? ==> forall j :: 0 <= j < |groups| ==> groups[j].name != name
  {
    FirstIndex(groups, (g: Group) => g.name == name)
  }

  /** The first group whose members include `user`
      (`groups.find(group => group.members.includes(user))`). */
  function FindGroupOf(groups: seq<Group>, user: string): (r: Option<nat>)
    ensures r.Some? ==> r.value < |groups| && user in groups[r.value].members
    ensures r.Some? ==> forall j :: 0 <= j < r.value ==> user !in groups[j].members
    ensures r.None? ==> forall j :: 0 <= j < |groups| ==> user !in groups[j].members
  {
    FirstIndex(groups, (g: Group) => user in g.members)
  }

  /** The first user called `username` (`users.find(user => user.username === username)`). */
  function FindUser(users: seq<User>, username: string): (r: Option<nat>)
    ensures r.Some? ==> r.value < |users| && users[r.value].username == username
    ensures r.Some? ==> forall j :: 0 <= j < r.value ==> users[j].username != username
    ensures r.None? ==> forall j :: 0 <= j < |users| ==> users[j].username != username
  {
    FirstIndex(users, (u: User) => u.username == username)
  }

  /** No user belongs to both groups. */
  predicate MembersDisjoint(a: Group, b: Group) {
    forall u :: u in a.members ==> u !in b.members
  }

  predicate NamesDiffer(a: Group, b: Group) {
    a.name != b.name
  }

  predicate UsernamesDiffer(a: User, b: User) {
    a.username != b.username
  }

  /** The leader is one of the members and no member is listed twice; in
      particular the group is not empty. */
  predicate WellFormed(g: Group) {
    g.leader in g.members && Pairwise(g.members, Differ)
  }

  /** The group-registry invariants: every user is in at most one group, group
      names are unique, and every group is well formed (so none is empty). */
  predicate ValidGroups(groups: seq<Group>) {
    && Pairwise(groups, MembersDisjoint)
    && Pairwise(groups, NamesDiffer)
    && forall g :: g in groups ==> WellFormed(g)
  }

  /** `user` is a member of some group called `name`. */
  predicate InGroupNamed(groups: seq<Group>, user: string, name: string) {
    exists k :: 0 <= k < |groups| && groups[k].name == name && user in groups[k].members
  }

  /** No two registered users share a username. */
  predicate UniqueUsernames(users: seq<User>) {
    Pairwise(users, UsernamesDiffer)
  }
}
