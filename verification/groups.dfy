/**
 * The group registry of controllers/groupControllers.js: joining (and so
 * creating, leaving and dissolving) groups, the group list, and the member
 * list of the caller's group.
 */
module Groups {
  import opened Collections
  import opened Model

  /** A value of `Math.random()`, as the fraction num/den in [0, 1). */
  datatype Fraction = Fraction(num: nat, den: nat)

  predicate InUnitInterval(f: Fraction) {
    f.num < f.den
  }

  /** `Math.floor(Math.random() * n)`: an index into a non-empty list. */
  function ElectIndex(rand: Fraction, n: nat): (i: nat)
    requires InUnitInterval(rand) && n > 0
    ensures i < n
  {
    FloorBelow(rand.num, rand.den, n);
    rand.num * n / rand.den
  }

  /** For a < b, the floor of a * n / b is below n. */
  lemma FloorBelow(a: nat, b: nat, n: nat)
    requires a < b && n > 0
    ensures a * n / b < n
  {
    var q, m := a * n / b, a * n % b;
    assert a * n == b * q + m && 0 <= m;
    assert a * n < b * n by {
      assert b * n - a * n == (b - a) * n;
    }
    assert b * q < b * n;
    assert b * (n - q) > 0 by {
      assert b * (n - q) == b * n - b * q;
    }
  }

  /** Every position of a list of `n` members can be drawn. */
  lemma ElectionReachesEveryIndex(i: nat, n: nat)
    requires i < n
    ensures InUnitInterval(Fraction(i, n)) && ElectIndex(Fraction(i, n), n) == i
  {
    var q, m := i * n / n, i * n % n;
    assert i * n == n * q + m && 0 <= m < n;
    var k := i - q;
    assert n * k == m by {
      assert n * k == n * i - n * q;
    }
  }

  /** `members.filter(member => member !== user)`. */
  function Without(members: seq<string>, user: string): seq<string> {
    Filter(members, (m: string) => m != user)
  }

  /** `groups.filter(group => group.name !== name)`. */
  function RemoveNamed(groups: seq<Group>, name: string): seq<Group> {
    Filter(groups, (g: Group) => g.name != name)
  }

  /** Some group contains `user` and is led by `user`: the test the source
      names `wasLeaderOfPreviousGroup`, evaluated before anything changes. */
  predicate LeadsAGroup(groups: seq<Group>, user: string) {
    exists i :: 0 <= i < |groups| && user in groups[i].members && groups[i].leader == user
  }

  /** The first phase of a join: create a group led by the caller if the name
      is unknown, otherwise push the caller onto every group of that name. */
  function WithCaller(groups: seq<Group>, name: string, caller: string): seq<Group> {
    if FindGroupNamed(groups, name).None? then groups + [Group(name, caller, [caller])]
    else seq(|groups|, i requires 0 <= i < |groups| =>
               if groups[i].name == name then groups[i].(members := groups[i].members + [caller])
               else groups[i])
  }

  /** The caller leaves `g`; if members remain and the caller led a group, a
      remaining member drawn by `rand` becomes the leader. */
  function Leave(g: Group, caller: string, wasLeader: bool, rand: Fraction): Group
    requires InUnitInterval(rand)
  {
    var left := Without(g.members, caller);
    if |left| > 0 && wasLeader then Group(g.name, left[ElectIndex(rand, |left|)], left)
    else g.(members := left)
  }

  /** The groups of a join that switches the caller away from its previous
      group `groups[p]`, just before the emptiness test. */
  function Switched(groups: seq<Group>, name: string, caller: string, p: nat, rand: Fraction): seq<Group>
    requires InUnitInterval(rand) && p < |groups|
  {
    WithCaller(groups, name, caller)[p := Leave(groups[p], caller, LeadsAGroup(groups, caller), rand)]
  }

  /** What a join request leads to. Only `Joined` writes the store. */
  datatype JoinOutcome =
    | InvalidName             // 400: the group name is missing
    | AlreadyMember           // 200 "already in this group"; returns before db.update
    | Joined(written: Dataset) // 200 after db.update(written)

  /** The caller's first group is the one it asks to join. */
  predicate IsRejoin(groups: seq<Group>, caller: string, name: string) {
    match FindGroupOf(groups, caller)
    case None => false
    case Some(p) => groups[p].name == name
  }

  /** `joinGroup` for the authenticated `caller` with request body field
      `name` (absent when `None`); `rand` stands for `Math.random()`. */
  function JoinGroup(d: Dataset, caller: string, name: Option<string>, rand: Fraction): (r: JoinOutcome)
    requires InUnitInterval(rand)
    ensures r.InvalidName? <==> name.None? || name.value == ""
    ensures r.AlreadyMember? <==> name.Some? && name.value != "" && IsRejoin(d.groups, caller, name.value)
    ensures r.Joined? ==> r.written.users == d.users
  {
    if name.None? || name.value == "" then InvalidName
    else
      var n := name.value;
      var groups := d.groups;
      var joined := WithCaller(groups, n, caller);
      match FindGroupOf(groups, caller)
      case None => Joined(d.(groups := joined))
      case Some(p) =>
        if groups[p].name == n then AlreadyMember
        else
          var staged := Switched(groups, n, caller, p, rand);
          if |staged[p].members| == 0 then Joined(d.(groups := RemoveNamed(staged, groups[p].name)))
          else Joined(d.(groups := staged))
  }

  /** One entry of `getGroupList`. */
  datatype GroupSummary = GroupSummary(name: string, numberOfUsers: nat)

  /** `getGroupList`: one summary per group, in store order. */
  function GroupList(groups: seq<Group>): seq<GroupSummary> {
    seq(|groups|, i requires 0 <= i < |groups| => GroupSummary(groups[i].name, |groups[i].members|))
  }

  /** One entry of `getGroupMembers`, without the Spotify enrichment. */
  datatype MemberEntry = MemberEntry(username: string, isLeader: bool)

  datatype MembersOutcome = NotAMember | Members(entries: seq<MemberEntry>)

  /** `getGroupMembers` for `caller`: fails with 400 when the caller is in no
      group, otherwise lists that group's members with their leader flag. */
  function GroupMembers(groups: seq<Group>, caller: string): (r: MembersOutcome)
    ensures r.NotAMember? <==> forall i :: 0 <= i < |groups| ==> caller !in groups[i].members
    ensures r.Members? ==>
      exists k :: 0 <= k < |groups| && caller in groups[k].members
        && (forall j :: 0 <= j < k ==> caller !in groups[j].members)
        && |r.entries| == |groups[k].members|
        && forall i :: 0 <= i < |r.entries| ==>
             r.entries[i].username == groups[k].members[i]
             && (r.entries[i].isLeader <==> groups[k].members[i] == groups[k].leader)
  {
    match FindGroupOf(groups, caller)
    case None => NotAMember
    case Some(k) =>
      var g := groups[k];
      Members(seq(|g.members|, i requires 0 <= i < |g.members| =>
                    MemberEntry(g.members[i], g.members[i] == g.leader)))
  }
}
