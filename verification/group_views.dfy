/**
 * The read-only side of controllers/groupControllers.js: what `getGroupList`
 * and `getGroupMembers` report, related to the joins that shaped the groups.
 */
module GroupViews {
  import opened Collections
  import opened Model
  import opened Manager
  import opened Groups
  import opened JoinProofs

  /** `getGroupList` names exactly the groups a name lookup finds, and reports
      the size of the group the lookup finds. */
  lemma GroupListFindsEveryGroup(groups: seq<Group>, name: string)
    ensures (exists e :: e in GroupList(groups) && e.name == name) <==> FindGroupNamed(groups, name).Some?
    ensures FindGroupNamed(groups, name).Some? ==>
      GroupSummary(name, |groups[FindGroupNamed(groups, name).value].members|) in GroupList(groups)
  {
    var l := GroupList(groups);
    if e :| e in l && e.name == name {
      var i :| 0 <= i < |l| && l[i] == e;
      assert groups[i].name == name;
    }
    if FindGroupNamed(groups, name).Some? {
      var t := FindGroupNamed(groups, name).value;
      assert l[t] in l;
    }
  }

  /** Under the invariants no listed group is empty, and no name is listed twice. */
  lemma ListedGroupsNonEmpty(groups: seq<Group>)
    requires ValidGroups(groups)
    ensures forall e :: e in GroupList(groups) ==> e.numberOfUsers >= 1
    ensures forall i, j :: 0 <= i < j < |GroupList(groups)| ==> GroupList(groups)[i].name != GroupList(groups)[j].name
  {
    var l := GroupList(groups);
    forall e | e in l ensures e.numberOfUsers >= 1 {
      var i :| 0 <= i < |l| && l[i] == e;
      assert WellFormed(groups[i]);
    }
    forall i, j | 0 <= i < j < |l| ensures l[i].name != l[j].name {
      assert NamesDiffer(groups[i], groups[j]);
    }
  }

  /** After a successful join the requested group is listed, with at least one
      member. */
  lemma JoinedGroupListed(d: Dataset, caller: string, n: string, rand: Fraction)
    requires InUnitInterval(rand) && ValidGroups(d.groups)
    requires JoinGroup(d, caller, Some(n), rand).Joined?
    ensures exists e :: e in GroupList(JoinGroup(d, caller, Some(n), rand).written.groups)
                        && e.name == n && e.numberOfUsers >= 1
  {
    var w := JoinGroup(d, caller, Some(n), rand).written.groups;
    JoinPreservesInvariants(d, caller, Some(n), rand);
    var k :| 0 <= k < |w| && w[k].name == n && caller in w[k].members;
    assert GroupList(w)[k] in GroupList(w);
  }

  /** When the last member leaves a group (by joining another), that group no
      longer appears in `getGroupList`. */
  lemma LeftEmptyGroupNotListed(d: Dataset, caller: string, n: string, rand: Fraction, p: nat)
    requires InUnitInterval(rand) && n != ""
    requires FindGroupOf(d.groups, caller) == Some(p) && d.groups[p].name != n
    requires forall u :: u in d.groups[p].members ==> u == caller
    ensures forall e :: e in GroupList(JoinGroup(d, caller, Some(n), rand).written.groups) ==>
              e.name != d.groups[p].name
  {
    JoinLeavesPreviousGroup(d, caller, n, rand, p);
    var left := Without(d.groups[p].members, caller);
    FilterRejectsAll(d.groups[p].members, (m: string) => m != caller);
    var w := JoinGroup(d, caller, Some(n), rand).written.groups;
    assert forall g :: g in w ==> g.name != d.groups[p].name;
    forall e | e in GroupList(w) ensures e.name != d.groups[p].name {
      var i :| 0 <= i < |GroupList(w)| && GroupList(w)[i] == e;
      assert w[i] in w;
    }
  }

  /** Under the invariants `getGroupMembers` flags exactly one entry as the
      leader, and lists the caller itself. */
  lemma ExactlyOneLeaderListed(groups: seq<Group>, caller: string)
    requires ValidGroups(groups)
    requires GroupMembers(groups, caller).Members?
    ensures var es := GroupMembers(groups, caller).entries;
      && (exists i :: 0 <= i < |es| && es[i].username == caller)
      && (exists k :: 0 <= k < |es| && es[k].isLeader
                        && forall j :: 0 <= j < |es| && j != k ==> !es[j].isLeader)
  {
    var k := FindGroupOf(groups, caller).value;
    var g := groups[k];
    var es := GroupMembers(groups, caller).entries;
    assert WellFormed(g);
    var c :| 0 <= c < |g.members| && g.members[c] == caller;
    assert es[c].username == caller;
    var l :| 0 <= l < |g.members| && g.members[l] == g.leader;
    forall j | 0 <= j < |es| && j != l ensures !es[j].isLeader {
      if j < l {
        assert Differ(g.members[j], g.members[l]);
      } else {
        assert Differ(g.members[l], g.members[j]);
      }
    }
  }

  /** A current-track request `getGroupMembers` sends for a member. The call
      passes the member's name where the callee expects the token, so the
      request's bearer is the username; the stored token goes in a second
      argument, which the callee ignores. */
  datatype TrackQuery = TrackQuery(member: string, bearer: string, storedToken: string)

  /** The requests `getGroupMembers` sends: a request is sent for a member
      exactly when its stored Spotify token is truthy, and there are no more
      requests than members. */
  function TrackQueries(users: seq<User>, members: seq<string>): (r: seq<TrackQuery>)
    ensures |r| <= |members|
    ensures forall q :: q in r <==>
      && q.member in members && q.bearer == q.member && q.storedToken != ""
      && GetUserSpotifyToken(users, q.member) == TokenOf(Some(q.storedToken))
    decreases |members|
  {
    if |members| == 0 then []
    else
      var init := TrackQueries(users, members[..|members| - 1]);
      var last := members[|members| - 1];
      assert forall m :: m in members <==> m in members[..|members| - 1] || m == last by {
        assert members == members[..|members| - 1] + [last];
      }
      match GetUserSpotifyToken(users, last)
      case TokenOf(Some(t)) => if t != "" then init + [TrackQuery(last, last, t)] else init
      case _ => init
  }

  /** Scenario: alice creates "jazz", bob joins it, and alice sees both,
      herself as leader. */
  lemma AliceAndBobScenario(rand: Fraction)
    requires InUnitInterval(rand)
    ensures var d0 := Dataset([], []);
      var r1 := JoinGroup(d0, "alice", Some("jazz"), rand);
      && r1 == Joined(Dataset([], [Group("jazz", "alice", ["alice"])]))
      && var r2 := JoinGroup(r1.written, "bob", Some("jazz"), rand);
      && r2 == Joined(Dataset([], [Group("jazz", "alice", ["alice", "bob"])]))
      && GroupMembers(r2.written.groups, "alice")
         == Members([MemberEntry("alice", true), MemberEntry("bob", false)])
  {
    var g1 := [Group("jazz", "alice", ["alice"])];
    assert FindGroupNamed([], "jazz").None?;
    assert FindGroupOf([], "alice").None?;
    assert FindGroupNamed(g1, "jazz") == Some(0);
    assert FindGroupOf(g1, "bob").None?;
    var g2 := [Group("jazz", "alice", ["alice", "bob"])];
    var j := WithCaller(g1, "jazz", "bob");
    assert |j| == 1 && j[0] == g2[0];
    assert j == g2;
    assert FindGroupOf(g2, "alice") == Some(0);
  }

  /** Scenario: alice leads "jazz" with bob and moves to "rock"; bob is left
      leading "jazz", and alice leads the new "rock". */
  lemma LeaderMovesScenario(rand: Fraction)
    requires InUnitInterval(rand)
    ensures JoinGroup(Dataset([], [Group("jazz", "alice", ["alice", "bob"])]), "alice", Some("rock"), rand)
            == Joined(Dataset([], [Group("jazz", "bob", ["bob"]), Group("rock", "alice", ["alice"])]))
  {
    var g := [Group("jazz", "alice", ["alice", "bob"])];
    assert FindGroupNamed(g, "rock").None?;
    assert FindGroupOf(g, "alice") == Some(0);
    assert LeadsAGroup(g, "alice");
    var left := Without(["alice", "bob"], "alice");
    assert left == ["bob"] by {
      assert Filter(["alice"], (m: string) => m != "alice") == [];
    }
  }
}
