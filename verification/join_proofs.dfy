/**
 * What a join does to the group collection: the group it creates or grows,
 * the group it leaves, the leader it re-elects, and the registry invariants
 * it keeps.
 */
module JoinProofs {
  import opened Collections
  import opened Model
  import opened Manager
  import opened Groups

  /** Joining an unknown name appends a new group led by the caller, whose only
      member is the caller. */
  lemma JoinCreatesGroup(d: Dataset, caller: string, n: string, rand: Fraction)
    requires InUnitInterval(rand) && n != ""
    requires FindGroupNamed(d.groups, n).None?
    ensures var r := JoinGroup(d, caller, Some(n), rand);
      r.Joined? && |r.written.groups| > 0
      && r.written.groups[|r.written.groups| - 1] == Group(n, caller, [caller])
  {
    var groups := d.groups;
    var joined := WithCaller(groups, n, caller);
    assert joined[|joined| - 1] == Group(n, caller, [caller]);
    match FindGroupOf(groups, caller)
    case None =>
    case Some(p) =>
      var staged := joined[p := Leave(groups[p], caller, LeadsAGroup(groups, caller), rand)];
      assert staged[|staged| - 1] == Group(n, caller, [caller]);
  }

  /** Joining an existing group (one the caller is not already in first)
      appends the caller at the end of its members and keeps its leader. */
  lemma JoinAppendsToExisting(d: Dataset, caller: string, n: string, rand: Fraction, t: nat)
    requires InUnitInterval(rand) && n != ""
    requires t < |d.groups| && d.groups[t].name == n
    requires !IsRejoin(d.groups, caller, n)
    ensures var r := JoinGroup(d, caller, Some(n), rand);
      r.Joined? && Group(n, d.groups[t].leader, d.groups[t].members + [caller]) in r.written.groups
  {
    var groups := d.groups;
    var joined := WithCaller(groups, n, caller);
    var grown := Group(n, groups[t].leader, groups[t].members + [caller]);
    assert joined[t] == grown;
    match FindGroupOf(groups, caller)
    case None =>
    case Some(p) =>
      var staged := joined[p := Leave(groups[p], caller, LeadsAGroup(groups, caller), rand)];
      assert staged[t] == grown;
      assert grown in staged;
  }

  /** Switching groups takes the caller out of its previous group, keeping the
      other members in order; a group left empty is deleted. */
  lemma JoinLeavesPreviousGroup(d: Dataset, caller: string, n: string, rand: Fraction, p: nat)
    requires InUnitInterval(rand) && n != ""
    requires FindGroupOf(d.groups, caller) == Some(p) && d.groups[p].name != n
    ensures var r := JoinGroup(d, caller, Some(n), rand);
      var left := Without(d.groups[p].members, caller);
      && r.Joined?
      && (forall u :: u in left <==> u in d.groups[p].members && u != caller)
      && (|left| == 0 ==> forall g :: g in r.written.groups ==> g.name != d.groups[p].name)
      && (|left| > 0 ==> r.written.groups[p].name == d.groups[p].name
                         && r.written.groups[p].members == left)
  {
  }

  /** If members remain and the caller led a group, the new leader of the
      previous group is one of the remaining members, so never the caller;
      otherwise that group keeps its leader. */
  lemma JoinReelectsLeader(d: Dataset, caller: string, n: string, rand: Fraction, p: nat)
    requires InUnitInterval(rand) && n != ""
    requires FindGroupOf(d.groups, caller) == Some(p) && d.groups[p].name != n
    requires |Without(d.groups[p].members, caller)| > 0
    ensures var r := JoinGroup(d, caller, Some(n), rand);
      && r.Joined?
      && (LeadsAGroup(d.groups, caller) ==>
            r.written.groups[p].leader in r.written.groups[p].members
            && r.written.groups[p].leader != caller)
      && (!LeadsAGroup(d.groups, caller) ==> r.written.groups[p].leader == d.groups[p].leader)
  {
  }

  /** The groups a join may write: an original group kept as it was, a group
      called `n`, or the caller's previous group without the caller. */
  predicate Touched(d: Dataset, caller: string, n: string, g: Group) {
    || g in d.groups
    || g.name == n
    || match FindGroupOf(d.groups, caller)
       case None => false
       case Some(p) => g.name == d.groups[p].name && g.members == Without(d.groups[p].members, caller)
  }

  /** A join writes no group other than the original ones, a group called
      `n`, and the previous group with the caller taken out. */
  lemma JoinWritesOnlyTouched(d: Dataset, caller: string, n: string, rand: Fraction)
    requires InUnitInterval(rand) && n != ""
    requires JoinGroup(d, caller, Some(n), rand).Joined?
    ensures forall g :: g in JoinGroup(d, caller, Some(n), rand).written.groups ==> Touched(d, caller, n, g)
  {
    var groups := d.groups;
    var j := WithCaller(groups, n, caller);
    WithCallerShape(groups, n, caller);
    match FindGroupOf(groups, caller)
    case None =>
      forall g | g in j ensures Touched(d, caller, n, g) {
        var k :| 0 <= k < |j| && j[k] == g;
        if k < |groups| && groups[k].name != n {
          assert g == groups[k];
        }
      }
    case Some(p) =>
      var s := Switched(groups, n, caller, p, rand);
      forall g | g in s ensures Touched(d, caller, n, g) {
        var k :| 0 <= k < |s| && s[k] == g;
        if k != p && k < |groups| && groups[k].name != n {
          assert g == groups[k];
        }
      }
  }

  /** A join keeps, unchanged, every group that neither carries the requested
      name nor contains the caller. */
  lemma UntouchedSurvives(d: Dataset, caller: string, n: string, rand: Fraction, g: Group)
    requires InUnitInterval(rand) && n != "" && ValidGroups(d.groups)
    requires JoinGroup(d, caller, Some(n), rand).Joined?
    requires g in d.groups && g.name != n && caller !in g.members
    ensures g in JoinGroup(d, caller, Some(n), rand).written.groups
  {
    var groups := d.groups;
    var k :| 0 <= k < |groups| && groups[k] == g;
    var j := WithCaller(groups, n, caller);
    WithCallerShape(groups, n, caller);
    assert j[k] == g;
    match FindGroupOf(groups, caller)
    case None =>
      assert g in j;
    case Some(p) =>
      var s := Switched(groups, n, caller, p, rand);
      assert s[k] == g;
      if k < p {
        assert NamesDiffer(groups[k], groups[p]);
      } else {
        assert NamesDiffer(groups[p], groups[k]);
      }
      assert g in s;
  }

  /** Under the invariants a user's group is its only group. */
  lemma OnlyGroup(groups: seq<Group>, u: string, p: nat)
    requires ValidGroups(groups) && p < |groups| && u in groups[p].members
    ensures forall k :: 0 <= k < |groups| && k != p ==> u !in groups[k].members
  {
    forall k | 0 <= k < |groups| && k != p ensures u !in groups[k].members {
      if k < p {
        assert MembersDisjoint(groups[k], groups[p]);
      } else {
        assert MembersDisjoint(groups[p], groups[k]);
      }
    }
  }

  /** Under the invariants the source's leader test, taken over all groups,
      is the test "the caller leads its own group". */
  lemma LeadsAGroupIsOwnGroup(groups: seq<Group>, u: string, p: nat)
    requires ValidGroups(groups) && p < |groups| && u in groups[p].members
    ensures LeadsAGroup(groups, u) <==> groups[p].leader == u
  {
    OnlyGroup(groups, u, p);
  }

  /** Appending a value not yet present keeps a list free of repeats. */
  lemma AppendFreshDistinct(s: seq<string>, x: string)
    requires Pairwise(s, Differ) && x !in s
    ensures Pairwise(s + [x], Differ)
  {
    var t := s + [x];
    forall i, j | 0 <= i < j < |t| ensures Differ(t[i], t[j]) {
      if j == |s| {
        assert t[i] == s[i];
      } else {
        assert t[i] == s[i] && t[j] == s[j];
      }
    }
  }

  /** After the first phase of a join every group keeps its name, and the
      caller sits exactly in the groups called `n`. */
  lemma WithCallerShape(groups: seq<Group>, n: string, caller: string)
    ensures var j := WithCaller(groups, n, caller);
      && |groups| <= |j| <= |groups| + 1
      && (|j| == |groups| + 1 <==> FindGroupNamed(groups, n).None?)
      && (|j| == |groups| + 1 ==> j[|groups|] == Group(n, caller, [caller]))
      && forall k :: 0 <= k < |groups| ==>
           j[k].name == groups[k].name && j[k].leader == groups[k].leader
           && j[k].members == if groups[k].name == n then groups[k].members + [caller] else groups[k].members
  {
  }

  /** The group names after the first phase of a join stay unique. */
  lemma WithCallerNames(groups: seq<Group>, n: string, caller: string)
    requires Pairwise(groups, NamesDiffer)
    ensures Pairwise(WithCaller(groups, n, caller), NamesDiffer)
    ensures InGroupNamed(WithCaller(groups, n, caller), caller, n)
  {
    var j := WithCaller(groups, n, caller);
    WithCallerShape(groups, n, caller);
    forall a, b | 0 <= a < b < |j| ensures NamesDiffer(j[a], j[b]) {
      if b == |groups| {
        assert FindGroupNamed(groups, n).None?;
      } else {
        assert NamesDiffer(groups[a], groups[b]);
      }
    }
    if FindGroupNamed(groups, n).None? {
      assert j[|groups|].name == n && caller in j[|groups|].members;
    } else {
      var t := FindGroupNamed(groups, n).value;
      assert j[t].name == n && caller in j[t].members;
    }
  }

  /** Where each user sits in a sequence `s` derived from `groups` by a join:
      the caller only in groups called `n`, anyone else only where it was. */
  predicate PlacedBy(s: seq<Group>, groups: seq<Group>, n: string, caller: string) {
    forall k, u :: 0 <= k < |s| && u in s[k].members ==>
      if u == caller then s[k].name == n else k < |groups| && u in groups[k].members
  }

  /** Unique names and the placement above give disjoint memberships. */
  lemma PlacedDisjoint(s: seq<Group>, groups: seq<Group>, n: string, caller: string)
    requires Pairwise(groups, MembersDisjoint) && Pairwise(s, NamesDiffer)
    requires PlacedBy(s, groups, n, caller)
    ensures Pairwise(s, MembersDisjoint)
  {
    forall a, b | 0 <= a < b < |s| ensures MembersDisjoint(s[a], s[b]) {
      assert NamesDiffer(s[a], s[b]);
      forall u | u in s[a].members ensures u !in s[b].members { }
    }
  }

  /** A caller in no group: the first phase of a join places it correctly. */
  lemma FreshPlaced(groups: seq<Group>, n: string, caller: string)
    requires forall k :: 0 <= k < |groups| ==> caller !in groups[k].members
    ensures PlacedBy(WithCaller(groups, n, caller), groups, n, caller)
  {
    var j := WithCaller(groups, n, caller);
    WithCallerShape(groups, n, caller);
    forall k, u | 0 <= k < |j| && u in j[k].members
      ensures if u == caller then j[k].name == n else k < |groups| && u in groups[k].members
    {
      if k < |groups| && groups[k].name == n {
        assert u in groups[k].members || u == caller;
      }
    }
  }

  /** A caller switching away from `groups[p]` is placed correctly too. */
  lemma SwitchedPlaced(groups: seq<Group>, n: string, caller: string, p: nat, rand: Fraction)
    requires InUnitInterval(rand) && ValidGroups(groups)
    requires p < |groups| && caller in groups[p].members && groups[p].name != n
    ensures PlacedBy(Switched(groups, n, caller, p, rand), groups, n, caller)
  {
    var s := Switched(groups, n, caller, p, rand);
    WithCallerShape(groups, n, caller);
    OnlyGroup(groups, caller, p);
    forall k, u | 0 <= k < |s| && u in s[k].members
      ensures if u == caller then s[k].name == n else k < |groups| && u in groups[k].members
    {
      if k == p {
        assert u in Without(groups[p].members, caller);
      } else if k < |groups| && groups[k].name == n {
        assert u in groups[k].members || u == caller;
      }
    }
  }

  /** The groups a join does not leave are well formed afterwards. */
  lemma OthersWellFormed(groups: seq<Group>, n: string, caller: string, s: seq<Group>, p: int)
    requires forall g :: g in groups ==> WellFormed(g)
    requires forall k :: 0 <= k < |groups| && k != p ==> caller !in groups[k].members
    requires |s| == |WithCaller(groups, n, caller)|
    requires forall k :: 0 <= k < |s| && k != p ==> s[k] == WithCaller(groups, n, caller)[k]
    ensures forall k :: 0 <= k < |s| && k != p ==> WellFormed(s[k])
  {
    WithCallerShape(groups, n, caller);
    forall k | 0 <= k < |s| && k != p ensures WellFormed(s[k]) {
      if k < |groups| {
        assert WellFormed(groups[k]);
        if groups[k].name == n {
          AppendFreshDistinct(groups[k].members, caller);
        }
      }
    }
  }

  /** The previous group, if members remain, is well formed after the leave. */
  lemma LeaveWellFormed(groups: seq<Group>, caller: string, p: nat, rand: Fraction)
    requires InUnitInterval(rand) && ValidGroups(groups)
    requires p < |groups| && caller in groups[p].members
    ensures var g := Leave(groups[p], caller, LeadsAGroup(groups, caller), rand);
      |g.members| > 0 ==> WellFormed(g)
  {
    var left := Without(groups[p].members, caller);
    LeadsAGroupIsOwnGroup(groups, caller, p);
    assert WellFormed(groups[p]);
    FilterPreservesPairwise(groups[p].members, (m: string) => m != caller, Differ);
  }

  /** A successful join keeps the registry invariants (at most one group per
      user, unique names, leader among members, no empty group), and leaves
      the caller in a group of the requested name. */
  lemma JoinPreservesInvariants(d: Dataset, caller: string, name: Option<string>, rand: Fraction)
    requires InUnitInterval(rand) && ValidGroups(d.groups)
    ensures var r := JoinGroup(d, caller, name, rand);
      r.Joined? ==> ValidGroups(r.written.groups) && InGroupNamed(r.written.groups, caller, name.value)
  {
    if name.Some? && name.value != "" {
      var n := name.value;
      var groups := d.groups;
      match FindGroupOf(groups, caller)
      case None =>
        FreshJoinValid(groups, n, caller);
      case Some(p) =>
        if groups[p].name != n {
          SwitchValid(groups, n, caller, p, rand);
        }
    }
  }

  /** A caller in no group joins: the invariants hold afterwards. */
  lemma FreshJoinValid(groups: seq<Group>, n: string, caller: string)
    requires ValidGroups(groups)
    requires forall k :: 0 <= k < |groups| ==> caller !in groups[k].members
    ensures ValidGroups(WithCaller(groups, n, caller)) && InGroupNamed(WithCaller(groups, n, caller), caller, n)
  {
    var j := WithCaller(groups, n, caller);
    WithCallerNames(groups, n, caller);
    FreshPlaced(groups, n, caller);
    PlacedDisjoint(j, groups, n, caller);
    OthersWellFormed(groups, n, caller, j, -1);
    forall g | g in j ensures WellFormed(g) {
      var k :| 0 <= k < |j| && j[k] == g;
    }
  }

  /** A switching join keeps group names unique and places the caller in a
      group called `n`. */
  lemma SwitchedNames(groups: seq<Group>, n: string, caller: string, p: nat, rand: Fraction)
    requires InUnitInterval(rand) && Pairwise(groups, NamesDiffer)
    requires p < |groups| && groups[p].name != n
    ensures var s := Switched(groups, n, caller, p, rand);
      Pairwise(s, NamesDiffer) && InGroupNamed(s, caller, n) && s[p].name == groups[p].name
  {
    var j := WithCaller(groups, n, caller);
    var s := Switched(groups, n, caller, p, rand);
    WithCallerShape(groups, n, caller);
    WithCallerNames(groups, n, caller);
    forall a, b | 0 <= a < b < |s| ensures NamesDiffer(s[a], s[b]) {
      assert NamesDiffer(j[a], j[b]);
    }
    var t :| 0 <= t < |j| && j[t].name == n && caller in j[t].members;
    assert s[t] == j[t];
  }

  /** Deleting the emptied group (every group of its name) keeps the
      invariants, and keeps the caller's new group. */
  lemma DropEmptied(s: seq<Group>, p: nat, n: string, caller: string)
    requires p < |s| && s[p].name != n
    requires Pairwise(s, MembersDisjoint) && Pairwise(s, NamesDiffer)
    requires forall k :: 0 <= k < |s| && k != p ==> WellFormed(s[k])
    requires InGroupNamed(s, caller, n)
    ensures ValidGroups(RemoveNamed(s, s[p].name)) && InGroupNamed(RemoveNamed(s, s[p].name), caller, n)
  {
    var pn := s[p].name;
    var w := RemoveNamed(s, pn);
    FilterPreservesPairwise(s, (g: Group) => g.name != pn, MembersDisjoint);
    FilterPreservesPairwise(s, (g: Group) => g.name != pn, NamesDiffer);
    forall g | g in w ensures WellFormed(g) {
      var k :| 0 <= k < |s| && s[k] == g;
    }
    var t :| 0 <= t < |s| && s[t].name == n && caller in s[t].members;
    assert s[t] in w;
    var i :| 0 <= i < |w| && w[i] == s[t];
  }

  /** What a switching join establishes before the emptiness test: disjoint
      memberships, unique names, the caller in a group called `n`, and every
      group well formed except possibly the emptied previous one. */
  lemma SwitchedFacts(groups: seq<Group>, n: string, caller: string, p: nat, rand: Fraction)
    requires InUnitInterval(rand) && ValidGroups(groups)
    requires p < |groups| && caller in groups[p].members && groups[p].name != n
    ensures var s := Switched(groups, n, caller, p, rand);
      && Pairwise(s, MembersDisjoint) && Pairwise(s, NamesDiffer)
      && InGroupNamed(s, caller, n) && s[p].name == groups[p].name
      && (forall k :: 0 <= k < |s| && k != p ==> WellFormed(s[k]))
      && (|s[p].members| > 0 ==> WellFormed(s[p]))
  {
    var s := Switched(groups, n, caller, p, rand);
    SwitchedNames(groups, n, caller, p, rand);
    SwitchedPlaced(groups, n, caller, p, rand);
    PlacedDisjoint(s, groups, n, caller);
    OnlyGroup(groups, caller, p);
    OthersWellFormed(groups, n, caller, s, p);
    LeaveWellFormed(groups, caller, p, rand);
  }

  /** A switch that leaves members behind keeps the invariants. */
  lemma SwitchKeptValid(groups: seq<Group>, n: string, caller: string, p: nat, rand: Fraction)
    requires InUnitInterval(rand) && ValidGroups(groups)
    requires p < |groups| && caller in groups[p].members && groups[p].name != n
    requires |Switched(groups, n, caller, p, rand)[p].members| > 0
    ensures ValidGroups(Switched(groups, n, caller, p, rand))
    ensures InGroupNamed(Switched(groups, n, caller, p, rand), caller, n)
  {
    var s := Switched(groups, n, caller, p, rand);
    SwitchedFacts(groups, n, caller, p, rand);
    forall g | g in s ensures WellFormed(g) {
      var k :| 0 <= k < |s| && s[k] == g;
    }
  }

  /** A switch that empties the previous group, which is then deleted, keeps
      the invariants. */
  lemma SwitchDroppedValid(groups: seq<Group>, n: string, caller: string, p: nat, rand: Fraction)
    requires InUnitInterval(rand) && ValidGroups(groups)
    requires p < |groups| && caller in groups[p].members && groups[p].name != n
    requires |Switched(groups, n, caller, p, rand)[p].members| == 0
    ensures ValidGroups(RemoveNamed(Switched(groups, n, caller, p, rand), groups[p].name))
    ensures InGroupNamed(RemoveNamed(Switched(groups, n, caller, p, rand), groups[p].name), caller, n)
  {
    SwitchedFacts(groups, n, caller, p, rand);
    DropEmptied(Switched(groups, n, caller, p, rand), p, n, caller);
  }

  /** A caller switching away from `groups[p]`: the invariants hold afterwards. */
  lemma SwitchValid(groups: seq<Group>, n: string, caller: string, p: nat, rand: Fraction)
    requires InUnitInterval(rand) && ValidGroups(groups)
    requires p < |groups| && caller in groups[p].members && groups[p].name != n
    ensures var s := Switched(groups, n, caller, p, rand);
      var w := if |s[p].members| == 0 then RemoveNamed(s, groups[p].name) else s;
      ValidGroups(w) && InGroupNamed(w, caller, n)
  {
    if |Switched(groups, n, caller, p, rand)[p].members| == 0 {
      SwitchDroppedValid(groups, n, caller, p, rand);
    } else {
      SwitchKeptValid(groups, n, caller, p, rand);
    }
  }

  /** One `POST /joinGroup` request: the authenticated caller, the body's
      `name` field, and the value `Math.random()` would return. */
  datatype JoinRequest = JoinRequest(caller: string, name: Option<string>, rand: Fraction)

  /** Serving one join request against the store: `db.read()`, then
      `db.update(...)` only when the join reaches line 117. */
  function ServeJoin(st: Store, rq: JoinRequest): Store
    requires InUnitInterval(rq.rand)
  {
    match JoinGroup(Read(st), rq.caller, rq.name, rq.rand)
    case Joined(w) => Update(st, w)
    case _ => st
  }

  /** Asking to join the group one is already in writes nothing: the store is
      left exactly as it was. */
  lemma RejoinLeavesStoreUnchanged(st: Store, caller: string, rand: Fraction, p: nat)
    requires InUnitInterval(rand)
    requires FindGroupOf(Read(st).groups, caller) == Some(p)
    ensures ServeJoin(st, JoinRequest(caller, Some(Read(st).groups[p].name), rand)) == st
  {
  }

  /** The store after serving `requests` one after another. */
  function Replay(st: Store, requests: seq<JoinRequest>): Store
    requires forall i :: 0 <= i < |requests| ==> InUnitInterval(requests[i].rand)
    decreases |requests|
  {
    if |requests| == 0 then st
    else Replay(ServeJoin(st, requests[0]), requests[1..])
  }

  /** After any sequence of joins every user is still in at most one group,
      every leader is a member, no group is empty, names are unique, and no
      user record has changed. */
  lemma {:induction false} ReplayPreservesInvariants(st: Store, requests: seq<JoinRequest>)
    requires forall i :: 0 <= i < |requests| ==> InUnitInterval(requests[i].rand)
    requires ValidGroups(Read(st).groups)
    ensures ValidGroups(Read(Replay(st, requests)).groups)
    ensures Read(Replay(st, requests)).users == Read(st).users
    decreases |requests|
  {
    if |requests| > 0 {
      var rq := requests[0];
      JoinPreservesInvariants(Read(st), rq.caller, rq.name, rq.rand);
      ReplayPreservesInvariants(ServeJoin(st, rq), requests[1..]);
    }
  }
}
