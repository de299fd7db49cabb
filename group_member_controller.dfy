/** The group member controller: a moderator adds users in bulk up to the
    group's capacity, an admin changes a member's role, and a member is
    removed by a moderator or by themself. */
module GroupMemberController {
  import opened Basics
  import opened GroupModel
  import opened Events
  import opened Store
  import GroupController

  // ---------------------------------------------------------------------
  // Adding members in bulk

  /** The pivot table and the users added so far by `store`'s loop. */
  datatype Admission = Admission(members: Memberships, added: seq<UserId>)

  /** `store`'s loop over `ids` in list order: a user is attached, with
      role member, when not yet a member and the group is below `cap`
      at that point. Defined on the prefix processed so far. */
  function Admit(ms: Memberships, gid: GroupId, cap: int, ids: seq<UserId>): (r: Admission)
    ensures forall u :: u in r.added ==> u in ids
    ensures |r.added| <= |ids|
    decreases |ids|
  {
    if ids == [] then Admission(ms, [])
    else
      var prev := Admit(ms, gid, cap, ids[..|ids| - 1]);
      var u := ids[|ids| - 1];
      if !IsMember(prev.members, gid, u) && MemberCount(prev.members, gid) < cap
      then Admission(prev.members[(gid, u) := Member], prev.added + [u])
      else prev
  }

  /** The users of `ids` who are not members of the group, each once, in
      the order of their first occurrence. */
  function Newcomers(ms: Memberships, gid: GroupId, ids: seq<UserId>): (r: seq<UserId>)
    ensures forall u :: u in r <==> u in ids && !IsMember(ms, gid, u)
    ensures forall i, j :: 0 <= i < j < |r| ==> r[i] != r[j]
    decreases |ids|
  {
    if ids == [] then []
    else
      var prev := Newcomers(ms, gid, ids[..|ids| - 1]);
      var u := ids[|ids| - 1];
      assert forall v :: v in ids <==> v in ids[..|ids| - 1] || v == u;
      if IsMember(ms, gid, u) || u in prev then prev else prev + [u]
  }

  /** The free places of a group: none when it is at or above capacity. */
  function Room(ms: Memberships, gid: GroupId, cap: int): nat {
    if MemberCount(ms, gid) < cap then cap - MemberCount(ms, gid) else 0
  }

  function Take(s: seq<UserId>, n: nat): (r: seq<UserId>)
    ensures |r| == if n < |s| then n else |s|
  {
    if n < |s| then s[..n] else s
  }

  /** The effect of the loop on the pivot table: exactly the added users
      gain a row for the group, with role member. */
  ghost predicate AttachedExactly(ms: Memberships, ms': Memberships, gid: GroupId, added: seq<UserId>) {
    (forall k :: k in ms' <==> k in ms || (k.0 == gid && k.1 in added)) &&
    (forall k :: k in ms ==> ms'[k] == ms[k]) &&
    (forall u :: u in added ==> ms'[(gid, u)] == Member)
  }

  /** The capacity goes to the earliest newcomers of the list: the users
      added are exactly the first `Room` newcomers, each attached once,
      and the count grows by their number. */
  lemma {:induction false} AdmitTakesEarliestNewcomers(ms: Memberships, gid: GroupId, cap: int, ids: seq<UserId>)
    ensures var a := Admit(ms, gid, cap, ids);
      a.added == Take(Newcomers(ms, gid, ids), Room(ms, gid, cap)) &&
      AttachedExactly(ms, a.members, gid, a.added) &&
      MemberCount(a.members, gid) == MemberCount(ms, gid) + |a.added|
    decreases |ids|
  {
    if ids != [] {
      var init := ids[..|ids| - 1];
      var u := ids[|ids| - 1];
      AdmitTakesEarliestNewcomers(ms, gid, cap, init);
      var prev := Admit(ms, gid, cap, init);
      var n := Newcomers(ms, gid, init);
      var room := Room(ms, gid, cap);
      if !IsMember(prev.members, gid, u) && MemberCount(prev.members, gid) < cap {
        AdmitAttaches(ms, gid, cap, prev, n, u);
        assert Newcomers(ms, gid, ids) == n + [u];
      } else if IsMember(ms, gid, u) || u in n {
        assert Newcomers(ms, gid, ids) == n;
      } else {
        AdmitRefuses(ms, gid, cap, prev, n, u);
        assert Newcomers(ms, gid, ids) == n + [u];
      }
    }
  }

  /** The step of the loop that attaches `u`: u is a newcomer not seen
      before, and there was room left. */
  lemma AdmitAttaches(ms: Memberships, gid: GroupId, cap: int, prev: Admission, n: seq<UserId>, u: UserId)
    requires prev.added == Take(n, Room(ms, gid, cap)) && AttachedExactly(ms, prev.members, gid, prev.added)
    requires MemberCount(prev.members, gid) == MemberCount(ms, gid) + |prev.added|
    requires !IsMember(prev.members, gid, u) && MemberCount(prev.members, gid) < cap
    ensures !IsMember(ms, gid, u) && u !in n
    ensures var a := Admission(prev.members[(gid, u) := Member], prev.added + [u]);
      a.added == Take(n + [u], Room(ms, gid, cap)) &&
      AttachedExactly(ms, a.members, gid, a.added) &&
      MemberCount(a.members, gid) == MemberCount(ms, gid) + |a.added|
  {
    assert !IsMember(ms, gid, u) && u !in prev.added;
    assert |prev.added| < Room(ms, gid, cap);
    assert prev.added == n;
    AttachCount(prev.members, gid, u, Member, gid);
  }

  /** The step of the loop that skips a newcomer `u` not seen before: the
      group was full, and nothing changes. */
  lemma AdmitRefuses(ms: Memberships, gid: GroupId, cap: int, prev: Admission, n: seq<UserId>, u: UserId)
    requires prev.added == Take(n, Room(ms, gid, cap)) && AttachedExactly(ms, prev.members, gid, prev.added)
    requires MemberCount(prev.members, gid) == MemberCount(ms, gid) + |prev.added|
    requires !IsMember(ms, gid, u) && u !in n
    requires IsMember(prev.members, gid, u) || MemberCount(prev.members, gid) >= cap
    ensures prev.added == Take(n + [u], Room(ms, gid, cap))
  {
    assert !IsMember(prev.members, gid, u) by {
      assert u !in prev.added by { assert forall v :: v in prev.added ==> v in n; }
    }
    assert Take(n + [u], Room(ms, gid, cap)) == Take(n, Room(ms, gid, cap));
  }

  /** `store` never takes a group past its capacity, and never adds a user
      twice or a user who was already a member. */
  lemma AdmitWithinCapacity(ms: Memberships, gid: GroupId, cap: int, ids: seq<UserId>)
    requires MemberCount(ms, gid) <= cap
    ensures var a := Admit(ms, gid, cap, ids);
      MemberCount(a.members, gid) <= cap &&
      (forall i, j :: 0 <= i < j < |a.added| ==> a.added[i] != a.added[j]) &&
      (forall u :: u in a.added ==> u in ids && !IsMember(ms, gid, u))
  {
    AdmitTakesEarliestNewcomers(ms, gid, cap, ids);
    var n := Newcomers(ms, gid, ids);
    var a := Admit(ms, gid, cap, ids);
    assert forall u :: u in a.added ==> u in n;
  }

  /** A newcomer left out of a bulk add was refused for lack of room: the
      group is full afterwards. */
  lemma AdmitSkipsOnlyWhenFull(ms: Memberships, gid: GroupId, cap: int, ids: seq<UserId>, u: UserId)
    requires u in ids && !IsMember(ms, gid, u)
    requires u !in Admit(ms, gid, cap, ids).added
    ensures MemberCount(Admit(ms, gid, cap, ids).members, gid) >= cap
  {
    AdmitTakesEarliestNewcomers(ms, gid, cap, ids);
    var n := Newcomers(ms, gid, ids);
    assert u in n;
  }

  /** `store`'s guards: a moderator only, then the validation of
      `user_ids` (a non-empty list of existing user ids). */
  function AddDecision(group: Option<Group>, ms: Memberships, actor: UserId, users: seq<User>,
                       userIds: Option<seq<UserId>>): (r: Outcome)
    ensures r == Ok <==>
      group.Some? && IsModerator(ms, group.value.id, actor) && userIds.Some? &&
      userIds.value != [] && forall u :: u in userIds.value ==> UserExists(users, u)
    ensures r == Forbidden <==> group.Some? && !IsModerator(ms, group.value.id, actor)
  {
    if group.None? then NotFound
    else if !IsModerator(ms, group.value.id, actor) then Forbidden
    else if userIds.None? || userIds.value == [] || exists u :: u in userIds.value && !UserExists(users, u) then Invalid
    else Ok
  }

  /** The UserJoinedGroup broadcasts for the users added, in order. */
  function JoinNotices(users: seq<User>, g: Group, added: seq<UserId>): (r: seq<Broadcast>)
    requires forall u :: u in added ==> UserExists(users, u)
    ensures |r| == |added|
    ensures forall i :: 0 <= i < |added| ==> r[i].event.UserJoinedGroup? && r[i].event.user.id == added[i]
  {
    seq(|added|, i requires 0 <= i < |added| =>
      Broadcast(UserJoinedGroup(FindUser(users, added[i]).value, g), false))
  }

  /** `store`'s loop: each user of `ids` in turn is attached when not a
      member and the group is below capacity, and announced. */
  method AdmitRows(ms0: Memberships, g: Group, ids: seq<UserId>, users: seq<User>)
    returns (ms: Memberships, added: seq<UserId>, notices: seq<Broadcast>)
    requires forall u :: u in ids ==> UserExists(users, u)
    ensures Admission(ms, added) == Admit(ms0, g.id, g.maxMembers, ids)
    ensures (forall u :: u in added ==> UserExists(users, u)) && notices == JoinNotices(users, g, added)
  {
    ms, added, notices := ms0, [], [];
    var i := 0;
    while i < |ids|
      invariant 0 <= i <= |ids|
      invariant Admission(ms, added) == Admit(ms0, g.id, g.maxMembers, ids[..i])
      invariant forall u :: u in added ==> u in ids
      invariant notices == JoinNotices(users, g, added)
    {
      assert ids[..i + 1][..i] == ids[..i];
      var u := ids[i];
      if !IsMember(ms, g.id, u) && MemberCount(ms, g.id) < g.maxMembers {
        ms := ms[(g.id, u) := Member];
        added := added + [u];
        notices := notices + [Broadcast(UserJoinedGroup(FindUser(users, u).value, g), false)];
      }
      i := i + 1;
    }
    assert ids[..i] == ids;
  }

  /** A bulk add keeps the groups table valid: rows are only added, for an
      existing group. */
  lemma AdmitKeepsGroupTable(groups: seq<Group>, ms: Memberships, next: GroupId, g: Group, ids: seq<UserId>)
    requires GroupTable(groups, ms, next) && g in groups
    ensures GroupTable(groups, Admit(ms, g.id, g.maxMembers, ids).members, next)
  {
    AdmitTakesEarliestNewcomers(ms, g.id, g.maxMembers, ids);
  }

  /** `store`: a moderator adds the listed users, in order, while there is
      room; the number reported is the number of users added, and each of
      them is announced once. */
  method AddMembers(db: Database, actor: UserId, gid: GroupId, userIds: Option<seq<UserId>>)
    returns (r: Outcome, added: seq<UserId>)
    requires db.Valid()
    modifies db`members, db`outbox
    ensures db.Valid()
    ensures r == AddDecision(FindGroup(db.groups, gid), old(db.members), actor, db.users, userIds)
    ensures r == Ok ==> var g := FindGroup(db.groups, gid).value;
      Admission(db.members, added) == Admit(old(db.members), gid, g.maxMembers, userIds.value) &&
      (forall u :: u in added ==> UserExists(db.users, u)) &&
      db.outbox == old(db.outbox) + JoinNotices(db.users, g, added)
    ensures r != Ok ==> added == [] && db.members == old(db.members) && db.outbox == old(db.outbox)
  {
    var group := FindGroup(db.groups, gid);
    r := AddDecision(group, db.members, actor, db.users, userIds);
    if r != Ok {
      return r, [];
    }
    var ms, notices;
    ms, added, notices := AdmitRows(db.members, group.value, userIds.value, db.users);
    AdmitKeepsGroupTable(db.groups, db.members, db.nextGroupId, group.value, userIds.value);
    db.SetMembers(ms);
    db.Publish(notices);
  }

  // ---------------------------------------------------------------------
  // Changing a role

  /** `update`'s guards, in order: the route-bound group and user exist,
      the actor is an admin, the target is a member, the role is valid. */
  function RoleDecision(group: Option<Group>, users: seq<User>, ms: Memberships, actor: UserId,
                        user: UserId, role: Option<string>): (r: Outcome)
    ensures r == Ok <==>
      group.Some? && UserExists(users, user) && IsAdmin(ms, group.value.id, actor) &&
      IsMember(ms, group.value.id, user) && role.Some? && ParseRole(role.value).Some?
    ensures r == Forbidden <==> group.Some? && UserExists(users, user) && !IsAdmin(ms, group.value.id, actor)
    ensures r == Invalid ==> group.Some? && IsAdmin(ms, group.value.id, actor) && IsMember(ms, group.value.id, user)
  {
    if group.None? || !UserExists(users, user) then NotFound
    else if !IsAdmin(ms, group.value.id, actor) then Forbidden
    else if !IsMember(ms, group.value.id, user) then NotFound
    else if role.None? || ParseRole(role.value).None? then Invalid
    else Ok
  }

  /** `update`: only the target's row changes, to the requested role; the
      member count stays. */
  method ChangeRole(db: Database, actor: UserId, gid: GroupId, user: UserId, role: Option<string>) returns (r: Outcome)
    requires db.Valid()
    modifies db`members
    ensures db.Valid()
    ensures r == RoleDecision(FindGroup(db.groups, gid), db.users, old(db.members), actor, user, role)
    ensures r == Ok ==> db.members == old(db.members)[(gid, user) := ParseRole(role.value).value]
    ensures r == Ok ==> RoleName(db.members[(gid, user)]) == role.value
    ensures r != Ok ==> db.members == old(db.members)
  {
    var group := FindGroup(db.groups, gid);
    r := RoleDecision(group, db.users, db.members, actor, user, role);
    if r != Ok {
      return;
    }
    var ms := db.members[(gid, user) := ParseRole(role.value).value];
    assert ms.Keys == db.members.Keys;
    db.SetMembers(ms);
  }

  /** A role change keeps every group's member count. */
  lemma ChangeRoleKeepsCounts(ms: Memberships, gid: GroupId, user: UserId, role: Role, h: GroupId)
    requires IsMember(ms, gid, user)
    ensures MemberCount(ms[(gid, user) := role], h) == MemberCount(ms, h)
  {
    RoleChangeCount(ms, gid, user, role, h);
  }

  // ---------------------------------------------------------------------
  // Removing a member

  /** `destroy`'s guards, in order: the route-bound group and user exist;
      a moderator or the target themself; never the creator; the target
      must be a member. */
  function RemoveDecision(group: Option<Group>, users: seq<User>, ms: Memberships, actor: UserId, user: UserId): (r: Outcome)
    ensures r == Ok <==>
      group.Some? && UserExists(users, user) &&
      (IsModerator(ms, group.value.id, actor) || actor == user) &&
      group.value.createdBy != user && IsMember(ms, group.value.id, user)
    ensures group.Some? && group.value.createdBy == user ==> r != Ok
    ensures r == Forbidden ==>
      group.Some? && (group.value.createdBy == user || (!IsModerator(ms, group.value.id, actor) && actor != user))
  {
    if group.None? || !UserExists(users, user) then NotFound
    else if !IsModerator(ms, group.value.id, actor) && actor != user then Forbidden
    else if group.value.createdBy == user then Forbidden
    else if !IsMember(ms, group.value.id, user) then NotFound
    else Ok
  }

  /** Once removed, a user who tries to remove themself again is told the
      membership is not found, not that they lack the right. */
  lemma RemovedThenSelfRemoveNotFound(g: Group, users: seq<User>, ms: Memberships, actor: UserId, user: UserId)
    requires RemoveDecision(Some(g), users, ms, actor, user) == Ok
    ensures RemoveDecision(Some(g), users, ms - {(g.id, user)}, user, user) == NotFound
  {
  }

  /** `destroy`: only the target's row is removed, and UserLeftGroup is
      broadcast with the target and the group. */
  method RemoveMember(db: Database, actor: UserId, gid: GroupId, user: UserId) returns (r: Outcome)
    requires db.Valid()
    modifies db`members, db`outbox
    ensures db.Valid()
    ensures r == RemoveDecision(FindGroup(db.groups, gid), db.users, old(db.members), actor, user)
    ensures r == Ok ==> db.members == old(db.members) - {(gid, user)}
    ensures r == Ok ==>
      db.outbox == old(db.outbox) + [Broadcast(UserLeftGroup(FindUser(db.users, user).value, FindGroup(db.groups, gid).value), false)]
    ensures r != Ok ==> db.members == old(db.members) && db.outbox == old(db.outbox)
  {
    var group := FindGroup(db.groups, gid);
    r := RemoveDecision(group, db.users, db.members, actor, user);
    if r != Ok {
      return;
    }
    GroupController.LeaveKeepsGroupTable(db.groups, db.members, db.nextGroupId, gid, user);
    db.SetMembers(db.members - {(gid, user)});
    db.Publish([Broadcast(UserLeftGroup(FindUser(db.users, user).value, group.value), false)]);
  }
}
