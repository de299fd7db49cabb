/** The group controller: viewing, creating, updating and deleting a
    group, and joining and leaving it. Each request's guards are a pure
    decision function; the methods apply the decision to the store. */
module GroupController {
  import opened Basics
  import opened GroupMessages
  import opened GroupModel
  import opened Store
  import opened Ordering

  const DefaultMaxMembers := 100
  const DefaultIsPrivate := false

  /** `max_members`: integer|min:2|max:1000. */
  predicate CapacityInRange(n: int) {
    2 <= n <= 1000
  }

  /** The validation rules shared by create and update: name required and
      at most 255 characters, description at most 1000, capacity in range
      when given. */
  predicate ValidGroupFields(name: Option<string>, description: Option<string>, maxMembers: Option<int>) {
    Filled(name) && |name.value| <= 255 &&
    (description.None? || |description.value| <= 1000) &&
    (maxMembers.None? || CapacityInRange(maxMembers.value))
  }

  /** `show`'s guard: a group that does not exist is a 404, a non-member
      gets 403. */
  function ShowDecision(group: Option<Group>, ms: Memberships, actor: UserId): (r: Outcome)
    ensures r == Ok <==> group.Some? && IsMember(ms, group.value.id, actor)
    ensures r == Forbidden <==> group.Some? && !IsMember(ms, group.value.id, actor)
    ensures r == NotFound <==> group.None?
  {
    if group.None? then NotFound
    else if !IsMember(ms, group.value.id, actor) then Forbidden
    else Ok
  }

  /** `update`'s guards, authorization first: only an admin may update,
      and only with valid fields. */
  function UpdateDecision(group: Option<Group>, ms: Memberships, actor: UserId,
                          name: Option<string>, description: Option<string>, maxMembers: int): (r: Outcome)
    ensures r == Ok <==> group.Some? && IsAdmin(ms, group.value.id, actor) && ValidGroupFields(name, description, Some(maxMembers))
    ensures r == Forbidden <==> group.Some? && !IsAdmin(ms, group.value.id, actor)
    ensures r == Invalid ==> group.Some? && IsAdmin(ms, group.value.id, actor)
  {
    if group.None? then NotFound
    else if !IsAdmin(ms, group.value.id, actor) then Forbidden
    else if !ValidGroupFields(name, description, Some(maxMembers)) then Invalid
    else Ok
  }

  /** The row after `$group->update([...])`: the request's field values,
      with `updated_at` set to now only when one of them differs from the
      stored value. Eloquent saves only changed attributes, and a save with
      none changes nothing, timestamp included. */
  function Edited(g: Group, name: string, description: Option<string>, isPrivate: bool, maxMembers: int, now: Time): (r: Group)
    ensures r.id == g.id && r.createdBy == g.createdBy && r.image == g.image
    ensures r.name == name && r.description == description && r.isPrivate == isPrivate && r.maxMembers == maxMembers
    ensures r == g <==> g.name == name && g.description == description && g.isPrivate == isPrivate && g.maxMembers == maxMembers
    ensures r != g ==> r.updatedAt == now
  {
    var r := g.(name := name, description := description, isPrivate := isPrivate, maxMembers := maxMembers);
    if r == g then g else r.(updatedAt := now)
  }

  /** `destroy`'s guard: an admin of the group or its creator. */
  function DestroyDecision(group: Option<Group>, ms: Memberships, actor: UserId): (r: Outcome)
    ensures r == Ok <==> group.Some? && (IsAdmin(ms, group.value.id, actor) || group.value.createdBy == actor)
    ensures r != Ok ==> r == NotFound || r == Forbidden
  {
    if group.None? then NotFound
    else if !IsAdmin(ms, group.value.id, actor) && group.value.createdBy != actor then Forbidden
    else Ok
  }

  /** `join`'s guards, in order: already a member, then a full group. */
  function JoinDecision(group: Option<Group>, ms: Memberships, actor: UserId): (r: Outcome)
    ensures r == Ok <==>
      group.Some? && !IsMember(ms, group.value.id, actor) && MemberCount(ms, group.value.id) < group.value.maxMembers
    ensures r == Refused(AlreadyMember) <==> group.Some? && IsMember(ms, group.value.id, actor)
    ensures r == Refused(GroupFull) <==>
      group.Some? && !IsMember(ms, group.value.id, actor) && MemberCount(ms, group.value.id) >= group.value.maxMembers
  {
    if group.None? then NotFound
    else if IsMember(ms, group.value.id, actor) then Refused(AlreadyMember)
    else if MemberCount(ms, group.value.id) >= group.value.maxMembers then Refused(GroupFull)
    else Ok
  }

  /** `leave`'s guards, in order: not a member, then the creator. */
  function LeaveDecision(group: Option<Group>, ms: Memberships, actor: UserId): (r: Outcome)
    ensures r == Ok <==> group.Some? && IsMember(ms, group.value.id, actor) && group.value.createdBy != actor
    ensures r == Refused(NotAMember) <==> group.Some? && !IsMember(ms, group.value.id, actor)
    ensures r == Refused(CreatorCannotLeave) <==> group.Some? && IsMember(ms, group.value.id, actor) && group.value.createdBy == actor
  {
    if group.None? then NotFound
    else if !IsMember(ms, group.value.id, actor) then Refused(NotAMember)
    else if group.value.createdBy == actor then Refused(CreatorCannotLeave)
    else Ok
  }

  /** A join that the guards let through adds exactly one member and never
      takes the count past the group's capacity. */
  lemma JoinWithinCapacity(g: Group, ms: Memberships, actor: UserId)
    requires JoinDecision(Some(g), ms, actor) == Ok
    ensures MemberCount(ms[(g.id, actor) := Member], g.id) == MemberCount(ms, g.id) + 1
    ensures MemberCount(ms[(g.id, actor) := Member], g.id) <= g.maxMembers
  {
    AttachCount(ms, g.id, actor, Member, g.id);
  }

  /** A group with capacity 2 holding only its creator admits one more
      user; the next one is refused as the group is full. */
  lemma CapacityScenario(g: Group, creator: UserId, d: UserId, e: UserId)
    requires g.maxMembers == 2 && g.createdBy == creator
    requires creator != d && creator != e && d != e
    ensures var ms := map[(g.id, creator) := Admin];
      JoinDecision(Some(g), ms, d) == Ok &&
      MemberCount(ms[(g.id, d) := Member], g.id) == 2 &&
      JoinDecision(Some(g), ms[(g.id, d) := Member], e) == Refused(GroupFull)
  {
    var ms := map[(g.id, creator) := Admin];
    assert MembersOf(ms, g.id) == {creator};
    AttachCount(ms, g.id, d, Member, g.id);
  }

  // ---------------------------------------------------------------------
  // Table operations

  /** The groups table with the row of `g`'s id replaced by `g`. */
  function ReplaceGroup(groups: seq<Group>, g: Group): (r: seq<Group>)
    ensures |r| == |groups|
    ensures forall i :: 0 <= i < |groups| ==> r[i] == (if groups[i].id == g.id then g else groups[i])
  {
    seq(|groups|, i requires 0 <= i < |groups| => if groups[i].id == g.id then g else groups[i])
  }

  /** The groups table without the group `gid`. */
  function WithoutGroup(groups: seq<Group>, gid: GroupId): (r: seq<Group>)
    ensures forall g :: g in r <==> g in groups && g.id != gid
  {
    if groups == [] then []
    else if groups[0].id == gid then WithoutGroup(groups[1..], gid)
    else [groups[0]] + WithoutGroup(groups[1..], gid)
  }

  /** The pivot table without the rows of group `gid`. */
  function WithoutMembersOf(ms: Memberships, gid: GroupId): (r: Memberships)
    ensures forall k :: k in r <==> k in ms && k.0 != gid
    ensures forall k :: k in r ==> r[k] == ms[k]
  {
    map k | k in ms && k.0 != gid :: ms[k]
  }

  /** Deleting a group keeps the remaining groups in id order. */
  lemma {:induction false} WithoutGroupIncreasing(groups: seq<Group>, gid: GroupId)
    requires IncreasingGroupIds(groups)
    ensures IncreasingGroupIds(WithoutGroup(groups, gid))
  {
    if groups != [] && groups[0].id != gid {
      var tail := groups[1..];
      WithoutGroupIncreasing(tail, gid);
      var rest := WithoutGroup(tail, gid);
      forall g | g in rest ensures groups[0].id < g.id {
        var k :| 0 <= k < |tail| && tail[k] == g;
        assert groups[k + 1] == g;
      }
      PrependIncreasing(groups[0], rest);
    } else if groups != [] {
      WithoutGroupIncreasing(groups[1..], gid);
    }
  }

  lemma PrependIncreasing(g: Group, rest: seq<Group>)
    requires IncreasingGroupIds(rest)
    requires forall h :: h in rest ==> g.id < h.id
    ensures IncreasingGroupIds([g] + rest)
  {
    var r := [g] + rest;
    forall i, j | 0 <= i < j < |r| ensures r[i].id < r[j].id {
      assert r[j] == rest[j - 1];
      if i > 0 {
        assert r[i] == rest[i - 1];
      }
    }
  }

  // ---------------------------------------------------------------------
  // Keeping the tables valid

  /** A new group, stored under the next id with its creator attached as
      admin, keeps the groups table valid, and the creator is its only
      member. */
  lemma CreateKeepsGroupTable(groups: seq<Group>, ms: Memberships, next: GroupId, g: Group)
    requires GroupTable(groups, ms, next) && g.id == next
    ensures GroupTable(groups + [g], ms[(g.id, g.createdBy) := Admin], next + 1)
    ensures forall h :: GroupExists(groups, h) ==> GroupExists(groups + [g], h)
    ensures MembersOf(ms[(g.id, g.createdBy) := Admin], g.id) == {g.createdBy}
  {
    var groups', ms' := groups + [g], ms[(g.id, g.createdBy) := Admin];
    forall h | GroupExists(groups, h) ensures GroupExists(groups', h) {
      var x :| x in groups && x.id == h;
      assert x in groups';
    }
    assert g in groups';
    forall k | k in ms ensures k.0 != g.id {
      var x :| x in groups && x.id == k.0;
      var i :| 0 <= i < |groups| && groups[i] == x;
    }
    assert MembersOf(ms', g.id) == {g.createdBy};
  }

  /** Rewriting a group's fields but not its id or creator keeps the groups
      table valid and every group id in it. */
  lemma UpdateKeepsGroupTable(groups: seq<Group>, ms: Memberships, next: GroupId, g: Group)
    requires GroupTable(groups, ms, next)
    requires FindGroup(groups, g.id).Some? && FindGroup(groups, g.id).value.createdBy == g.createdBy
    ensures GroupTable(ReplaceGroup(groups, g), ms, next)
    ensures forall h :: GroupExists(groups, h) ==> GroupExists(ReplaceGroup(groups, g), h)
  {
    var old_ := FindGroup(groups, g.id).value;
    forall i | 0 <= i < |groups| && groups[i].id == g.id ensures groups[i].createdBy == g.createdBy {
      RowOfId(groups, old_, i);
    }
    SameKeysSameTable(groups, ReplaceGroup(groups, g), ms, next);
  }

  /** In a table with increasing ids, the row at an index is the row with
      its id. */
  lemma RowOfId(groups: seq<Group>, x: Group, i: int)
    requires IncreasingGroupIds(groups) && x in groups
    requires 0 <= i < |groups| && groups[i].id == x.id
    ensures groups[i] == x
  {
    var k :| 0 <= k < |groups| && groups[k] == x;
  }

  /** An update that repeats the stored values leaves the groups table as
      it was, `updated_at` included, so the group keeps its place in the
      lists ordered by `updated_at`. */
  lemma CleanUpdateChangesNothing(groups: seq<Group>, gid: GroupId, now: Time)
    requires IncreasingGroupIds(groups) && FindGroup(groups, gid).Some?
    ensures var g := FindGroup(groups, gid).value;
      ReplaceGroup(groups, Edited(g, g.name, g.description, g.isPrivate, g.maxMembers, now)) == groups
  {
    var g := FindGroup(groups, gid).value;
    forall i | 0 <= i < |groups| && groups[i].id == gid ensures groups[i] == g {
      RowOfId(groups, g, i);
    }
  }

  /** A table whose rows keep their ids and creators, index by index, is as
      valid as the one it replaces and has the same group ids. */
  lemma SameKeysSameTable(groups: seq<Group>, r: seq<Group>, ms: Memberships, next: GroupId)
    requires GroupTable(groups, ms, next) && |r| == |groups|
    requires forall i :: 0 <= i < |groups| ==> r[i].id == groups[i].id && r[i].createdBy == groups[i].createdBy
    ensures GroupTable(r, ms, next)
    ensures forall h :: GroupExists(groups, h) ==> GroupExists(r, h)
  {
    forall h | GroupExists(groups, h) ensures GroupExists(r, h) {
      var x :| x in groups && x.id == h;
      var i :| 0 <= i < |groups| && groups[i] == x;
      assert r[i] in r;
    }
  }

  /** Deleting a group with its pivot rows keeps the groups table valid. */
  lemma DestroyKeepsGroupTable(groups: seq<Group>, ms: Memberships, next: GroupId, gid: GroupId)
    requires GroupTable(groups, ms, next)
    ensures GroupTable(WithoutGroup(groups, gid), WithoutMembersOf(ms, gid), next)
  {
    var r, ms' := WithoutGroup(groups, gid), WithoutMembersOf(ms, gid);
    WithoutGroupIncreasing(groups, gid);
    forall i | 0 <= i < |r| ensures r[i].id < next && IsMember(ms', r[i].id, r[i].createdBy) {
      assert r[i] in r;
      var k :| 0 <= k < |groups| && groups[k] == r[i];
    }
    forall k | k in ms' ensures GroupExists(r, k.0) {
      var x :| x in groups && x.id == k.0;
      assert x in r;
    }
  }

  /** Deleting a group and its messages keeps the group_messages table
      valid against the remaining groups. */
  lemma DestroyKeepsGroupMessageTable(msgs: seq<GroupMessage>, next: MessageId, groups: seq<Group>,
                                      users: seq<User>, gid: GroupId)
    requires GroupMessageTable(msgs, next, groups, users)
    ensures UniqueIds(msgs)
    ensures GroupMessageTable(OnGroupDeleted(msgs, gid), next, WithoutGroup(groups, gid), users)
  {
    var gone := IdsWhere(msgs, Some(gid), None);
    PurgeKeepsRepliesResolved(msgs, gone);
    PurgeIncreasing(msgs, gone);
    PurgeOrigin(msgs, gone);
    var r := OnGroupDeleted(msgs, gid);
    assert r == Purge(msgs, gone);
    forall i | 0 <= i < |r|
      ensures r[i].id < next
      ensures GroupExists(WithoutGroup(groups, gid), r[i].groupId) && UserExists(users, r[i].userId) && r[i].kind.Some?
    {
      assert r[i] in r;
      var o :| o in msgs && o.id !in gone && r[i] == Detach(o, gone);
      var k :| 0 <= k < |msgs| && msgs[k] == o;
      var g :| g in groups && g.id == o.groupId;
      assert g in WithoutGroup(groups, gid);
    }
  }

  /** A join the guards let through keeps the groups table valid. */
  lemma JoinKeepsGroupTable(groups: seq<Group>, ms: Memberships, next: GroupId, gid: GroupId, actor: UserId)
    requires GroupTable(groups, ms, next) && GroupExists(groups, gid)
    ensures GroupTable(groups, ms[(gid, actor) := Member], next)
  {
  }

  /** A leave the guards let through (not by the creator) keeps the groups
      table valid. */
  lemma LeaveKeepsGroupTable(groups: seq<Group>, ms: Memberships, next: GroupId, gid: GroupId, actor: UserId)
    requires GroupTable(groups, ms, next)
    requires FindGroup(groups, gid).Some? && FindGroup(groups, gid).value.createdBy != actor
    ensures GroupTable(groups, ms - {(gid, actor)}, next)
  {
    var g := FindGroup(groups, gid).value;
    forall i | 0 <= i < |groups| && groups[i].id == gid ensures groups[i] == g {
      var k :| 0 <= k < |groups| && groups[k] == g;
      assert k == i;
    }
  }

  // ---------------------------------------------------------------------
  // Requests

  /** `show`, its guard: the page is rendered only for members. */
  method Show(db: Database, actor: UserId, gid: GroupId) returns (r: Outcome, isAdmin: bool, isModerator: bool)
    ensures r == ShowDecision(FindGroup(db.groups, gid), db.members, actor)
    ensures r == Ok ==> isAdmin == IsAdmin(db.members, gid, actor) && isModerator == IsModerator(db.members, gid, actor)
  {
    var group := FindGroup(db.groups, gid);
    r := ShowDecision(group, db.members, actor);
    isAdmin := r == Ok && IsAdmin(db.members, gid, actor);
    isModerator := r == Ok && IsModerator(db.members, gid, actor);
  }

  /** `store`: create the group with the defaults for omitted fields and
      attach the creator as its only member, with role admin. */
  method Create(db: Database, actor: UserId, name: Option<string>, description: Option<string>,
                isPrivate: Option<bool>, maxMembers: Option<int>, now: Time) returns (r: Outcome, gid: GroupId)
    requires db.Valid()
    modifies db`groups, db`members, db`nextGroupId
    ensures db.Valid()
    ensures r == (if ValidGroupFields(name, description, maxMembers) then Ok else Invalid)
    ensures r == Ok ==> gid == old(db.nextGroupId)
    ensures r == Ok ==> db.groups == old(db.groups) + [Group(gid, name.value, description, None, actor,
      isPrivate.GetOr(DefaultIsPrivate), maxMembers.GetOr(DefaultMaxMembers), now)]
    ensures r == Ok ==> db.members == old(db.members)[(gid, actor) := Admin]
    ensures r == Ok ==> MembersOf(db.members, gid) == {actor} && IsAdmin(db.members, gid, actor)
    ensures r != Ok ==> db.groups == old(db.groups) && db.members == old(db.members)
    ensures db.nextGroupId == old(db.nextGroupId) + (if r == Ok then 1 else 0)
  {
    gid := db.nextGroupId;
    if !ValidGroupFields(name, description, maxMembers) {
      return Invalid, gid;
    }
    var g := Group(gid, name.value, description, None, actor,
      isPrivate.GetOr(DefaultIsPrivate), maxMembers.GetOr(DefaultMaxMembers), now);
    CreateKeepsGroupTable(db.groups, db.members, db.nextGroupId, g);
    GroupMessageTableMoreGroups(db.groupMessages, db.nextGroupMessageId, db.groups, db.groups + [g], db.users);
    db.InsertGroup(db.groups + [g], db.members[(gid, actor) := Admin], db.nextGroupId + 1);
    r := Ok;
  }

  /** `update`: an admin rewrites the group's fields; only that row changes. */
  method Update(db: Database, actor: UserId, gid: GroupId, name: Option<string>, description: Option<string>,
                isPrivate: bool, maxMembers: int, now: Time) returns (r: Outcome)
    requires db.Valid()
    modifies db`groups
    ensures db.Valid()
    ensures r == UpdateDecision(FindGroup(old(db.groups), gid), db.members, actor, name, description, maxMembers)
    ensures r == Ok ==> var g := FindGroup(old(db.groups), gid).value;
      db.groups == ReplaceGroup(old(db.groups), Edited(g, name.value, description, isPrivate, maxMembers, now))
    ensures r != Ok ==> db.groups == old(db.groups)
  {
    var group := FindGroup(db.groups, gid);
    r := UpdateDecision(group, db.members, actor, name, description, maxMembers);
    if r != Ok {
      return;
    }
    RewriteGroup(db, Edited(group.value, name.value, description, isPrivate, maxMembers, now));
  }

  /** Store a group row that keeps its id and creator. */
  method RewriteGroup(db: Database, g: Group)
    requires db.Valid()
    requires FindGroup(db.groups, g.id).Some? && FindGroup(db.groups, g.id).value.createdBy == g.createdBy
    modifies db`groups
    ensures db.Valid() && db.groups == ReplaceGroup(old(db.groups), g)
  {
    UpdateKeepsGroupTable(db.groups, db.members, db.nextGroupId, g);
    GroupMessageTableMoreGroups(db.groupMessages, db.nextGroupMessageId, db.groups, ReplaceGroup(db.groups, g), db.users);
    db.SetGroups(ReplaceGroup(db.groups, g));
  }

  /** `destroy`: an admin or the creator deletes the group; its member rows
      and its messages go with it, and replies to its messages elsewhere
      are detached. */
  method Destroy(db: Database, actor: UserId, gid: GroupId) returns (r: Outcome)
    requires db.Valid()
    modifies db`groups, db`members, db`groupMessages
    ensures db.Valid()
    ensures r == DestroyDecision(FindGroup(old(db.groups), gid), old(db.members), actor)
    ensures r == Ok ==> db.groups == WithoutGroup(old(db.groups), gid)
    ensures r == Ok ==> db.members == WithoutMembersOf(old(db.members), gid)
    ensures r == Ok ==> UniqueIds(old(db.groupMessages)) && db.groupMessages == OnGroupDeleted(old(db.groupMessages), gid)
    ensures r != Ok ==> db.groups == old(db.groups) && db.members == old(db.members)
    ensures r != Ok ==> db.groupMessages == old(db.groupMessages)
  {
    var group := FindGroup(db.groups, gid);
    r := DestroyDecision(group, db.members, actor);
    if r != Ok {
      return;
    }
    DestroyKeepsGroupTable(db.groups, db.members, db.nextGroupId, gid);
    DestroyKeepsGroupMessageTable(db.groupMessages, db.nextGroupMessageId, db.groups, db.users, gid);
    db.DeleteGroup(WithoutGroup(db.groups, gid), WithoutMembersOf(db.members, gid), OnGroupDeleted(db.groupMessages, gid));
  }

  /** `join`: the actor becomes a member with role member when the guards
      let the request through. */
  method Join(db: Database, actor: UserId, gid: GroupId) returns (r: Outcome)
    requires db.Valid()
    modifies db`members
    ensures db.Valid()
    ensures r == JoinDecision(FindGroup(db.groups, gid), old(db.members), actor)
    ensures r == Ok ==> db.members == old(db.members)[(gid, actor) := Member]
    ensures r != Ok ==> db.members == old(db.members)
  {
    var group := FindGroup(db.groups, gid);
    r := JoinDecision(group, db.members, actor);
    if r != Ok {
      return;
    }
    JoinKeepsGroupTable(db.groups, db.members, db.nextGroupId, gid, actor);
    db.SetMembers(db.members[(gid, actor) := Member]);
  }

  /** `leave`: a member other than the creator removes their own row. */
  method Leave(db: Database, actor: UserId, gid: GroupId) returns (r: Outcome)
    requires db.Valid()
    modifies db`members
    ensures db.Valid()
    ensures r == LeaveDecision(FindGroup(db.groups, gid), old(db.members), actor)
    ensures r == Ok ==> db.members == old(db.members) - {(gid, actor)}
    ensures r != Ok ==> db.members == old(db.members)
  {
    var group := FindGroup(db.groups, gid);
    r := LeaveDecision(group, db.members, actor);
    if r != Ok {
      return;
    }
    LeaveKeepsGroupTable(db.groups, db.members, db.nextGroupId, gid, actor);
    db.SetMembers(db.members - {(gid, actor)});
  }
  /** The latest message of a listed group: its text, its time and its
      author's name (null when the author is gone). */
  datatype LatestEntry = LatestEntry(message: string, createdAt: Time, author: Option<string>)

  /** One group of a listing page, with the keys the page receives. */
  datatype GroupEntry = GroupEntry(
    id: GroupId,
    name: string,
    description: Option<string>,
    image: Option<string>,
    membersCount: nat,
    isAdmin: bool,
    isModerator: bool,
    latest: Option<LatestEntry>)

  function UpdatedAt(g: Group): int {
    g.updatedAt
  }

  /** `Auth::user()->groups()`: the groups the actor has a membership row
      for, in table order. */
  function JoinedGroups(groups: seq<Group>, ms: Memberships, actor: UserId): (r: seq<Group>)
    ensures forall g :: g in r <==> g in groups && IsMember(ms, g.id, actor)
    ensures IncreasingGroupIds(groups) ==> IncreasingGroupIds(r)
  {
    if groups == [] then []
    else
      var rest := JoinedGroups(groups[1..], ms, actor);
      if IsMember(ms, groups[0].id, actor) then
        assert forall g :: g in rest ==> g in groups[1..];
        [groups[0]] + rest
      else rest
  }

  /** The actor's groups, most recently updated first (`orderBy('updated_at',
      'desc')`): every group the actor belongs to, once, and no other. */
  function MemberGroups(groups: seq<Group>, ms: Memberships, actor: UserId): (r: seq<Group>)
    ensures forall g :: g in r <==> g in groups && IsMember(ms, g.id, actor)
    ensures SortedDesc(r, UpdatedAt)
    ensures IncreasingGroupIds(groups) ==> Distinct(r)
  {
    var joined := JoinedGroups(groups, ms, actor);
    assert forall g :: g in joined <==> g in multiset(joined);
    SortDescKeepsDistinct(joined, UpdatedAt);
    SortDesc(joined, UpdatedAt)
  }

  /** `l` shows message `m`: its text, its time and its author's name,
      null when the author is gone. */
  predicate Shows(l: LatestEntry, m: GroupMessage, users: seq<User>) {
    l.message == m.body && l.createdAt == m.createdAt &&
    (l.author.None? <==> !UserExists(users, m.userId)) &&
    (l.author.Some? ==> exists u :: u in users && u.id == m.userId && l.author.value == u.name)
  }

  /** The entry of group `g` for `actor`, given the message chosen as its
      latest. */
  function Summary(g: Group, ms: Memberships, users: seq<User>, actor: UserId, latest: Option<GroupMessage>): (e: GroupEntry)
    ensures e.latest.None? <==> latest.None?
    ensures e.latest.Some? ==> Shows(e.latest.value, latest.value, users)
  {
    GroupEntry(g.id, g.name, g.description, g.image, MemberCount(ms, g.id), IsAdmin(ms, g.id, actor),
               IsModerator(ms, g.id, actor),
               if latest.None? then None
               else
                 var author := FindUser(users, latest.value.userId);
                 Some(LatestEntry(latest.value.body, latest.value.createdAt,
                                  if author.None? then None else Some(author.value.name))))
  }

  /** `e` is what a listing shows `actor` about group `g`, when the latest
      message is the one with the greatest `key`: the group's columns, its
      member count (at least the actor), the actor's admin and moderator
      flags, and a latest message that is null exactly when the group has
      none and is otherwise a message of the group with no greater key
      after it, named with its author. */
  ghost predicate ListsGroup(e: GroupEntry, g: Group, ms: Memberships, msgs: seq<GroupMessage>, users: seq<User>,
                             actor: UserId, key: GroupMessage -> int) {
    e.id == g.id && e.name == g.name && e.description == g.description && e.image == g.image &&
    e.membersCount == MemberCount(ms, g.id) && e.membersCount >= 1 &&
    e.isAdmin == IsAdmin(ms, g.id, actor) && e.isModerator == IsModerator(ms, g.id, actor) &&
    (e.latest.None? <==> Messages(msgs, g.id) == []) &&
    (e.latest.Some? ==>
      e.latest.value.author.Some? &&
      exists m :: m in Messages(msgs, g.id) && Shows(e.latest.value, m, users) &&
        forall o :: o in Messages(msgs, g.id) ==> key(o) <= key(m))
  }

  /** The summary of a group the actor belongs to, built from a message
      with the greatest key, is what the listing promises, on a store
      whose messages all have authors. */
  lemma SummaryListsGroup(g: Group, ms: Memberships, msgs: seq<GroupMessage>, users: seq<User>, actor: UserId,
                          key: GroupMessage -> int, latest: Option<GroupMessage>)
    requires IsMember(ms, g.id, actor)
    requires forall m :: m in msgs ==> UserExists(users, m.userId)
    requires latest.None? <==> Messages(msgs, g.id) == []
    requires latest.Some? ==> latest.value in Messages(msgs, g.id)
    requires latest.Some? ==> forall o :: o in Messages(msgs, g.id) ==> key(o) <= key(latest.value)
    ensures ListsGroup(Summary(g, ms, users, actor, latest), g, ms, msgs, users, actor, key)
  {
    assert actor in MembersOf(ms, g.id);
  }

  function MessageIdOf(m: GroupMessage): int {
    m.id
  }

  /** `index`: the actor's groups, most recently updated first, each with
      its latest message by id (`latestMessage`). */
  function Index(groups: seq<Group>, ms: Memberships, msgs: seq<GroupMessage>, users: seq<User>, actor: UserId): (r: seq<GroupEntry>)
    ensures |r| == |MemberGroups(groups, ms, actor)|
  {
    var gs := MemberGroups(groups, ms, actor);
    seq(|gs|, i requires 0 <= i < |gs| => Summary(gs[i], ms, users, actor, LatestMessage(msgs, gs[i].id)))
  }

  /** On a valid store, entry i of the index lists the i-th of the actor's
      groups (`MemberGroups`), with the message of greatest id as latest. */
  lemma IndexListsMemberGroups(groups: seq<Group>, ms: Memberships, msgs: seq<GroupMessage>, users: seq<User>,
                               actor: UserId, nextMessage: MessageId)
    requires GroupMessageTable(msgs, nextMessage, groups, users)
    ensures var r := Index(groups, ms, msgs, users, actor);
      var gs := MemberGroups(groups, ms, actor);
      forall i :: 0 <= i < |r| ==> ListsGroup(r[i], gs[i], ms, msgs, users, actor, MessageIdOf)
  {
    var r := Index(groups, ms, msgs, users, actor);
    var gs := MemberGroups(groups, ms, actor);
    forall m | m in msgs ensures UserExists(users, m.userId) {
      var k :| 0 <= k < |msgs| && msgs[k] == m;
    }
    forall i | 0 <= i < |r| ensures ListsGroup(r[i], gs[i], ms, msgs, users, actor, MessageIdOf) {
      SummaryListsGroup(gs[i], ms, msgs, users, actor, MessageIdOf, LatestMessage(msgs, gs[i].id));
    }
  }
}
