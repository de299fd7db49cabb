/** The Group model: roles on the group_members pivot, the role predicates,
    the member count and the latest message of a group. */
module GroupModel {
  import opened Basics
  import opened GroupMessages

  /** The `role` column of group_members. */
  datatype Role = Admin | Moderator | Member

  function RoleName(r: Role): string {
    match r
    case Admin => "admin"
    case Moderator => "moderator"
    case Member => "member"
  }

  /** The validation rule `in:admin,moderator,member`. */
  function ParseRole(s: string): (r: Option<Role>)
    ensures r.Some? ==> RoleName(r.value) == s
    ensures r.None? <==> s != "admin" && s != "moderator" && s != "member"
  {
    if s == "admin" then Some(Admin)
    else if s == "moderator" then Some(Moderator)
    else if s == "member" then Some(Member)
    else None
  }

  lemma ParseRoleName(r: Role)
    ensures ParseRole(RoleName(r)) == Some(r)
  {
  }

  /** The pivot table: at most one row, holding a role, per (group, user). */
  type Memberships = map<(GroupId, UserId), Role>

  /** `isMember`: the user has a row for the group. */
  predicate IsMember(ms: Memberships, g: GroupId, u: UserId) {
    (g, u) in ms
  }

  /** `isModerator`: the user's row has role admin or moderator. */
  predicate IsModerator(ms: Memberships, g: GroupId, u: UserId)
    ensures IsModerator(ms, g, u) ==> IsMember(ms, g, u)
  {
    (g, u) in ms && (ms[(g, u)] == Admin || ms[(g, u)] == Moderator)
  }

  /** `isAdmin`: the user's row has role admin. */
  predicate IsAdmin(ms: Memberships, g: GroupId, u: UserId)
    ensures IsAdmin(ms, g, u) ==> IsModerator(ms, g, u)
  {
    (g, u) in ms && ms[(g, u)] == Admin
  }

  /** Every member holds one of the three roles: a member is either a
      moderator (which includes an admin) or has the plain member role. */
  lemma MemberHasRole(ms: Memberships, g: GroupId, u: UserId)
    ensures IsMember(ms, g, u) <==> IsModerator(ms, g, u) || ((g, u) in ms && ms[(g, u)] == Member)
  {
  }

  /** The users with a row for the group. */
  function MembersOf(ms: Memberships, g: GroupId): (r: set<UserId>)
    ensures forall u :: u in r <==> IsMember(ms, g, u)
  {
    set k | k in ms.Keys && k.0 == g :: k.1
  }

  /** `getMemberCount`: the number of membership rows of the group. */
  function MemberCount(ms: Memberships, g: GroupId): (r: nat)
    ensures r == 0 <==> forall u :: !IsMember(ms, g, u)
  {
    var m := MembersOf(ms, g);
    assert m != {} ==> exists u :: u in m;
    |m|
  }

  /** Attaching a user who was not a member raises the group's count by
      exactly one and leaves every other group's count alone. */
  lemma AttachCount(ms: Memberships, g: GroupId, u: UserId, r: Role, h: GroupId)
    requires !IsMember(ms, g, u)
    ensures MemberCount(ms[(g, u) := r], g) == MemberCount(ms, g) + 1
    ensures h != g ==> MemberCount(ms[(g, u) := r], h) == MemberCount(ms, h)
  {
    assert MembersOf(ms[(g, u) := r], g) == MembersOf(ms, g) + {u};
    assert h != g ==> MembersOf(ms[(g, u) := r], h) == MembersOf(ms, h);
  }

  /** Detaching a member lowers the group's count by exactly one. */
  lemma DetachCount(ms: Memberships, g: GroupId, u: UserId, h: GroupId)
    requires IsMember(ms, g, u)
    ensures MemberCount(ms - {(g, u)}, g) == MemberCount(ms, g) - 1
    ensures h != g ==> MemberCount(ms - {(g, u)}, h) == MemberCount(ms, h)
  {
    assert MembersOf(ms - {(g, u)}, g) == MembersOf(ms, g) - {u};
    assert h != g ==> MembersOf(ms - {(g, u)}, h) == MembersOf(ms, h);
  }

  /** Changing a member's role does not change any count. */
  lemma RoleChangeCount(ms: Memberships, g: GroupId, u: UserId, r: Role, h: GroupId)
    requires IsMember(ms, g, u)
    ensures MemberCount(ms[(g, u) := r], h) == MemberCount(ms, h)
  {
    assert MembersOf(ms[(g, u) := r], h) == MembersOf(ms, h);
  }

  /** `messages()`: the group's messages, in table order. */
  function Messages(msgs: seq<GroupMessage>, g: GroupId): (r: seq<GroupMessage>)
    ensures forall m :: m in r <==> m in msgs && m.groupId == g
    ensures r == [] <==> forall m :: m in msgs ==> m.groupId != g
    ensures |r| <= |msgs|
  {
    if msgs == [] then []
    else (if msgs[0].groupId == g then [msgs[0]] else []) + Messages(msgs[1..], g)
  }

  /** `latestMessage` (latest of many): the group's message with the
      greatest id, none when the group has no message. */
  function LatestMessage(msgs: seq<GroupMessage>, g: GroupId): (r: Option<GroupMessage>)
    ensures r.None? <==> forall m :: m in msgs ==> m.groupId != g
    ensures r.Some? ==> r.value in msgs && r.value.groupId == g
    ensures r.Some? ==> forall m :: m in msgs && m.groupId == g ==> m.id <= r.value.id
  {
    if msgs == [] then None
    else
      var rest := LatestMessage(msgs[1..], g);
      assert forall m :: m in msgs ==> m == msgs[0] || m in msgs[1..];
      if msgs[0].groupId != g then rest
      else if rest.Some? && rest.value.id >= msgs[0].id then rest
      else Some(msgs[0])
  }
}
