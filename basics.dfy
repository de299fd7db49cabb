/** Shared vocabulary of the chat application: optional values, identifiers,
    timestamps, the users table row and the abstract outcome of a request. */
module Basics {

  datatype Option<+T> = None | Some(value: T) {
    function GetOr(default: T): T {
      match this
      case Some(v) => v
      case None => default
    }
  }

  /** Primary keys of the users, groups and message tables. */
  type UserId = nat
  type GroupId = nat
  type MessageId = nat

  /** Server and client clock readings, in milliseconds. The clock itself is
      never read by the model: every operation receives the reading it needs. */
  type Time = nat

  /** A row of the users table, with the columns the core reads. */
  datatype User = User(id: UserId, name: string, email: string, avatar: Option<string>)

  /** A row of the groups table. `maxMembers` is the stored capacity. */
  datatype Group = Group(
    id: GroupId,
    name: string,
    description: Option<string>,
    image: Option<string>,
    createdBy: UserId,
    isPrivate: bool,
    maxMembers: int,
    updatedAt: Time)

  /** Why a request that was not aborted still did nothing: the flash
      "error" messages of the group controller. */
  datatype Refusal =
    | AlreadyMember     // "You are already a member of this group."
    | GroupFull         // "Group has reached maximum member limit."
    | NotAMember        // "You are not a member of this group."
    | CreatorCannotLeave

  /** The outcome of an HTTP request, abstracting redirects, JSON bodies,
      flash messages and aborts. */
  datatype Outcome =
    | Ok
    | Refused(why: Refusal)  // redirect back with an error flash
    | Invalid                // a validation rule failed (422 / redirect with errors)
    | Forbidden              // abort(403)
    | NotFound               // abort(404) or a missing route-bound model

  /** The first user of `users` with the given id, if any. */
  function FindUser(users: seq<User>, id: UserId): (r: Option<User>)
    ensures r.Some? ==> r.value in users && r.value.id == id
    ensures r.None? <==> forall u :: u in users ==> u.id != id
    ensures r.Some? <==> UserExists(users, id)
  {
    if users == [] then None
    else if users[0].id == id then Some(users[0])
    else FindUser(users[1..], id)
  }

  predicate UserExists(users: seq<User>, id: UserId) {
    exists u :: u in users && u.id == id
  }

  /** The first group of `groups` with the given id, if any. */
  function FindGroup(groups: seq<Group>, id: GroupId): (r: Option<Group>)
    ensures r.Some? ==> r.value in groups && r.value.id == id
    ensures r.None? <==> forall g :: g in groups ==> g.id != id
  {
    if groups == [] then None
    else if groups[0].id == id then Some(groups[0])
    else FindGroup(groups[1..], id)
  }

  predicate GroupExists(groups: seq<Group>, id: GroupId) {
    exists g :: g in groups && g.id == id
  }

  /** The characters PHP's trim() removes, which Laravel's `required` rule
      ignores when it decides whether a string is empty. */
  predicate IsPhpTrimmed(c: char) {
    c == ' ' || c == '\t' || c == '\n' || c == '\r' || c == '\0' || c == '\U{B}'
  }

  /** Laravel's `required` rule on a string field: present and not only
      white space. */
  predicate Filled(s: Option<string>)
    ensures Filled(s) ==> s.Some? && s.value != []
    ensures s.Some? && s.value != [] && !IsPhpTrimmed(s.value[0]) ==> Filled(s)
  {
    s.Some? && exists i :: 0 <= i < |s.value| && !IsPhpTrimmed(s.value[i])
  }
}
