# Chat application core, modelled in Dafny

This project models a Laravel + Vue chat application. Users exchange
one-to-one messages. Each message moves from sent to delivered to read,
and every step is announced on the sender's private broadcast channel.
Users also form groups. A group has an admin, moderators and plain
members, a membership cap, and messages that may reply to earlier ones.
On the server side the model covers:

- the chat, group, group-member, group-message and user-list controllers;
- the Group and GroupMessage models and the group_messages migration;
- the channel authorisation callbacks;
- the three events MessageDelivered, GroupMessageSent and UserLeftGroup.

On the client side it covers:

- the message list of a chat page (`useChatMessages`);
- the delivery indicator (`chatHelpers`);
- the realtime listeners and the typing whisper (`useChatRealtime`);
- the "is typing" indicator (`useChatTyping`).

## How the model is built

Data:

- The database is `Store.Database`, a class. Its fields are the tables:
  - users;
  - direct messages;
  - groups;
  - group memberships, as a map from (group, user) to role;
  - group messages;
  - the next auto-increment ids.
- A further field, `outbox`, is the sequence of broadcasts sent so far.
- `Database.Valid` bundles the table invariants: unique and increasing ids, foreign keys, and replies that resolve.

Controllers:

- Each controller action is a method on the database. Its `ensures` gives:
  - the response (`Ok`, `NotFound`, `Forbidden`, `Invalid` or a refusal message);
  - the whole new state of the tables and of the outbox.
- The guard of each action is a pure decision function, with one if-and-only-if per outcome.
- The loops of `ChatController` and `GroupMemberController::store` are methods with invariants. They are proved against the pure functions `DirectMessages.MarkAll`/`Notices` and `GroupMemberController.Admit`.

Client composables:

- `useChatMessages` and `useChatTyping` keep closure state. They are the classes `ClientMessages.ChatList` and `ChatTyping.TypingIndicator`.
- Each method of these classes is tied to a pure function of the old state, and the lemmas are stated about those functions.
- `chatHelpers` and the listeners of `useChatRealtime` are pure functions.

Numbers and channel names:

- Integers are unbounded; ids are `nat`.
- The string that names a channel is modelled character by character, so the channel lemmas speak about the exact string.
- The PHP `(int)` cast that `chat.{userId}` applies is modelled on those strings.
- So is the JavaScript `==` that the MessageSent listener applies.

Facts about the code that the model keeps as they are:

- `update` of a group does not compare a lowered `max_members` with the current member count.
- `GroupMemberController::update` changes the role of a group's creator like anyone else's.
- A reply target is checked to exist, not to belong to the same group.
- MessageDelivered does not use InteractsWithSockets, so the `->toOthers()` of `markAsDelivered` (ChatController.php:98) excludes no socket; its notices are recorded as plain broadcasts.
- The group list of the chat page (`UserContrller::index`) picks the latest message by `created_at`. The groups index (`GroupController::index`) picks it by id, through `latestOfMany`. Both are modelled, each with its own key.

## Model

| member | source | states |
|---|---|---|
| Basics.FindUser | app/Http/Controllers/ChatController.php:48 | the user with the given id if the users table has one (the `exists:users,id` rule), none exactly when no row has that id |
| Basics.FindGroup | routes/channels.php:17 | the group row with the given id, none exactly when no row has it |
| Basics.Filled | app/Http/Controllers/ChatController.php:49 | the `required` rule on a text: a filled text is present and not empty, and a text starting with a non-blank character is filled |
| Decimal.NatToDecimal | app/Events/MessageDelivered.php:24 | an id concatenated into a channel name is a non-empty run of digits without a leading zero |
| Decimal.DecimalValue | app/Events/MessageDelivered.php:24 | reading the digits of a concatenated id back gives the id |
| Decimal.DecimalInjective | app/Events/GroupMessageSent.php:31 | two ids give the same digits exactly when they are equal |
| Decimal.LeadingDigits | routes/channels.php:13 | the digit prefix the PHP integer cast reads: all digits, a prefix of the string, followed by a non-digit if shorter |
| Decimal.PhpIntCast | routes/channels.php:13 | `(int)` of a string: a run of digits casts to its value, a leading minus gives a value of at most 0, and a string not starting with white space, a sign or a digit casts to 0 |
| Decimal.CastOfDecimal | routes/channels.php:13 | `(int)` of an id's decimal form is the id |
| Decimal.CastIgnoresLeadingZeros | routes/channels.php:13 | `(int)` ignores a leading zero, so "0" followed by an id's digits casts to that id |
| DirectMessages.MarkAll | app/Http/Controllers/ChatController.php:66-102 | marking delivered or read only moves messages forward, changes exactly the selected messages from the other user to the actor, leaves none of them selected, and a read batch leaves every such message read and delivered |
| DirectMessages.MarkAllPrefix | app/Http/Controllers/ChatController.php:31-35 | marking is row by row: the first n rows of the marked table are the marked first n rows |
| DirectMessages.OneNoticePerTransition | app/Http/Controllers/ChatController.php:96-99 | one broadcast goes out per message whose state the batch changes |
| DirectMessages.NoticesAreOfBatch | app/Http/Controllers/ChatController.php:74-81 | every announced message is from the other user to the actor and is delivered, and also read when the batch marks read |
| DirectMessages.NoNoticesWhenNothingAwaits | app/Http/Controllers/ChatController.php:91-94 | when no message awaits marking, nothing is broadcast |
| DirectMessages.Awaiting | app/Http/Controllers/ChatController.php:27-29 | the selection of a batch (from the other user to the actor, with a null delivered_at or is_read false); every selected message is changed by the batch's update |
| DirectMessages.Apply | app/Http/Controllers/ChatController.php:75-78 | the update of one selected row: only delivered_at and is_read change; a delivery sets delivered_at to now; a read sets is_read and keeps an existing delivered_at; either way the row ends delivered |
| DirectMessages.Notices | app/Http/Controllers/ChatController.php:96-99 | the messages a batch announces, at most as many as the table holds; their content is stated by OneNoticePerTransition and NoticesAreOfBatch |
| DirectMessages.Idempotent | app/Http/Controllers/ChatController.php:91-99 | marking twice equals marking once, and the second pass broadcasts nothing |
| DirectMessages.PreservesReadImpliesDelivered | app/Http/Controllers/ChatController.php:75-78 | a table where every read message is delivered keeps that property |
| DirectMessages.Conversation | app/Http/Controllers/ChatController.php:18-23 | exactly the messages between the two users, in either direction, in table order |
| DirectMessages.ConversationSymmetric | app/Http/Controllers/ChatController.php:18-24 | both participants see the same conversation |
| DirectMessages.OrderedConversation | app/Http/Controllers/ChatController.php:18-24 | `orderBy('created_at')`: a permutation of the conversation, ordered by created_at, holding exactly the messages between the two users |
| GroupMessages.Fill | app/Models/GroupMessage.php:10-17 | mass assignment keeps exactly the fillable attributes given and never sets id or timestamps |
| GroupMessages.Create | app/Http/Controllers/GroupMessageController.php:25-30 | the created instance carries the group, author, text, reply target and time, with type and attachments unset |
| GroupMessages.Persisted | database/migrations/2025_07_31_190016_create_group_messages_table.php:19 | the stored row has type "text" unless one was given, and is otherwise the created instance |
| GroupMessages.SameIdSameRow | database/migrations/2025_07_31_190016_create_group_messages_table.php:15 | the primary key identifies a row |
| GroupMessages.FindMessage | app/Http/Controllers/GroupMessageController.php:22 | the row with the id if any (the `exists:group_messages,id` rule), none exactly when no row has it |
| GroupMessages.FindUnique | database/migrations/2025_07_31_190016_create_group_messages_table.php:15 | looking up a stored row's id finds that row |
| GroupMessages.GroupOf | app/Models/GroupMessage.php:23-26 | the message's group row, none exactly when the group does not exist |
| GroupMessages.ReplyTarget | app/Models/GroupMessage.php:33-36 | the message a reply points to, a row of the table with the id in `reply_to`; none for a message that replies to nothing |
| GroupMessages.Replies | app/Models/GroupMessage.php:38-41 | exactly the rows whose `reply_to` is the message's id |
| GroupMessages.RepliesInverseOfReplyTarget | app/Models/GroupMessage.php:33-41 | `replies` and `replyTo` are inverse relations |
| GroupMessages.Purge | database/migrations/2025_07_31_190016_create_group_messages_table.php:16-21 | deleting rows removes exactly them, keeps every other row, and nulls `reply_to` of replies to a deleted row |
| GroupMessages.PurgeOrigin | database/migrations/2025_07_31_190016_create_group_messages_table.php:16-21 | every row left after a deletion is a surviving row of the old table, with `reply_to` nulled only if it named a deleted row |
| GroupMessages.PurgeIncreasing | database/migrations/2025_07_31_190016_create_group_messages_table.php:15-21 | deletion keeps ids in increasing order |
| GroupMessages.PurgeKeepsRepliesResolved | database/migrations/2025_07_31_190016_create_group_messages_table.php:21 | after deletion every remaining `reply_to` still names a row |
| GroupMessages.OnMessageDeleted | database/migrations/2025_07_31_190016_create_group_messages_table.php:21 | deleting one message removes it, detaches its replies, and keeps the rest |
| GroupMessages.OnGroupDeleted | database/migrations/2025_07_31_190016_create_group_messages_table.php:16 | deleting a group removes all its messages (cascade) and detaches replies to them from other groups |
| GroupMessages.OnUserDeleted | database/migrations/2025_07_31_190016_create_group_messages_table.php:17 | deleting a user removes all their group messages (cascade) and detaches replies to them |
| GroupModel.ParseRole | app/Http/Controllers/GroupMemberController.php:53-55 | only "admin", "moderator" and "member" name a role, and the role parsed names the same string |
| GroupModel.ParseRoleName | app/Http/Controllers/GroupMemberController.php:53-58 | the role stored from a valid name reads back as that name |
| GroupModel.IsModerator | app/Models/Group.php:59-63 | admins and moderators are moderators, and every moderator is a member |
| GroupModel.IsAdmin | app/Models/Group.php:53-57 | the admin role only, and every admin is a moderator |
| GroupModel.MemberHasRole | app/Models/Group.php:59-68 | `isMember` holds exactly when the user is a moderator or has the plain member role |
| GroupModel.MembersOf | app/Models/Group.php:31-36 | the members of a group are exactly the users with a pivot row for it |
| GroupModel.MemberCount | app/Models/Group.php:70-73 | the number of member rows of the group, 0 exactly when the group has no member |
| GroupModel.AttachCount | app/Models/Group.php:70-73 | attaching a non-member raises that group's count by one and no other group's |
| GroupModel.DetachCount | app/Models/Group.php:70-73 | detaching a member lowers that group's count by one and no other group's |
| GroupModel.RoleChangeCount | app/Models/Group.php:70-73 | changing a member's role changes no group's count |
| GroupModel.Messages | app/Models/Group.php:43-46 | exactly the messages of the group, empty exactly when it has none |
| GroupModel.LatestMessage | app/Models/Group.php:48-51 | `latestOfMany`: none exactly when the group has no message, else one of its messages with the greatest id |
| Store.GroupMessageTableMoreGroups | database/migrations/2025_07_31_190016_create_group_messages_table.php:16 | the foreign keys of group messages stay satisfied when groups are added |
| Events.ChatChannelNameInjective | app/Events/MessageDelivered.php:24 | two users' chat channels have the same name exactly when they are the same user |
| Events.GroupChannelNameInjective | app/Events/GroupMessageSent.php:31 | two groups' channels have the same name exactly when they are the same group |
| Events.DecodeDirectMessageArray | app/Events/MessageDelivered.php:30 | the message array a listener receives decodes back to the message |
| Events.DirectMessageArray | app/Events/MessageDelivered.php:30 | the message as an array with keys id, sender_id, receiver_id, message, created_at, delivered_at and is_read, delivered_at null exactly when the message is undelivered |
| Events.MessageDeliveredOn | app/Events/MessageDelivered.php:21-25 | the delivery notice goes on a private channel that is the chat channel of the sender and of no one else |
| Events.MessageDeliveredWith | app/Events/MessageDelivered.php:27-32 | the payload has the single key "message", which decodes to the delivered message |
| Events.AuthorJson | app/Events/GroupMessageSent.php:43-47 | the `user` sub-object: exactly id, name and avatar, with the author's id and name, avatar null exactly when the author has none |
| Events.ReplyJson | app/Events/GroupMessageSent.php:48-54 | the `replyTo` sub-object: null exactly without a target, else exactly id, message and user, with the target's id and text and its author's name as the only user field |
| Events.GroupMessageJson | app/Events/GroupMessageSent.php:36-56 | the group message object: id, text, type, reply_to, created_at, the author's id, name and avatar, and replyTo null exactly without a reply target, else its id, text and author name |
| Events.GroupMessageSentOn | app/Events/GroupMessageSent.php:29-32 | a private channel named for the message's group and no other |
| Events.GroupMessageSentWith | app/Events/GroupMessageSent.php:34-57 | the payload has the single key "message", and its type is null on a freshly created message |
| Events.UserLeftGroupOn | app/Events/UserLeftGroup.php:26-29 | a public channel named for the group and no other |
| Events.UserLeftGroupWith | app/Events/UserLeftGroup.php:31-40 | the payload holds the leaving user's id and name and the group id, nothing else |
| Events.UserLeftGroupMissesPrivateSubscribers | app/Events/UserLeftGroup.php:28 | the public channel's wire name differs from the private channel the group's listeners subscribe to |
| Events.UserLeftGroupOnPrivate | app/Events/UserLeftGroup.php:26-29 | on the private group channel the notice reaches the same channel as the group's messages |
| Channels.FindGroupByKey | routes/channels.php:17 | a non-empty run of digits finds the group whose id is its value, leading zeros included; any other key finds none |
| Channels.ChatAuthorized | routes/channels.php:12-14 | `chat.{userId}`: for a run of digits, granted exactly when its value is the actor's id; always granted for the actor's own decimal id |
| Channels.GroupAuthorized | routes/channels.php:16-19 | `group.{groupId}`: granted exactly when the key is a run of digits naming an existing group of which the actor is a member |
| Channels.Authorize | routes/channels.php:8-19 | the presence channel admits everyone with {id, name} and only it gives member data; a `chat.` or `group.` name with a dot-free parameter is granted exactly by its callback; nothing else is granted |
| Channels.GroupChannelZeroPadded | routes/channels.php:17-18 | `group.0` followed by a group's digits is granted exactly to the members of that existing group, as `Group::find` reads the key as a number |
| Channels.PresenceAdmitsEveryone | routes/channels.php:8-10 | every authenticated user joins the presence channel with their id and name |
| Channels.ChatChannelOwner | routes/channels.php:12-14 | a user's chat channel admits exactly that user and denies everyone else |
| Channels.ChatChannelZeroPadded | routes/channels.php:13 | the integer cast admits a user to "chat.0" followed by their id too |
| Channels.GroupChannelMembers | routes/channels.php:16-19 | a group channel admits exactly the members of an existing group, and denies everyone when the group does not exist |
| Channels.DeliveryNoticeOnlyToSender | app/Events/MessageDelivered.php:24 | the channel of a delivery notice admits exactly the message's sender |
| ChatController.Announce | app/Http/Controllers/ChatController.php:31-35 | one broadcast per marked message, in order: a delivery notice carrying the message for a delivery batch, a read notice for a read batch |
| ChatController.AdvancesKeepsTableOrder | app/Http/Controllers/ChatController.php:27-35 | marking changes no id or time, so ids stay increasing, below the next id, and the table stays chronological |
| ChatController.MarkRows | app/Http/Controllers/ChatController.php:31-35 | the loop's table and broadcasts equal MarkAll and Notices of the old table |
| ChatController.MarkPending | app/Http/Controllers/ChatController.php:91-99 | the table becomes MarkAll of the old one and the outbox gains one notice per changed message; the invariants hold |
| ChatController.Show | app/Http/Controllers/ChatController.php:16-42 | NotFound for an unknown user; else the conversation ordered by created_at as read before marking, the other user's messages marked delivered, and one notice each, to everyone |
| ChatController.Send | app/Http/Controllers/ChatController.php:45-63 | Invalid without an existing receiver or a filled text; else exactly one new row with the next id, the given time, undelivered and unread, and one MessageSent broadcast; the id counter advances by one exactly on Ok |
| ChatController.MarkAsRead | app/Http/Controllers/ChatController.php:66-84 | NotFound for an unknown user; else every message from that user to the actor is read and delivered afterwards, with one notice per changed message, flagged to others as the call is written |
| ChatController.MarkAsDelivered | app/Http/Controllers/ChatController.php:87-102 | NotFound for an unknown user; else every message from that user to the actor is delivered afterwards, with one notice per changed message, sent to every subscriber including the caller's socket |
| ChatController.SentDeliveredRead | app/Http/Controllers/ChatController.php:66-102 | a new message, delivered then read, announces each step once and ends read with the first delivery time |
| GroupController.ShowDecision | app/Http/Controllers/GroupController.php:45-47 | Ok exactly for a member, Forbidden for a non-member, NotFound for a missing group |
| GroupController.UpdateDecision | app/Http/Controllers/GroupController.php:126-136 | Ok exactly for an admin with valid fields, Forbidden exactly for a non-admin, Invalid only for an admin |
| GroupController.Edited | app/Http/Controllers/GroupController.php:146-152 | the row after `update`: the request's name, description, is_private and max_members, id, creator and image kept; unchanged exactly when every field repeats the stored value, else updated_at is now |
| GroupController.CleanUpdateChangesNothing | app/Http/Controllers/GroupController.php:146-152 | an update repeating the stored values leaves the groups table as it was, updated_at included |
| GroupController.DestroyDecision | app/Http/Controllers/GroupController.php:159-161 | Ok exactly for an admin or the creator; otherwise NotFound or Forbidden |
| GroupController.JoinDecision | app/Http/Controllers/GroupController.php:175-181 | Ok exactly for a non-member of a group below its cap; each refusal exactly in its case |
| GroupController.LeaveDecision | app/Http/Controllers/GroupController.php:193-199 | Ok exactly for a member who is not the creator; each refusal exactly in its case |
| GroupController.JoinWithinCapacity | app/Http/Controllers/GroupController.php:179-186 | an accepted join raises the count by one and stays within the cap |
| GroupController.CapacityScenario | app/Http/Controllers/GroupController.php:179-181 | a two-seat group takes one joiner after its creator and refuses the next as full |
| GroupController.ReplaceGroup | app/Http/Controllers/GroupController.php:146-152 | the updated row replaces the row with its id, every other row unchanged |
| GroupController.WithoutGroup | app/Http/Controllers/GroupController.php:167 | deleting a group removes exactly its row |
| GroupController.WithoutMembersOf | app/Http/Controllers/GroupController.php:167 | deleting a group removes exactly its membership rows |
| GroupController.WithoutGroupIncreasing | app/Http/Controllers/GroupController.php:167 | deleting a group keeps group ids increasing |
| GroupController.CreateKeepsGroupTable | app/Http/Controllers/GroupController.php:102-115 | adding the group with its creator as admin keeps the groups table valid, and the creator is its only member |
| GroupController.UpdateKeepsGroupTable | app/Http/Controllers/GroupController.php:146-152 | updating a group's fields keeps the groups table valid and every group present |
| GroupController.DestroyKeepsGroupTable | app/Http/Controllers/GroupController.php:167 | deleting a group and its memberships keeps the groups table valid |
| GroupController.DestroyKeepsGroupMessageTable | app/Http/Controllers/GroupController.php:167 | the cascade to group messages keeps that table valid against the remaining groups |
| GroupController.JoinKeepsGroupTable | app/Http/Controllers/GroupController.php:183-186 | attaching a member keeps the groups table valid |
| GroupController.LeaveKeepsGroupTable | app/Http/Controllers/GroupController.php:201 | a non-creator leaving keeps the groups table valid, so every group keeps its creator |
| GroupController.Show | app/Http/Controllers/GroupController.php:43-85 | the show guard's outcome; for a member, whether they are admin and moderator |
| GroupController.Create | app/Http/Controllers/GroupController.php:87-122 | Invalid on bad fields; else one new group with the next id, defaults private=false and cap=100, and the creator as its only member and admin; the group id counter advances by one exactly on Ok |
| GroupController.Update | app/Http/Controllers/GroupController.php:124-155 | the update guard's outcome; on Ok the group's row has the request's fields, a new updated_at only when a field changed, and every other row is unchanged |
| GroupController.Destroy | app/Http/Controllers/GroupController.php:157-171 | the destroy guard's outcome; on Ok the group, its memberships and its messages are gone, and replies to them detached |
| GroupController.Join | app/Http/Controllers/GroupController.php:173-189 | the join guard's outcome; on Ok the actor is attached as a plain member |
| GroupController.Leave | app/Http/Controllers/GroupController.php:191-205 | the leave guard's outcome; on Ok exactly the actor's membership is removed |
| GroupController.JoinedGroups | app/Http/Controllers/GroupController.php:16 | exactly the groups the actor is a member of |
| GroupController.MemberGroups | app/Http/Controllers/GroupController.php:16-20 | exactly the actor's groups, most recently updated first, each once |
| GroupController.Summary | app/Http/Controllers/GroupController.php:21-35 | latest_message is null exactly without a latest message, else it shows that message's text, time and author |
| GroupController.SummaryListsGroup | app/Http/Controllers/GroupController.php:21-35 | the entry carries the group's columns, member count, the actor's admin and moderator flags and its latest message |
| GroupController.Index | app/Http/Controllers/GroupController.php:14-41 | one entry per group of the actor |
| GroupController.IndexListsMemberGroups | app/Http/Controllers/GroupController.php:14-41 | entry i describes the i-th of the actor's groups, with the message of greatest id as latest |
| GroupMemberController.Newcomers | app/Http/Controllers/GroupMemberController.php:26-29 | the requested users who are not yet members, each once |
| GroupMemberController.Admit | app/Http/Controllers/GroupMemberController.php:26-38 | the loop's result: only listed users are added, no more than were listed; which ones is stated by AdmitTakesEarliestNewcomers |
| GroupMemberController.AdmitAttaches | app/Http/Controllers/GroupMemberController.php:29-35 | a step that attaches a user attaches a newcomer not seen before, and keeps the added list equal to the earliest newcomers that fit |
| GroupMemberController.AdmitRefuses | app/Http/Controllers/GroupMemberController.php:29 | a step that skips a newcomer not seen before leaves the added list equal to the earliest newcomers that fit |
| GroupMemberController.AdmitTakesEarliestNewcomers | app/Http/Controllers/GroupMemberController.php:26-38 | the loop attaches exactly the earliest non-members that fit below the cap, as plain members, and the count grows by their number |
| GroupMemberController.AdmitWithinCapacity | app/Http/Controllers/GroupMemberController.php:26-38 | the count never passes the cap, no one is added twice, and only requested non-members are added |
| GroupMemberController.AdmitSkipsOnlyWhenFull | app/Http/Controllers/GroupMemberController.php:29 | a requested non-member is skipped only when the group is full |
| GroupMemberController.AddDecision | app/Http/Controllers/GroupMemberController.php:16-23 | Ok exactly for a moderator with a non-empty list of existing users; Forbidden exactly for a non-moderator |
| GroupMemberController.JoinNotices | app/Http/Controllers/GroupMemberController.php:36 | one UserJoinedGroup broadcast per added user, in order |
| GroupMemberController.AdmitRows | app/Http/Controllers/GroupMemberController.php:26-38 | the loop's memberships and added users equal Admit, with one notice per added user |
| GroupMemberController.AdmitKeepsGroupTable | app/Http/Controllers/GroupMemberController.php:30-33 | attaching members keeps the groups table valid |
| GroupMemberController.AddMembers | app/Http/Controllers/GroupMemberController.php:14-41 | the add guard's outcome; on Ok the memberships and notices are those of Admit, else nothing changes |
| GroupMemberController.RoleDecision | app/Http/Controllers/GroupMemberController.php:45-55 | Ok exactly for an admin changing an existing member to a valid role; Forbidden exactly for a non-admin; Invalid only for an admin and a member |
| GroupMemberController.ChangeRole | app/Http/Controllers/GroupMemberController.php:43-62 | the role guard's outcome; on Ok exactly that member's role changes, to the requested one |
| GroupMemberController.ChangeRoleKeepsCounts | app/Http/Controllers/GroupMemberController.php:57-59 | a role change leaves every member count as it was |
| GroupMemberController.RemoveDecision | app/Http/Controllers/GroupMemberController.php:66-76 | Ok exactly when a moderator, or the user themself, removes a member who is not the creator; the creator is never removed |
| GroupMemberController.RemovedThenSelfRemoveNotFound | app/Http/Controllers/GroupMemberController.php:74-76 | after a removal, the removed user removing themself gets NotFound |
| GroupMemberController.RemoveMember | app/Http/Controllers/GroupMemberController.php:64-82 | the remove guard's outcome; on Ok exactly that membership goes and one UserLeftGroup broadcast is sent |
| GroupMessageController.PostDecision | app/Http/Controllers/GroupMessageController.php:16-23 | NotFound exactly without the group, Forbidden exactly for a non-member, Ok exactly for a member with a filled text of at most 1000 characters and a reply target that exists |
| GroupMessageController.ReplyAcrossGroups | app/Http/Controllers/GroupMessageController.php:22 | the reply rule accepts a message of another group as reply target |
| GroupMessageController.ReplyOf | app/Http/Controllers/GroupMessageController.php:33 | the loaded reply target is the row named by `reply_to`, with its own author |
| GroupMessageController.ReplyOfResolves | app/Http/Controllers/GroupMessageController.php:33 | on a valid table the reply target is loaded exactly when `reply_to` is set |
| GroupMessageController.PostResponse | app/Http/Controllers/GroupMessageController.php:36-64 | the response's type defaults to "text", and its replyTo is null exactly without a reply target |
| GroupMessageController.ResponseAndEventDifferInType | app/Http/Controllers/GroupMessageController.php:39 | the HTTP response and the broadcast payload agree on every field except type, "text" against null |
| GroupMessageController.PostKeepsGroupMessageTable | app/Http/Controllers/GroupMessageController.php:25-30 | appending the new message keeps the group messages table valid |
| GroupMessageController.Insert | app/Http/Controllers/GroupMessageController.php:25-60 | the accepted path of `store`: exactly one stored row, the created instance with type defaulted; the response built from the created instance; one GroupMessageSent sent to others; the message id counter advances by one |
| GroupMessageController.Post | app/Http/Controllers/GroupMessageController.php:14-65 | the post guard's outcome; on Ok exactly one stored row, the response, and one GroupMessageSent broadcast to others; the id counter advances by one exactly on Ok |
| GroupMessageController.DeleteDecision | app/Http/Controllers/GroupMessageController.php:71-73 | Ok exactly for the author or a moderator of the message's group; NotFound exactly for a missing message |
| GroupMessageController.DeleteKeepsGroupMessageTable | app/Http/Controllers/GroupMessageController.php:75 | deleting a message keeps the table valid |
| GroupMessageController.DeleteMessage | app/Http/Controllers/GroupMessageController.php:67-78 | the delete guard's outcome; on Ok the message is gone and its replies detached |
| Ordering.SortDesc | app/Http/Controllers/UserContrller.php:20 | `orderBy(..., 'desc')`: a permutation of its input ordered by descending key |
| Ordering.SortAsc | app/Http/Controllers/ChatController.php:24 | `orderBy(...)` ascending: a permutation of its input ordered by ascending key |
| Ordering.MaxBy | app/Http/Controllers/UserContrller.php:34-35 | `orderBy(..., 'desc')->first()`: none exactly on no rows, else a row with the greatest key |
| Ordering.FirstOfSortedIsMax | app/Http/Controllers/UserContrller.php:48-55 | the first of the rows sorted descending has the greatest key |
| UserController.OthersInTableOrder | app/Http/Controllers/UserContrller.php:19 | exactly the users other than the actor |
| UserController.OtherUsers | app/Http/Controllers/UserContrller.php:19-21 | exactly the users other than the actor, by descending id |
| UserController.OtherUsersStrictlyDescending | app/Http/Controllers/UserContrller.php:19-21 | with unique ids, each other user appears once, in strictly descending id order |
| UserController.LastMessage | app/Http/Controllers/UserContrller.php:25-35 | none exactly when the two users exchanged nothing, else one of their messages with no later one |
| UserController.LastMessageShared | app/Http/Controllers/UserContrller.php:25-33 | the last message of a pair is the same from either side |
| UserController.LastMessageIsLastRow | app/Http/Controllers/UserContrller.php:34-35 | on a chronological table the last message is as late as the conversation's last row |
| UserController.Entry | app/Http/Controllers/UserContrller.php:37-42 | one user's entry: its id and name, and the text and time of a latest message between the two users, both null exactly when there is none |
| UserController.Index | app/Http/Controllers/UserContrller.php:14-76 | one user entry per other user and one group entry per group of the actor |
| UserController.IndexListsOtherUsers | app/Http/Controllers/UserContrller.php:24-43 | entry i shows the i-th other user with the text and time of their latest message with the actor, both null exactly without one |
| UserController.IndexListsMemberGroups | app/Http/Controllers/UserContrller.php:46-70 | entry i shows the i-th of the actor's groups with count, flags, and the message of latest creation time |
| ClientMessages.FromRow | resources/js/Composables/useChatMessages.js:5 | a page copy of a stored message keeps its id, parties, delivery time and read flag, without a client status |
| ClientMessages.Copies | resources/js/Composables/useChatMessages.js:5 | the page's list copies each initial message, in order |
| ClientMessages.Find | resources/js/Composables/useChatMessages.js:12-27 | the first message with the id, or still sending with the same text and sender; none exactly when none matches |
| ClientMessages.Updated | resources/js/Composables/useChatMessages.js:29-36 | the patch is applied to the first match only, the sender defaulting to the page's user; with no match nothing changes |
| ClientMessages.Assign | resources/js/Composables/useChatMessages.js:32 | `Object.assign`: the patched status, text and sender, every other field of the element kept |
| ClientMessages.Replaced | resources/js/Composables/useChatMessages.js:39-55 | the first still-sending message with the temporary one's text and sender becomes the stored message marked sent; nothing else changes |
| ClientMessages.ReplacedKeepsOthers | resources/js/Composables/useChatMessages.js:39-55 | replacing touches no element that is not a placeholder of the temporary message |
| ClientMessages.Placeholder | resources/js/Composables/useChatMessages.js:60-70 | the temporary message: the temporary id, status sending, no delivery time, unread; it is a placeholder exactly for messages with its text and the page's user as sender |
| ClientMessages.Adopted | resources/js/Composables/useChatMessages.js:81-86 | the first message of the reloaded page, in page order, with the same text and sender that the list does not hold yet; none exactly when every such message is already listed |
| ClientMessages.AfterSuccess | resources/js/Composables/useChatMessages.js:79-105 | the list after a successful send has the same length, and changes no element other than this send's placeholder and elements still being sent |
| ClientMessages.PendingMatchesServer | resources/js/Composables/useChatMessages.js:120-124 | the page asks to mark exactly when the server has a message awaiting that mark |
| ClientMessages.NoRepostAfterBatch | resources/js/Composables/useChatMessages.js:119-145 | after the server marked the batch, a reloaded page asks for nothing more |
| ClientMessages.SendThenFail | resources/js/Composables/useChatMessages.js:107-115 | a failed send marks exactly the new placeholder failed |
| ClientMessages.SendThenAdopt | resources/js/Composables/useChatMessages.js:79-89 | a successful send replaces the placeholder with the stored message, marked sent |
| ClientMessages.SendThenFallBack | resources/js/Composables/useChatMessages.js:90-97 | a reply without the sent text leaves the placeholder in place, marked sent |
| ClientMessages.ChatList.constructor | resources/js/Composables/useChatMessages.js:4-5 | the list starts as copies of the initial messages |
| ClientMessages.ChatList.AddMessage | resources/js/Composables/useChatMessages.js:7-9 | appends a copy at the end |
| ClientMessages.ChatList.FindMessage | resources/js/Composables/useChatMessages.js:12-27 | the message Find locates, or none |
| ClientMessages.ChatList.UpdateMessageStatus | resources/js/Composables/useChatMessages.js:29-36 | the list becomes Updated of the old list |
| ClientMessages.ChatList.ReplaceTemporaryMessage | resources/js/Composables/useChatMessages.js:39-55 | the list becomes Replaced of the old list |
| ClientMessages.ChatList.SendMessage | resources/js/Composables/useChatMessages.js:57-76 | a blank text sends nothing and changes nothing; otherwise a sending placeholder is appended and a store request for the other user goes out |
| ClientMessages.ChatList.OnSendSuccess | resources/js/Composables/useChatMessages.js:79-106 | the stored message found on the reloaded page replaces the placeholder, otherwise the placeholder is marked sent |
| ClientMessages.ChatList.OnSendError | resources/js/Composables/useChatMessages.js:107-115 | the placeholder is marked failed |
| ClientMessages.ChatList.MarkAsDelivered | resources/js/Composables/useChatMessages.js:119-131 | posts exactly when some message from the other user to this one is undelivered |
| ClientMessages.ChatList.MarkAsRead | resources/js/Composables/useChatMessages.js:133-145 | posts exactly when some message from the other user to this one is unread |
| ChatHelpers.MessageStatus | resources/js/Utils/chatHelpers.js:9-27 | no indicator on another user's message; on one's own "failed", "read", "delivered" and "sending" each exactly in their case, always a key of the icon set |
| ChatHelpers.StoredMessageStatus | resources/js/Utils/chatHelpers.js:13-26 | for a copy of a stored message the indicator is read, else delivered, else sent |
| ChatHelpers.StatusNeverRegresses | resources/js/Utils/chatHelpers.js:15-19 | as the server moves messages forward, no indicator of one's own reloaded messages moves back |
| ChatRealtime.TrimJs | resources/js/Composables/useChatRealtime.js:25 | the string with a blank prefix and a blank suffix cut off, starting and ending with a non-blank character; empty exactly for a blank string |
| ChatRealtime.StringToNumber | resources/js/Composables/useChatRealtime.js:25 | a blank string converts to 0 and a run of decimal digits to its value |
| ChatRealtime.StrictEquals | resources/js/Composables/useChatRealtime.js:30 | `===` against a number holds only for a number |
| ChatRealtime.LooseEquals | resources/js/Composables/useChatRealtime.js:25 | `==` against a number holds whenever `===` does, and for a string of decimal digits exactly when its value is the number |
| ChatRealtime.Forwards | resources/js/Composables/useChatRealtime.js:22-44 | delivery and read notices are always passed on; a new message exactly when its sender loosely equals the other user; a typing whisper exactly when its sender is the other user and its receiver this one, as numbers |
| ChatRealtime.StringIdPassesOnlyLooseTest | resources/js/Composables/useChatRealtime.js:25-30 | an id delivered as a string passes the `==` filter of MessageSent but not the `===` filter of the whisper |
| ChatRealtime.SendTypingEvent | resources/js/Composables/useChatRealtime.js:47-57 | always returns the current time; whispers exactly when a second or more has passed, on the other user's chat channel, from this user to them |
| ChatRealtime.WhisperReachesPeer | resources/js/Composables/useChatRealtime.js:29-54 | the whisper goes to the other user's channel, their page forwards it, and a page talking to anyone else drops it |
| ChatRealtime.WhisperChannelDeniedToSender | resources/js/Composables/useChatRealtime.js:51 | the whisper's channel `chat.{user.id}` is refused to the whispering user by the `chat.{userId}` authorization |
| ChatRealtime.SteadyTypingWhispersOnce | resources/js/Composables/useChatRealtime.js:47-57 | keystrokes less than a second apart whisper at most once, at the first |
| ChatRealtime.StaysQuiet | resources/js/Composables/useChatRealtime.js:49 | within the throttle window each keystroke keeps the next one quiet |
| ChatRealtime.Report | resources/js/Composables/useChatRealtime.js:10-19 | `here` reports whether the other user is present; `joining` and `leaving` report true or false for the other user only |
| ChatRealtime.OnlineTracksPresence | resources/js/Composables/useChatRealtime.js:9-19 | once the status agrees with presence it keeps agreeing through any callbacks |
| ChatTyping.OnTypingEvent | resources/js/Composables/useChatTyping.js:8-14 | the flag goes on and the timer is due two seconds later |
| ChatTyping.Elapse | resources/js/Composables/useChatTyping.js:10-12 | a due timer clears the flag; otherwise nothing changes |
| ChatTyping.Apply | resources/js/Composables/useChatTyping.js:8-20 | one step: a whisper turns the flag on; a clock step never turns it on; only a stamp changes lastTypedAt, to the stamped value |
| ChatTyping.RunConsistent | resources/js/Composables/useChatTyping.js:3-20 | in every reachable state the flag is on exactly while a timer is pending, due two seconds after the latest whisper |
| ChatTyping.TypingIffRecentWhisper | resources/js/Composables/useChatTyping.js:8-14 | the indicator is on exactly when the latest whisper came less than two seconds ago |
| ChatTyping.LastTypedAtIsLastStamp | resources/js/Composables/useChatTyping.js:16-20 | the stored keystroke time is the last one stored, or 0 |
| ChatTyping.TypingIndicator.constructor | resources/js/Composables/useChatTyping.js:4-6 | not typing, no timer, keystroke time 0 |
| ChatTyping.TypingIndicator.HandleTypingEvent | resources/js/Composables/useChatTyping.js:8-14 | the state becomes OnTypingEvent of the old state |
| ChatTyping.TypingIndicator.Tick | resources/js/Composables/useChatTyping.js:10-12 | the state becomes Elapse of the old state |
| ChatTyping.TypingIndicator.UpdateLastTypedAt | resources/js/Composables/useChatTyping.js:16-18 | only the stored keystroke time changes |
| ChatTyping.TypingIndicator.GetLastTypedAt | resources/js/Composables/useChatTyping.js:20 | returns the stored keystroke time |

## Left out

- Transport:
  - the websocket server, the queue behind `ShouldBroadcast` and the Echo client are not modelled;
  - a broadcast is an entry appended to `outbox`, flagged `toOthers` when the caller's own socket is excluded;
  - listeners are modelled on what arrives.
- Time:
  - `now()`, `Date.now()` and `setTimeout` become `Time` parameters;
  - one batch of `show`, `markAsRead` or `markAsDelivered` shares one timestamp, where the source calls `now()` once per row, so rows of one batch may get different `delivered_at` values;
  - the timer of `useChatTyping` is a deadline, fired by `Tick`.
- The random temporary id of `sendMessage` is a `tag` parameter.
- Console and `Log::info` output is left out.
- Database concurrency and transactions are left out; each action runs alone on the tables.
- Image uploads and storage (GroupController.php:97-100, 138-144, 163-165) are left out. `image` is kept only as a column that creation sets to none.
- Attachments are kept as an opaque optional column.
- Sessions, flash messages, redirects and Inertia page rendering are left out.
- Pagination is left out.
- The members and users lists of `GroupController::show` (GroupController.php:49-84) are left out. Show returns only the guard's outcome and the admin and moderator flags.
- The User and Message models, and the migrations of users, messages, groups and group_members, are not part of this model:
  - their columns are taken as the controllers use them;
  - deleting a group is assumed to delete its group_members rows.
- MessageSent, MessageRead and UserJoinedGroup are not part of this model. They appear only as event constructors that carry their message or user.
- `useGroupRealtime`, `useChatScroll`, `bootstrap.js` and the route table are left out.
- The markup of `statusIcons` is left out; only its keys are kept.
- ClientMessages.ChatList.OnSendSuccess: the page's props after a successful send arrive as a parameter, not from the server.
- GroupController.Update: `is_private` and `max_members` are required values. Omitted or null request fields are not modelled.
- GroupController.Create: the validation of `max_members` is modelled as a range check on a given integer. Non-integer input is not modelled.
- Decimal.PhpIntCast: exponent and hexadecimal forms of PHP's integer cast are not modelled. Whitespace, sign and the digit prefix are.
- ChatRealtime.StringToNumber: only blank strings and runs of decimal digits are converted. Every other form is None: a sign, a fraction, an exponent, hex, Infinity.
- ChatRealtime.Forwards: payload ids are numbers or strings only. Booleans and null are not modelled.
- Comparisons between ids of different PHP types are taken as integer comparisons: `created_by === Auth::id()` in GroupController.php:159 and 197, `Auth::id() !== $user->id` and `created_by === $user->id` in GroupMemberController.php:66 and 70, and `user_id !== Auth::id()` in GroupMessageController.php:71.
- Laravel's default input middleware (`TrimStrings`, `ConvertEmptyStringsToNull`) is not part of this model. The `required` rule is modelled as "not only white space" (Basics.Filled), but the stored text is the request text untouched:
  - ChatController.Send stores `text` as given, where a default application would store it trimmed;
  - GroupMessageController.Post stores it as given and measures `max:1000` on the untrimmed text;
  - ClientMessages.SendThenAdopt therefore assumes the stored body equals the sent text; ClientMessages.SendThenFallBack covers a reply whose stored text differs.
- GroupMessageController.Post:
  - the reply target is resolved in the table as it was before the insert;
  - since the rule requires an existing target, that is the same row as after it.
- ChatController.MarkAsRead: the MessageRead event is not part of this model, so whether its `->toOthers()` takes effect is unknown; the notices are recorded with the flag as the call is written.
- Channels.FindGroupByKey: the key is compared with the id as exact decimal digits (leading zeros allowed). A database that converts `'5abc'` or `' 5'` to 5 when comparing with the integer column, as MySQL does, would also find group 5; that is not modelled.
- Channels.Authorize: the `.` of a registered pattern is matched literally. Laravel turns `chat.{userId}`, `group.{groupId}` and `presence.chat` into regular expressions without escaping the dot, so it matches any one character, and a name such as `chat-5` is granted to user 5 by the source but denied by the model. No event of the program is broadcast on such a name.

## Findings

| source | as written | input that shows it | evidently intended | confidence | as-written member | corrected member |
|---|---|---|---|---|---|---|
| app/Events/UserLeftGroup.php:28 | `UserLeftGroup` broadcasts on the public `Channel('group.' . id)`, whose wire name is `group.{id}` | any group with id g: the group page listens for UserLeftGroup on `echo.private('group.g')` (resources/js/Composables/useGroupRealtime.js:12-23), wire name `private-group.g`, the channel of GroupMessageSent, while the notice goes to `group.g` | broadcast on `PrivateChannel('group.' . id)` like GroupMessageSent | not executed | Events.UserLeftGroupMissesPrivateSubscribers | Events.UserLeftGroupOnPrivate |
