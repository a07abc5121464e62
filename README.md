# convex-chat backend, modelled in Dafny

This project models the server side of a real-time chat application built on Convex. The model covers:

- the request handlers under `convex/controllers/`: users, direct and group conversations, messages, read marks, emoji reactions and typing status;
- the three pieces of client logic that interpret their results:
  - the user helpers (initials, online dot, avatar colour, "last seen" label);
  - the typing indicator, which hides stale typers on a one-second clock;
  - the message bubble, which groups reactions into pills.

The database is modelled as a class `Store.Store` with one map per table (`users`, `conversations`, `messages`, `conversationReads`, `reactions`, `typing`) and one id counter `nextId`.

- A table scan visits the ids in ascending order, which is creation order (`Store.Ids`).
- `Store.Store.Valid` states the invariants the handlers keep:
  - every key is below `nextId`;
  - one user per `clerkId`;
  - at most one direct conversation per pair of users;
  - one read row per (user, conversation);
  - one typing row per (user, conversation);
  - one reaction per (user, message).

Mutations are methods that `modify` the store. Queries are functions that `read` it.

- A thrown `Error` is modelled as `Err(e)`.
- A query's early `null` is modelled as `Ok(None)`, or `None`.
- The authenticated identity (`ctx.auth.getUserIdentity()`) and the clock (`Date.now()`) are parameters.
- A handler checks, in order: authentication, the caller's user record, the conversation or message, then membership. These checks are shared as `Store.Authenticate`, `Store.Admit` and `Reactions.AdmitToMessage`.

Each mutation's contract states its whole new state and the per-user view it changes:

- `Summaries.ReadMark` for read marks;
- `Reactions.ReactionOf` for reactions;
- `TypingStatus.TypingSince` for typing.

Each one also states that every other user's view is unchanged. The `Scenarios` module chains handler calls to state what the source promises across calls:

- direct conversations are found from either side;
- reacting twice with the same emoji undoes the first reaction;
- `markAsRead` and `deleteMessage` can be replayed safely.

In `createOrGetDirectConversation` the self check (`convex/controllers/conversation/createOrGetDirectConversation.ts:26-28`) comes before the peer lookup. So a caller who names their own `clerkId` gets `SelfConversation`, never `OtherUserNotFound`.

## Model

| member | source | states |
|---|---|---|
| Store.Store.constructor | convex/schema.ts:9-16 | a fresh store has the six tables, all empty, and satisfies the invariants |
| Store.Ids | convex/controllers/conversation/getConversations.ts:17 | a full table scan lists exactly the table's ids below the counter, in increasing (creation) order |
| Store.IdsInsert | convex/controllers/message/sendMessage.ts:45-51 | inserting a row with the next id appends that id at the end of the scan |
| Store.IdsAgree | convex/controllers/message/deleteMessage.ts:40 | two tables with the same keys scan in the same order, so patching a row never reorders a scan |
| Store.FirstWhere | convex/controllers/conversation/createOrGetDirectConversation.ts:44-50 | `find`: a hit is a scanned row satisfying the predicate; a miss means no scanned row satisfies it |
| Store.Where | convex/controllers/typing/getTypingStatus.ts:40-42 | `filter`: keeps exactly the scanned rows satisfying the predicate, in scan order |
| Store.FindUserByClerkId | convex/controllers/user/createUserIfNotExists.ts:9-14 | the `by_clerkId` lookup finds a user with that clerkId, or none exists among the scanned ids |
| Store.Lookup | convex/controllers/message/deleteMessage.ts:15-18 | in a valid store, the lookup returns the one user whose clerkId is the subject, and `None` only when there is none |
| Store.Authenticate | convex/controllers/message/deleteMessage.ts:10-22 | no identity is `Not authenticated`; an identity without a user record is `Current user not found`; otherwise the caller's user id |
| Store.FindRead | convex/controllers/message/markAsRead.ts:46-53 | the `by_user_conversation` read row of (user, conversation): under the invariants it is the unique such row, and `None` when there is none |
| Store.FindTyping | convex/controllers/typing/setTyping.ts:35-42 | the caller's typing row in the conversation: the unique such row, or `None` |
| Store.FindReaction | convex/controllers/reaction/updateReaction.ts:46-51 | the `by_message_user` reaction of (message, user): the unique such row, or `None` |
| Store.ProfileOf | convex/controllers/message/getMessages.ts:55-59 | a user's public profile, or `Unknown User` with null clerkId and image when the user record is missing |
| Store.CheckMember | convex/controllers/message/markAsRead.ts:33-41 | a missing conversation is `Conversation not found`; a non-member is `not a member`; otherwise the conversation |
| Store.Admit | convex/controllers/message/markAsRead.ts:17-41 | the four checks in source order, each with its own error, and the caller's id exactly when the caller is a member of an existing conversation |
| Schema.ParseEmoji | convex/schema/reaction.ts:8-14 | only the five allowed emoji strings parse, each to the emoji whose text it is |
| Schema.ParseEmojiText | convex/controllers/reaction/updateReaction.ts:7-13 | every allowed emoji's text parses back to that emoji |
| Seqs.FirstIndex | convex/controllers/conversation/createGroup.ts:43 | the position of an element's first occurrence |
| Seqs.FirstOccurrencesSnoc | convex/controllers/conversation/createGroup.ts:43 | `new Set` insertion order: appending an element adds it once, at the end, only if it is new |
| Seqs.FirstOccurrencesSpec | convex/controllers/conversation/createGroup.ts:43 | deduplication keeps every element once, nothing else, in order of first occurrence |
| Seqs.FirstIndexOfPrefix | app/components/conversation/MessageBubble.tsx:36-39 | the first occurrence in a prefix is the first occurrence in the whole sequence |
| Seqs.Remove | convex/controllers/conversation/createGroup.ts:43-45 | `filter(id => id !== me)`: exactly the other elements, and no duplicates introduced |
| Seqs.Dedup | convex/controllers/user/getUsers.ts:57-62 | the `seen`-set loop keeps the first occurrence of each element, in order |
| Text.TrimStart | convex/controllers/message/sendMessage.ts:37 | removes exactly the leading whitespace |
| Text.TrimEnd | convex/controllers/message/sendMessage.ts:37 | removes exactly the trailing whitespace |
| Text.Trim | convex/controllers/message/sendMessage.ts:37 | `trim`: never longer than the input, no whitespace left at either end, and empty for an all-whitespace input |
| Text.TrimEmptyIffBlank | convex/controllers/message/sendMessage.ts:37-40 | the trimmed text is empty exactly when the text is all whitespace |
| Text.TrimIdempotent | convex/controllers/conversation/createGroup.ts:37 | a trimmed text has no whitespace at either end, and trimming again changes nothing |
| Text.ToLower | convex/controllers/user/getUsers.ts:26 | lower-cases each character in place, keeping the length |
| Text.ToUpper | app/lib/helpers/userHelpers.ts:8 | upper-cases each character in place, keeping the length |
| Text.ToLowerIdempotent | convex/controllers/user/getUsers.ts:68-69 | lower-cased text has no capital letters, and lower-casing again changes nothing |
| Text.Contains | convex/controllers/user/getUsers.ts:68-69 | `includes` holds exactly when the term occurs at some position |
| Text.OccursInMiddle | convex/controllers/user/getUsers.ts:68-69 | any text is contained in any text that surrounds it |
| Text.LexLessTotal | convex/controllers/user/getUsers.ts:47 | string order is irreflexive, and decides every pair of distinct strings one way |
| Text.Split | app/lib/helpers/userHelpers.ts:4 | `split(" ")` yields at least one piece, none of which holds the separator |
| Text.JoinSplit | app/lib/helpers/userHelpers.ts:3-4 | joining the pieces of a split with the separator restores the text |
| Text.SplitJoin | app/lib/helpers/userHelpers.ts:3-4 | splitting a join of separator-free words returns the words |
| Text.Decimal | app/lib/helpers/userHelpers.ts:16 | the decimal rendering of a number is a non-empty digit string with no leading zero |
| Text.DecimalRoundTrip | app/lib/helpers/userHelpers.ts:16-17 | reading the decimal rendering back yields the number |
| Users.CreateUserIfNotExists | convex/controllers/user/createUserIfNotExists.ts:4-32 | without an identity, the error and no change; a new subject gets a new user row from the identity's claims; a known subject has only its `lastSeenAt` set to now; afterwards a user with that subject exists |
| Users.NewUser | convex/controllers/user/createUserIfNotExists.ts:19-26 | the inserted user: the subject as `clerkId`, the picture claim, name and email defaulting to "", and `lastSeenAt` = `createdAt` = now |
| Users.UpdateLastSeen | convex/controllers/user/updateLastSeen.ts:4-19 | without an identity, silently nothing; an unknown subject is `Current user not found` with no change; otherwise only the caller's `lastSeenAt` becomes now |
| Users.Views | convex/controllers/user/getUsers.ts:73-80 | one public view per selected user, in order |
| Users.SearchTerm | convex/controllers/user/getUsers.ts:26 | "" without a search; otherwise no longer than the input, "" for a blank input, and with no capital letters left |
| Users.MatchesTerm | convex/controllers/user/getUsers.ts:67-70 | the empty term matches every user, and a match needs a name or email at least as long as the term |
| Users.AllExcept | convex/controllers/user/getUsers.ts:30-33 | exactly the scanned users other than the caller |
| Users.Matching | convex/controllers/user/getUsers.ts:65-71 | exactly the scanned users other than the caller whose lower-cased name or email contains the term |
| Users.RangeCandidates | convex/controllers/user/getUsers.ts:45-54 | the two index range scans return only users whose name or email sorts at or after the term |
| Users.SearchAsWritten | convex/controllers/user/getUsers.ts:44-71 | the search as written: every result is a matching user other than the caller whose name or email sorts at or after the term |
| Users.SearchWithSeenSet | convex/controllers/user/getUsers.ts:56-71 | the search as written; every result matches the term and is not the caller |
| Users.SearchAsWrittenMissesMatch | convex/controllers/user/getUsers.ts:44-71 | "Bob Smith" matches "smith", yet the range-scan search as written returns nothing |
| Users.EmptyTermMatchesAll | convex/controllers/user/getUsers.ts:28-41 | an empty term matches every user, so the search branch and the list-all branch agree |
| Users.SearchListsMatches | convex/controllers/user/getUsers.ts:64-71 | the corrected search lists every other user whose lower-cased name or email contains the term, each once, and nobody else |
| Users.GetUsers | convex/controllers/user/getUsers.ts:9-81 | no identity throws; otherwise a result, null or a list; every listed user is a projection of a stored user, matches the trimmed, lower-cased term, and is not the caller; the search branch is the corrected one (see the finding) |
| Users.GetUsersSpec | convex/controllers/user/getUsers.ts:9-81 | no identity throws; a caller without a user record gets null; otherwise exactly the other users matching the trimmed, lower-cased term |
| Conversations.FindDirect | convex/controllers/conversation/createOrGetDirectConversation.ts:44-50 | finds a direct conversation of exactly the two users, or none exists among the scanned ones |
| Conversations.FindDirectSymmetric | convex/controllers/conversation/createOrGetDirectConversation.ts:44-50 | the search gives the same answer from either user's side |
| Conversations.FindDirectUnique | convex/controllers/conversation/createOrGetDirectConversation.ts:44-50 | under the invariant, the search returns the one direct conversation of the pair |
| Conversations.InsertDirectKeepsPairsUnique | convex/controllers/conversation/createOrGetDirectConversation.ts:71-96 | creating a direct conversation for a pair without one keeps one conversation per pair |
| Conversations.CreateOrGetDirectConversation | convex/controllers/conversation/createOrGetDirectConversation.ts:10-96 | the error cases in source order, each leaving the store unchanged; success exactly when both users exist and differ; returns the pair's existing conversation unchanged, or creates it once (`isNew`) |
| Conversations.InsertDirect | convex/controllers/conversation/createOrGetDirectConversation.ts:71-82 | inserts the new direct conversation under the next id, which the search then finds |
| Conversations.NewDirect | convex/controllers/conversation/createOrGetDirectConversation.ts:73-78 | the inserted record is a direct conversation of exactly the two users, seen from either side, created by the caller at now, with no last message |
| Conversations.OtherMembers | convex/controllers/conversation/createGroup.ts:43-45 | the requested members without duplicates and without the caller, none lost |
| Conversations.NewGroupMembers | convex/controllers/conversation/createGroup.ts:64 | the group's members are the caller first, then the others, with no duplicates and at least two |
| Conversations.CreateGroup | convex/controllers/conversation/createGroup.ts:21-78 | the error cases in source order (blank name, no other member, unknown member), each with no change; a non-blank name with at least one other member, all of them existing, always succeeds; on success a group named by the trimmed name whose members all exist and are distinct |
| Conversations.InsertGroup | convex/controllers/conversation/createGroup.ts:63-73 | inserts the group under the next id; its members are distinct, at least two, and all exist |
| Conversations.NewGroup | convex/controllers/conversation/createGroup.ts:63-73 | the inserted record is a group with the given name, created by the caller at now, with the caller first and then the invitees, and no last message |
| Conversations.FirstOther | convex/controllers/conversation/getOtherUserLastSeen.ts:33-35 | `members.find(id => id !== me)`: the first member other than the caller, or none when every member is the caller |
| Conversations.GetOtherUserLastSeen | convex/controllers/conversation/getOtherUserLastSeen.ts:9-66 | null before sign-in; the membership errors; a direct header with the first other member's profile and last-seen time, or `Unknown User` with null fields when that member has no record or there is none; a group header with its name, member count and each member's profile |
| Summaries.CountUnread | convex/controllers/conversation/getConversations.ts:40-51 | counts the conversation's non-deleted messages from others after the read mark; zero exactly when there are none |
| Summaries.CountUnreadAgree | convex/controllers/conversation/getConversations.ts:49-51 | the count depends only on the rows it scans |
| Summaries.CountUnreadInsert | convex/controllers/message/sendMessage.ts:45-51 | a new message raises a reader's count by one exactly when it is unread for them |
| Summaries.CountUnreadMono | convex/controllers/conversation/getConversations.ts:49-51 | fewer unread messages give a count no larger |
| Summaries.LaterMarkFewerUnread | convex/controllers/message/markAsRead.ts:55-59 | moving the read mark forward never raises the unread count |
| Summaries.DeleteNoMoreUnread | convex/controllers/message/deleteMessage.ts:40 | deleting a message never raises anyone's unread count |
| Summaries.ReadMark | convex/controllers/conversation/getConversations.ts:27-36 | the caller's `lastReadAt` in the conversation, or 0 without a read row |
| Summaries.ReadMarkOwnRows | convex/controllers/conversation/getConversations.ts:27-36 | a read mark depends only on that user's rows for that conversation |
| Summaries.Preview | convex/controllers/conversation/getConversations.ts:54-62 | no preview without an existing last message; the deletion text for a deleted one; else its content |
| Summaries.SummaryOf | convex/controllers/conversation/getConversations.ts:65-109 | one conversation row: unread count, preview and `lastMessageAt ?? createdAt`; a direct row shows the first other member's name, picture, `clerkId` and last-seen time (or `Unknown User` with null fields); a group row shows its name (or `Unnamed Group`) and member count |
| Summaries.SummariesOf | convex/controllers/conversation/getConversations.ts:24-25 | one row per selected conversation, in order |
| Summaries.InsertByRecent | convex/controllers/conversation/getConversations.ts:116-121 | insertion adds the row to a sorted list and keeps it sorted |
| Summaries.SortByRecent | convex/controllers/conversation/getConversations.ts:116-121 | the sort is a permutation, ordered by `lastMessageAt` descending, then by unread count descending |
| Summaries.MyConversations | convex/controllers/conversation/getConversations.ts:17-21 | exactly the conversations the caller belongs to, in scan order |
| Summaries.GetConversations | convex/controllers/conversation/getConversations.ts:4-15 | null exactly before sign-in or before the caller's user record exists; otherwise a sorted list |
| Summaries.GetConversationsSpec | convex/controllers/conversation/getConversations.ts:4-123 | the list is sorted and holds exactly one correct summary of each conversation the caller belongs to, and nothing else |
| Summaries.MyRows | convex/controllers/conversation/getConversations.ts:17-121 | the same, stated for the caller's user id |
| Summaries.SortedRowsSpec | convex/controllers/conversation/getConversations.ts:24-121 | sorting the rows of distinct conversations keeps each row exactly once |
| Summaries.OccursOnce | convex/controllers/conversation/getConversations.ts:24-25 | rows of distinct conversations occur once each |
| Messages.UpsertReadMark | convex/controllers/message/markAsRead.ts:46-66 | patches the caller's read row (only forward, when asked) or inserts one; the caller's mark becomes the new time (or the later of the two); every other mark is unchanged |
| Messages.PatchReadRow | convex/controllers/message/markAsRead.ts:57-58 | patching the caller's row sets their mark and keeps the invariant and all other marks |
| Messages.InsertReadRow | convex/controllers/message/markAsRead.ts:61-65 | inserting the caller's first row sets their mark and keeps the invariant and all other marks |
| Messages.InsertMessage | convex/controllers/message/sendMessage.ts:45-57 | inserts the message under the next id and makes it the conversation's last message |
| Messages.ReadIndexBeyond | convex/controllers/message/sendMessage.ts:61-78 | read lookups ignore ids past the rows that exist |
| Messages.SendMessage | convex/controllers/message/sendMessage.ts:11-80 | the checks' errors and blank content leave the store unchanged; an admitted caller with non-blank content always succeeds; the trimmed message is stored, the conversation points at it, and the sender's read mark becomes the send time |
| Messages.Post | convex/controllers/message/sendMessage.ts:42-78 | the three writes of a send: message, conversation, and the sender's read row (patched or inserted) |
| Messages.DeleteMessage | convex/controllers/message/deleteMessage.ts:9-42 | the errors in source order with no change; the author's call marks the message deleted and touches nothing else; deleting a deleted message changes nothing |
| Messages.MarkAsRead | convex/controllers/message/markAsRead.ts:16-68 | the checks' errors leave the store unchanged; otherwise the caller's mark becomes the later of the old mark and now, a row is inserted only when none existed, an existing row with an earlier mark is patched in place, an older `now` changes nothing, and other marks are unchanged |
| Messages.ViewOfMessage | convex/controllers/message/getMessages.ts:48-60 | content is null exactly for a deleted message; `isMine` exactly for the caller's messages; the sender's profile |
| Messages.ViewsOf | convex/controllers/message/getMessages.ts:44-62 | one view per selected message, in order |
| Messages.InsertByTime | convex/controllers/message/getMessages.ts:35-41 | insertion adds the view to an oldest-first list and keeps it ordered |
| Messages.SortByTime | convex/controllers/message/getMessages.ts:35-41 | a permutation ordered by `createdAt` ascending |
| Messages.MessagesIn | convex/controllers/message/getMessages.ts:35-39 | exactly the conversation's messages, in scan order |
| Messages.GetMessages | convex/controllers/message/getMessages.ts:9-31 | null before sign-in or a user record; the membership errors; otherwise an oldest-first list |
| Messages.GetMessagesSpec | convex/controllers/message/getMessages.ts:9-64 | the list holds one correct view of every message of the conversation, and nothing else |
| Messages.ConversationViews | convex/controllers/message/getMessages.ts:35-62 | the same, stated over the message table |
| Messages.SortedViewsSpec | convex/controllers/message/getMessages.ts:35-62 | sorting the views of distinct messages keeps each view exactly once |
| Messages.ViewOccursOnce | convex/controllers/message/getMessages.ts:44-62 | views of distinct messages occur once each |
| Reactions.ReactionOf | convex/controllers/reaction/updateReaction.ts:46-51 | a user's current emoji on a message, or none without a reaction row |
| Reactions.ReactionOfOwnRows | convex/controllers/reaction/updateReaction.ts:46-51 | a user's reaction depends only on their own rows for that message |
| Reactions.AdmitToMessage | convex/controllers/reaction/updateReaction.ts:16-43 | the checks in source order; a missing or deleted message is `Message not found`; a missing conversation or non-member is `not a member` |
| Reactions.UpdateReaction | convex/controllers/reaction/updateReaction.ts:4-75 | an invalid emoji or failed check leaves the store unchanged; otherwise the same emoji removes the caller's reaction, another emoji replaces it, and none adds it; no other user's reaction changes |
| Reactions.Toggle | convex/controllers/reaction/updateReaction.ts:53-75 | the three branches and the caller's resulting reaction |
| Reactions.RemoveReaction | convex/controllers/reaction/updateReaction.ts:54-57 | deletes the caller's row, leaving them without a reaction and others unchanged |
| Reactions.ReplaceReaction | convex/controllers/reaction/updateReaction.ts:58-65 | overwrites the caller's row with the new emoji and time |
| Reactions.AddReaction | convex/controllers/reaction/updateReaction.ts:66-75 | inserts the caller's first reaction under the next id |
| Reactions.RemoveReactionRow | convex/controllers/reaction/updateReaction.ts:56 | deleting the row keeps one reaction per (user, message) |
| Reactions.ReplaceReactionRow | convex/controllers/reaction/updateReaction.ts:60-63 | overwriting the row keeps one reaction per (user, message) and sets the new emoji |
| Reactions.InsertReactionRow | convex/controllers/reaction/updateReaction.ts:68-73 | inserting the first row keeps one reaction per (user, message) and sets the emoji |
| Reactions.ChangedOneReaction | convex/controllers/reaction/updateReaction.ts:53-75 | when only the caller's row for the message changed, every other reaction reads the same |
| Reactions.ViewOfReaction | convex/controllers/reaction/getReactionsByConversation.ts:98-108 | the reactor's name and image (or `Unknown User`), the emoji, and `isMine` exactly for the caller's reactions |
| Reactions.ReactionsTo | convex/controllers/reaction/getReactionsByConversation.ts:47-54 | the `by_message` scan: exactly the message's reactions, in creation order |
| Reactions.ReactionViewsOf | convex/controllers/reaction/getReactionsByConversation.ts:98-108 | one view per selected reaction, in order |
| Reactions.ReactionViewsSpec | convex/controllers/reaction/getReactionsByConversation.ts:94-110 | a message's list shows each of its reactions once, correctly, in creation order, and no user twice |
| Reactions.ViewsComplete | convex/controllers/reaction/getReactionsByConversation.ts:47-54 | every reaction of the message appears in its list |
| Reactions.ScanFindsReaction | convex/controllers/reaction/getReactionsByConversation.ts:47-54 | the scan finds every reaction to the message |
| Reactions.ViewsDistinct | convex/controllers/reaction/getReactionsByConversation.ts:94-110 | a message's list is in id order and shows no user twice |
| Reactions.GetReactionsByConversation | convex/controllers/reaction/getReactionsByConversation.ts:9-112 | null before sign-in; the check errors; an empty object when no message has a reaction; otherwise each message of the conversation keyed to its reaction list |
| Reactions.Collect | convex/controllers/reaction/getReactionsByConversation.ts:42-61 | empty when there are no messages or no reactions, else grouped by message |
| Reactions.GroupByMessage | convex/controllers/reaction/getReactionsByConversation.ts:94-110 | the loop keys exactly the conversation's messages, each to its reaction list |
| TypingStatus.TypingSince | convex/controllers/typing/setTyping.ts:35-42 | the `updatedAt` of a user's typing row in a conversation, or none without a row |
| TypingStatus.TypingOwnRows | convex/controllers/typing/setTyping.ts:35-42 | a user's typing state depends only on their own row |
| TypingStatus.ChangedOneTyping | convex/controllers/typing/setTyping.ts:44-61 | when only the caller's row changed, every other user's typing state reads the same |
| TypingStatus.SetTyping | convex/controllers/typing/setTyping.ts:10-61 | the checks' errors leave the store unchanged; `isTyping: false` deletes the caller's row if there is one and otherwise writes nothing; anything else patches that row's `updatedAt` in place (same id, so the scan order is kept) or inserts one under the next id; no one else's typing state changes |
| TypingStatus.StopTyping | convex/controllers/typing/setTyping.ts:45-50 | deletes the caller's row if there is one, else changes nothing |
| TypingStatus.Touch | convex/controllers/typing/setTyping.ts:53-61 | patches the caller's row to now, or inserts one |
| TypingStatus.PatchTyping | convex/controllers/typing/setTyping.ts:54 | sets the existing row's `updatedAt` to now |
| TypingStatus.InsertTyping | convex/controllers/typing/setTyping.ts:56-60 | inserts the caller's first row under the next id |
| TypingStatus.PatchTypingRow | convex/controllers/typing/setTyping.ts:54 | patching keeps one typing row per (user, conversation) |
| TypingStatus.ViewOfTyping | convex/controllers/typing/getTypingStatus.ts:48-55 | the typer's clerkId and name (or null and `Unknown User`) and the row's `updatedAt` |
| TypingStatus.OthersTyping | convex/controllers/typing/getTypingStatus.ts:32-42 | exactly the conversation's typing rows of users other than the caller, in scan order |
| TypingStatus.TypingViewsOf | convex/controllers/typing/getTypingStatus.ts:47-56 | one view per selected row, in order |
| TypingStatus.GetTypingStatus | convex/controllers/typing/getTypingStatus.ts:9-58 | null before sign-in or a user record; the membership errors; otherwise one view per selected row |
| TypingStatus.GetTypingStatusSpec | convex/controllers/typing/getTypingStatus.ts:31-58 | lists every other typing member once, with their view, never the caller, with no staleness filter |
| TypingIndicator.ActivePositions | app/components/conversation/TypingIndicator.tsx:33-34 | exactly the typers whose `updatedAt` is less than 3 s before now, in order |
| TypingIndicator.ActiveTypers | app/components/conversation/TypingIndicator.tsx:30-36 | nobody while the status is loading; otherwise the names of the fresh typers, in order |
| TypingIndicator.FreshNames | app/components/conversation/TypingIndicator.tsx:33-35 | the names of the fresh typers, in order |
| TypingIndicator.TypingText | app/components/conversation/TypingIndicator.tsx:38-45 | no text exactly when nobody is typing; otherwise a text that starts with the first typer's name |
| TypingIndicator.TypingTextAccountsForAll | app/components/conversation/TypingIndicator.tsx:40-45 | the text names the first typer, names the second when there are two, and gives the count of the others when there are more |
| TypingIndicator.StaleStaysStale | app/components/conversation/TypingIndicator.tsx:33-34 | as the clock advances, a stale typer never becomes fresh again |
| TypingIndicator.Indicator.constructor | app/components/conversation/TypingIndicator.tsx:15-20 | the indicator starts with the query's status and the current time |
| TypingIndicator.Indicator.Text | app/components/conversation/TypingIndicator.tsx:38-45 | the indicator renders nothing exactly when no typer is fresh |
| TypingIndicator.Indicator.Tick | app/components/conversation/TypingIndicator.tsx:20-26 | a clock tick only advances `now`, which can hide typers but never show new ones |
| TypingIndicator.Indicator.Receive | app/components/conversation/TypingIndicator.tsx:15-18 | a new query result replaces the status and keeps the clock |
| TypingIndicator.TyperIsShown | app/components/conversation/TypingIndicator.tsx:30-36 | a member who typed less than 3 s ago is named by the indicator of every other member |
| UserHelpers.Head | app/lib/helpers/userHelpers.ts:5 | `w[0]`: the first character, or nothing for an empty word |
| UserHelpers.Heads | app/lib/helpers/userHelpers.ts:5-7 | the joined first characters of the words |
| UserHelpers.GetInitials | app/lib/helpers/userHelpers.ts:2-9 | at most two characters, none lower-case, each the upper case of a character of the name |
| UserHelpers.HeadsFromName | app/lib/helpers/userHelpers.ts:3-7 | each initial comes from the name |
| UserHelpers.HeadsIn | app/lib/helpers/userHelpers.ts:3-7 | the first characters of the leading words occur in the joined name |
| UserHelpers.InitialsOfWords | app/lib/helpers/userHelpers.ts:2-9 | for a name of non-empty words, the initials are the upper-cased first letters of the first one or two words |
| UserHelpers.IsOnline | app/lib/helpers/userHelpers.ts:25-27 | online exactly when a non-zero last-seen time lies within the last 30 s |
| UserHelpers.OnlineFades | app/lib/helpers/userHelpers.ts:25-27 | an offline user stays offline as the clock advances; a later last-seen time is online whenever an earlier one is |
| UserHelpers.AvatarGradient | app/lib/helpers/userHelpers.ts:42-45 | a palette entry chosen by the first character's code modulo 5; nothing for an empty name |
| UserHelpers.LastSeenOf | app/lib/helpers/userHelpers.ts:12-18 | `Never online` exactly for a missing or zero time; otherwise the minute, hour or date bucket that contains the elapsed time |
| UserHelpers.LastSeenText | app/lib/helpers/userHelpers.ts:13-17 | every bucket has a label except the locale date |
| UserHelpers.FormatLastSeen | app/lib/helpers/userHelpers.ts:12-18 | a relative label exactly when the user was seen less than a day ago, or never |
| UserHelpers.LastSeenTextInjective | app/lib/helpers/userHelpers.ts:13-17 | different buckets never share a label |
| UserHelpers.DigitsBefore | app/lib/helpers/userHelpers.ts:16-17 | an `Nm ago` or `Nh ago` label reads back to N |
| UserHelpers.LastSeenAdvances | app/lib/helpers/userHelpers.ts:12-18 | as the clock advances, the label only moves from just now to minutes, hours and date, and the counts only grow |
| MessageBubble.Types | app/components/conversation/MessageBubble.tsx:36-37 | the emoji of each reaction, in order |
| MessageBubble.OfType | app/components/conversation/MessageBubble.tsx:37-38 | exactly the reactions of one emoji, in order |
| MessageBubble.GroupsFor | app/components/conversation/MessageBubble.tsx:40 | one group per key, holding that emoji's reactions |
| MessageBubble.Entries | app/components/conversation/MessageBubble.tsx:40 | `Object.entries`: one entry per key, in key order |
| MessageBubble.GroupReactions | app/components/conversation/MessageBubble.tsx:34-41 | the loop returns the groups: one per emoji in order of first appearance, each holding that emoji's reactions |
| MessageBubble.AppendToGroups | app/components/conversation/MessageBubble.tsx:36-39 | one loop step keeps the loop invariant: after appending the reaction to its emoji's list (created, with its key at the end, if new), the keys are the first appearances and each list holds exactly its emoji's reactions |
| MessageBubble.GroupStep | app/components/conversation/MessageBubble.tsx:36-39 | how the keys and lists of the first i reactions extend to i + 1: only the new reaction's emoji list grows |
| MessageBubble.GroupingKeys | app/components/conversation/MessageBubble.tsx:34-41 | group keys are distinct emoji of the reactions, in order of first appearance |
| MessageBubble.GroupingContents | app/components/conversation/MessageBubble.tsx:34-41 | every group is non-empty and holds exactly its emoji's reactions |
| MessageBubble.GroupingCovers | app/components/conversation/MessageBubble.tsx:34-41 | every reaction lies in its emoji's group |
| MessageBubble.GroupingTotal | app/components/conversation/MessageBubble.tsx:34-41 | the group sizes add up to the number of reactions |
| MessageBubble.TotalIsSum | app/components/conversation/MessageBubble.tsx:167-181 | the pill counts add up group by group |
| MessageBubble.SumCountsAll | app/components/conversation/MessageBubble.tsx:34-41 | counting each first-appearing emoji's reactions counts every reaction |
| MessageBubble.SumCountsAppend | app/components/conversation/MessageBubble.tsx:36-39 | one more reaction adds one to the count exactly when its emoji is a key |
| MessageBubble.SumCountsExtend | app/components/conversation/MessageBubble.tsx:37 | a new key adds its emoji's reactions to the count |
| MessageBubble.NoneOfType | app/components/conversation/MessageBubble.tsx:37 | an emoji no reaction has selects nothing |
| MessageBubble.BubbleText | app/components/conversation/MessageBubble.tsx:112 | the deletion text for a deleted message; otherwise its content |
| MessageBubble.ShowActionTrigger | app/components/conversation/MessageBubble.tsx:122 | where the trigger is hidden the bubble shows the deletion notice; where it is shown the bubble shows the content |
| MessageBubble.BubbleOfStoredMessage | app/components/conversation/MessageBubble.tsx:112-122 | a stored message shows its content, or the deletion text once deleted, and offers the action menu exactly while not deleted |
| MessageBubble.PillOf | app/components/conversation/MessageBubble.tsx:167-181 | a pill shows its emoji, a count exactly when more than one user reacted, and is highlighted exactly when one of its reactions is the caller's |
| MessageBubble.AnyMine | app/components/conversation/MessageBubble.tsx:174 | `some(r => r.isMine)` |
| MessageBubble.HighlightIsOwnReaction | app/components/conversation/MessageBubble.tsx:174 | a pill is highlighted exactly when the caller's stored reaction to the message is that emoji |
| MessageBubble.MineIsOwn | app/components/conversation/MessageBubble.tsx:174 | a highlighted pill means the caller's reaction is that emoji |
| MessageBubble.OwnIsMine | app/components/conversation/MessageBubble.tsx:174 | the caller's reaction highlights its pill |
| Scenarios.OpenBothWays | convex/controllers/conversation/createOrGetDirectConversation.ts:44-68 | when one user opens a direct conversation with another, the other opening it back gets the same conversation, not a new one |
| Scenarios.ReactTwice | convex/controllers/reaction/updateReaction.ts:53-75 | sending the same emoji twice: the second call succeeds with the same emoji and removes it unless the first call removed it; after a first add or remove, every user's reactions are back to what they were |
| Scenarios.AddThenUndo | convex/controllers/reaction/updateReaction.ts:53-75 | adding a reaction and then sending it again restores the reaction table exactly; only the id counter moved |
| Scenarios.Add | convex/controllers/reaction/updateReaction.ts:66-75 | the caller's first reaction is added under the next id, and the caller still passes the checks for that message |
| Scenarios.Undo | convex/controllers/reaction/updateReaction.ts:54-57 | the same emoji again removes exactly that row |
| Scenarios.MarkTwice | convex/controllers/message/markAsRead.ts:55-66 | a replayed `markAsRead` gives the same answer, ends at the later of the times, and inserts at most one row |
| Scenarios.DeleteTwice | convex/controllers/message/deleteMessage.ts:35-42 | a replayed `deleteMessage` gives the same answer, and the message ends deleted with nothing else changed |

## Left out

- The Convex runtime is not part of this model.
  - `Promise.all` is modelled as a sequential map.
  - Reactive subscriptions are not modelled.
  - A transaction's atomicity is assumed: a handler's writes happen together.
  - Concurrent mutations are not modelled. This includes the three separate writes of `sendMessage`.
- `.unique()` throws when two rows match. The store invariants exclude such duplicates, so that error path is not modelled.
- Convex ids are modelled as one global counter shared by all tables. A full table scan visits rows in creation order.
- The `by_name` and `by_email` indexes order by the field. `Users.RangeCandidates` lists the users in creation order instead. Only the set of candidates matters to the finding.
- The `by_conversation` message index orders by `createdAt`. The model scans in creation order, then stable-sorts by `createdAt` (`Messages.SortByTime`). Messages with equal times therefore stay in creation order.
- `Array.prototype.sort` is modelled as a stable insertion sort on the same comparator (`Summaries.SortByRecent`).
- `trim` removes ECMAScript's whitespace and line-terminator characters (`Text.IsSpace`). `toLowerCase` and `toUpperCase` map ASCII letters only; JavaScript's full Unicode case tables and UTF-16 surrogate pairs are not modelled, and a character is one code unit.
- Reactions are a datatype of the five allowed emoji. The string argument of `updateReaction` is parsed by `Schema.ParseEmoji`, and anything else is refused, as the argument validator does.
- UserHelpers.FormatLastSeen: the locale date (`toLocaleDateString`) for times a day or more ago is not rendered; it is `None`.
- `formatMessageTime` is not modelled, because it is locale date formatting throughout.
- The `setInterval` timer and the React hooks are not modelled as such. `TypingIndicator.Indicator.Tick` models the one-second tick, and `Receive` models a new query result.
- The pill's hover title (the reactors' names joined by commas) and all styling are not modelled.
- Users.GetUsers: the search branch is the corrected one: it filters every user, not only the candidates of the `by_name`/`by_email` range scans. The branch as written is `Users.SearchWithSeenSet`, and `Users.SearchAsWrittenMissesMatch` shows where the two differ.
- TypingStatus.GetTypingStatus: its own contract states only the length of the list; the contents are stated by `TypingStatus.GetTypingStatusSpec`.
- The identity provider is modelled as an optional `Identity` argument. Its name, email and picture claims are the fields the handlers read.

## Findings

| source | as written | input that shows it | evidently intended | confidence | as-written member | corrected member |
|---|---|---|---|---|---|---|
| convex/controllers/user/getUsers.ts:44-71 | the candidates are the users whose name or email sorts at or after the search term (`gte` range scans); the substring filter then runs only on those | users "Me" and "Bob Smith" (email "bob@x.com"), searching "smith": both "Bob Smith" and "bob@x.com" sort before "smith", so Bob is never a candidate, although his lower-cased name contains the term | every user other than the caller whose lower-cased name or email contains the term is listed | high, by proof; not executed | Users.SearchAsWrittenMissesMatch | Users.GetUsersSpec |
