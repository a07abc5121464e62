/**
 * `getConversations`: the caller's conversation list with unread badges and
 * previews, most recent activity first.
 */
module Summaries {
  import opened Wrappers
  import opened Schema
  import opened Store
  import opened Conversations

  // ---- unread count ----

  /** A message the caller has not read: in `cid`, after the read mark, not deleted, sent by someone else. */
  predicate IsUnread(m: Message, cid: ConversationId, me: UserId, lastReadAt: int) {
    m.conversationId == cid && m.createdAt > lastReadAt && !m.isDeleted && m.senderId != me
  }

  /** How many messages of the scan `ids` are unread for `me` in `cid`. */
  function CountUnread(messages: map<MessageId, Message>, ids: seq<MessageId>, cid: ConversationId, me: UserId, lastReadAt: int): (n: nat)
    ensures n <= |ids|
    ensures n == 0 <==> forall i :: 0 <= i < |ids| && ids[i] in messages ==> !IsUnread(messages[ids[i]], cid, me, lastReadAt)
  {
    if ids == [] then 0
    else
      var last := ids[|ids| - 1];
      var rest := CountUnread(messages, ids[..|ids| - 1], cid, me, lastReadAt);
      assert forall i :: 0 <= i < |ids| - 1 ==> ids[..|ids| - 1][i] == ids[i];
      rest + (if last in messages && IsUnread(messages[last], cid, me, lastReadAt) then 1 else 0)
  }

  /** The count reads only the scanned messages. */
  lemma {:induction false} CountUnreadAgree(m1: map<MessageId, Message>, m2: map<MessageId, Message>, ids: seq<MessageId>,
                                            cid: ConversationId, me: UserId, t: int)
    requires forall i :: 0 <= i < |ids| ==> (ids[i] in m1 <==> ids[i] in m2)
    requires forall i :: 0 <= i < |ids| && ids[i] in m1 ==> m1[ids[i]] == m2[ids[i]]
    ensures CountUnread(m1, ids, cid, me, t) == CountUnread(m2, ids, cid, me, t)
  {
    if ids != [] {
      CountUnreadAgree(m1, m2, ids[..|ids| - 1], cid, me, t);
    }
  }

  /**
   * A message inserted under a fresh id raises the count by one exactly when
   * it is unread for `me`: another member's message after the read mark.
   */
  lemma CountUnreadInsert(messages: map<MessageId, Message>, n: MessageId, m: Message, cid: ConversationId, me: UserId, t: int)
    requires IdsBelow(messages, n)
    ensures CountUnread(messages[n := m], Ids(messages[n := m], n + 1), cid, me, t) ==
            CountUnread(messages, Ids(messages, n), cid, me, t) + (if IsUnread(m, cid, me, t) then 1 else 0)
  {
    var ids := Ids(messages, n);
    var m2 := messages[n := m];
    IdsInsert(messages, n, m);
    var ids2 := ids + [n];
    assert ids2[..|ids2| - 1] == ids && ids2[|ids2| - 1] == n;
    assert n in m2 && m2[n] == m;
    assert CountUnread(m2, ids2, cid, me, t) == CountUnread(m2, ids, cid, me, t) + (if IsUnread(m, cid, me, t) then 1 else 0);
    CountUnreadAgree(m2, messages, ids, cid, me, t);
  }

  /**
   * Raising the read mark, or deleting messages, never raises the count: if
   * every message unread in `m1` at mark `t1` is present and unread in `m2`
   * at mark `t2`, then `m1`'s count is at most `m2`'s.
   */
  lemma {:induction false} CountUnreadMono(m1: map<MessageId, Message>, m2: map<MessageId, Message>, ids: seq<MessageId>,
                                           cid: ConversationId, me: UserId, t1: int, t2: int)
    requires forall i :: 0 <= i < |ids| && ids[i] in m1 && IsUnread(m1[ids[i]], cid, me, t1) ==>
               ids[i] in m2 && IsUnread(m2[ids[i]], cid, me, t2)
    ensures CountUnread(m1, ids, cid, me, t1) <= CountUnread(m2, ids, cid, me, t2)
  {
    if ids != [] {
      CountUnreadMono(m1, m2, ids[..|ids| - 1], cid, me, t1, t2);
    }
  }

  /** A later read mark leaves no more unread messages. */
  lemma LaterMarkFewerUnread(messages: map<MessageId, Message>, ids: seq<MessageId>, cid: ConversationId, me: UserId, t1: int, t2: int)
    requires t1 <= t2
    ensures CountUnread(messages, ids, cid, me, t2) <= CountUnread(messages, ids, cid, me, t1)
  {
    CountUnreadMono(messages, messages, ids, cid, me, t2, t1);
  }

  /** Deleting a message never adds an unread one. */
  lemma DeleteNoMoreUnread(messages: map<MessageId, Message>, ids: seq<MessageId>, k: MessageId, cid: ConversationId, me: UserId, t: int)
    requires k in messages
    ensures CountUnread(messages[k := messages[k].(isDeleted := true)], ids, cid, me, t) <= CountUnread(messages, ids, cid, me, t)
  {
    CountUnreadMono(messages[k := messages[k].(isDeleted := true)], messages, ids, cid, me, t, t);
  }

  // ---- one row of the list ----

  /** The read mark of `me` in `cid`: the receipt's `lastReadAt`, or 0 when there is none. */
  function ReadMark(rows: map<ReadId, ConversationRead>, n: nat, me: UserId, cid: ConversationId): (t: int)
    ensures UniqueReadRows(rows) && IdsBelow(rows, n) ==> forall k ::
              (k in rows && rows[k].userId == me && rows[k].conversationId == cid) ==> t == rows[k].lastReadAt
    ensures (forall k :: k in rows ==> !(rows[k].userId == me && rows[k].conversationId == cid)) ==> t == 0
  {
    match FindRead(rows, n, me, cid)
    case None => 0
    case Some(k) => rows[k].lastReadAt
  }

  /**
   * The read mark of a user depends only on that user's receipt: two tables
   * that hold the same receipts for (`u`, `cid`) give the same mark.
   */
  lemma ReadMarkOwnRows(rows1: map<ReadId, ConversationRead>, n1: nat, rows2: map<ReadId, ConversationRead>, n2: nat,
                        u: UserId, cid: ConversationId)
    requires UniqueReadRows(rows1) && IdsBelow(rows1, n1) && UniqueReadRows(rows2) && IdsBelow(rows2, n2)
    requires forall k :: (k in rows1 && rows1[k].userId == u && rows1[k].conversationId == cid) <==>
                         (k in rows2 && rows2[k].userId == u && rows2[k].conversationId == cid)
    requires forall k :: k in rows1 && rows1[k].userId == u && rows1[k].conversationId == cid ==> rows2[k] == rows1[k]
    ensures ReadMark(rows1, n1, u, cid) == ReadMark(rows2, n2, u, cid)
  {
    var r1 := FindRead(rows1, n1, u, cid);
    if r1.Some? {
      assert rows2[r1.value] == rows1[r1.value];
    }
  }

  const DeletedPreview: string := "This message was deleted"

  /** The preview of the conversation's last message; none when it has no last message or that message is gone. */
  function Preview(messages: map<MessageId, Message>, c: Conversation): (p: Option<string>)
    ensures p.Some? <==> c.lastMessageId.Some? && c.lastMessageId.value in messages
    ensures p.Some? && messages[c.lastMessageId.value].isDeleted ==> p.value == DeletedPreview
    ensures p.Some? && !messages[c.lastMessageId.value].isDeleted ==> p.value == messages[c.lastMessageId.value].content
  {
    match c.lastMessageId
    case None => None
    case Some(id) =>
      if id !in messages then None
      else if messages[id].isDeleted then Some(DeletedPreview)
      else Some(messages[id].content)
  }

  /** One row of the conversation list. `memberCount` is reported for groups only. */
  datatype Summary = Summary(
    conversationId: ConversationId,
    kind: Kind,
    name: string,
    imageUrl: Option<string>,
    otherUserClerkId: Option<string>,
    lastMessageAt: int,
    lastMessagePreview: Option<string>,
    unreadCount: nat,
    memberCount: Option<nat>,
    otherUserLastSeenAt: Option<int>)

  /** The row of conversation `cid` as the caller `me` sees it. */
  function SummaryOf(s: Store, me: UserId, cid: ConversationId): (r: Summary)
    reads s
    requires cid in s.conversations
    ensures r.conversationId == cid && r.kind == s.conversations[cid].kind
    ensures r.unreadCount == CountUnread(s.messages, Ids(s.messages, s.nextId), cid, me, ReadMark(s.conversationReads, s.nextId, me, cid))
    ensures r.lastMessageAt == s.conversations[cid].lastMessageAt.GetOr(s.conversations[cid].createdAt)
    ensures r.kind == Group ==> r.memberCount == Some(|s.conversations[cid].members|) && r.imageUrl.None? &&
                                r.otherUserClerkId.None? && r.otherUserLastSeenAt.None?
    ensures r.kind == Direct ==> r.memberCount.None?
    ensures r.lastMessagePreview == Preview(s.messages, s.conversations[cid])
    ensures r.kind == Group ==> r.name == s.conversations[cid].name.GetOr(UnnamedGroup)
    ensures r.kind == Direct ==>
              var other := FirstOther(s.conversations[cid].members, me);
              && (other.Some? && other.value in s.users ==>
                    r.name == s.users[other.value].name && r.otherUserClerkId == Some(s.users[other.value].clerkId) &&
                    r.imageUrl == s.users[other.value].imageUrl &&
                    r.otherUserLastSeenAt == Some(s.users[other.value].lastSeenAt))
              && (other.None? || other.value !in s.users ==>
                    r.name == UnknownUser && r.imageUrl.None? && r.otherUserClerkId.None? && r.otherUserLastSeenAt.None?)
  {
    var c := s.conversations[cid];
    var unread := CountUnread(s.messages, Ids(s.messages, s.nextId), cid, me, ReadMark(s.conversationReads, s.nextId, me, cid));
    var at := c.lastMessageAt.GetOr(c.createdAt);
    var preview := Preview(s.messages, c);
    if c.kind == Direct then
      var other := FirstOther(c.members, me);
      var p := if other.Some? then ProfileOf(s.users, other.value) else Profile(None, UnknownUser, None);
      var seen := if other.Some? && other.value in s.users then Some(s.users[other.value].lastSeenAt) else None;
      Summary(cid, c.kind, p.name, p.imageUrl, p.clerkId, at, preview, unread, None, seen)
    else
      Summary(cid, c.kind, c.name.GetOr(UnnamedGroup), None, None, at, preview, unread, Some(|c.members|), None)
  }

  function SummariesOf(s: Store, me: UserId, sel: seq<ConversationId>): (r: seq<Summary>)
    reads s
    requires forall i :: 0 <= i < |sel| ==> sel[i] in s.conversations
    ensures |r| == |sel|
    ensures forall k :: 0 <= k < |r| ==> r[k] == SummaryOf(s, me, sel[k])
  {
    if sel == [] then [] else [SummaryOf(s, me, sel[0])] + SummariesOf(s, me, sel[1..])
  }

  // ---- the order of the list ----

  /** The comparator: `a` goes strictly before `b` on later activity, or on equal activity and more unread. */
  predicate StrictlyBefore(a: Summary, b: Summary) {
    a.lastMessageAt > b.lastMessageAt || (a.lastMessageAt == b.lastMessageAt && a.unreadCount > b.unreadCount)
  }

  /** Latest activity first; on a tie, more unread first. */
  ghost predicate SortedByRecent(rs: seq<Summary>) {
    forall i, j :: 0 <= i < j < |rs| ==> !StrictlyBefore(rs[j], rs[i])
  }

  /** Insert `x` after every row that does not go strictly after it (so equal rows keep their order). */
  function InsertByRecent(rs: seq<Summary>, x: Summary): (r: seq<Summary>)
    ensures multiset(r) == multiset(rs) + multiset{x}
    ensures SortedByRecent(rs) ==> SortedByRecent(r)
  {
    if rs == [] then [x]
    else if StrictlyBefore(x, rs[0]) then
      InsertInFront(rs, x);
      [x] + rs
    else
      var rest := InsertByRecent(rs[1..], x);
      assert rs == [rs[0]] + rs[1..];
      InsertAfterFirst(rs, x, rest);
      [rs[0]] + rest
  }

  /** A row strictly before the first of a sorted list may go in front of it. */
  lemma InsertInFront(rs: seq<Summary>, x: Summary)
    requires rs != [] && StrictlyBefore(x, rs[0])
    ensures SortedByRecent(rs) ==> SortedByRecent([x] + rs)
  {
    if SortedByRecent(rs) {
      var r := [x] + rs;
      forall i, j | 0 <= i < j < |r| ensures !StrictlyBefore(r[j], r[i]) {
        assert r[j] == rs[j - 1];
        if i > 0 {
          assert r[i] == rs[i - 1];
        } else if j > 1 {
          assert !StrictlyBefore(rs[j - 1], rs[0]);
        }
      }
    }
  }

  /** A row that `x` does not go strictly before stays in front once `x` is inserted among the rest. */
  lemma InsertAfterFirst(rs: seq<Summary>, x: Summary, rest: seq<Summary>)
    requires rs != [] && !StrictlyBefore(x, rs[0])
    requires multiset(rest) == multiset(rs[1..]) + multiset{x}
    requires SortedByRecent(rs[1..]) ==> SortedByRecent(rest)
    ensures SortedByRecent(rs) ==> SortedByRecent([rs[0]] + rest)
  {
    if SortedByRecent(rs) {
      assert SortedByRecent(rs[1..]) by {
        forall i, j | 0 <= i < j < |rs[1..]| ensures !StrictlyBefore(rs[1..][j], rs[1..][i]) {
          assert rs[1..][j] == rs[j + 1] && rs[1..][i] == rs[i + 1];
        }
      }
      forall j | 0 <= j < |rest| ensures !StrictlyBefore(rest[j], rs[0]) {
        assert rest[j] in multiset(rs[1..]) + multiset{x};
        if rest[j] != x {
          assert rest[j] in rs[1..];
          var k :| 0 <= k < |rs[1..]| && rs[1..][k] == rest[j];
          assert rs[k + 1] == rest[j];
        }
      }
      var r := [rs[0]] + rest;
      forall i, j | 0 <= i < j < |r| ensures !StrictlyBefore(r[j], r[i]) {
        assert r[j] == rest[j - 1];
        if i > 0 {
          assert r[i] == rest[i - 1];
        }
      }
    }
  }

  /** `Array.prototype.sort` with the list's comparator, as a stable insertion sort. */
  function SortByRecent(rs: seq<Summary>): (r: seq<Summary>)
    ensures multiset(r) == multiset(rs)
    ensures SortedByRecent(r)
  {
    if rs == [] then []
    else
      assert rs == rs[..|rs| - 1] + [rs[|rs| - 1]];
      InsertByRecent(SortByRecent(rs[..|rs| - 1]), rs[|rs| - 1])
  }

  /** The conversations whose member list contains the caller, in creation order. */
  function MyConversations(conversations: map<ConversationId, Conversation>, ids: seq<ConversationId>, me: UserId): (r: seq<ConversationId>)
    ensures forall i :: 0 <= i < |r| ==> r[i] in conversations && r[i] in ids && me in conversations[r[i]].members
    ensures forall i :: 0 <= i < |ids| && ids[i] in conversations && me in conversations[ids[i]].members ==> ids[i] in r
    ensures Increasing(ids) ==> Increasing(r)
  {
    Where(conversations, ids, (id: ConversationId, c: Conversation) => me in c.members)
  }

  /**
   * `getConversations`: null before authentication or without a user record;
   * otherwise one row per conversation the caller belongs to, sorted.
   */
  function GetConversations(s: Store, identity: Option<Identity>): (r: Option<seq<Summary>>)
    reads s
    ensures r.None? <==> identity.None? || Lookup(s, identity.value.subject).None?
    ensures r.Some? ==> SortedByRecent(r.value)
  {
    if identity.None? then None
    else
      match Lookup(s, identity.value.subject)
      case None => None
      case Some(me) =>
        var mine := MyConversations(s.conversations, Ids(s.conversations, s.nextId), me);
        Some(SortByRecent(SummariesOf(s, me, mine)))
  }

  /**
   * The list holds exactly one row per conversation the caller belongs to,
   * each the row `SummaryOf` describes, and nothing else.
   */
  lemma GetConversationsSpec(s: Store, identity: Option<Identity>)
    requires s.Valid()
    ensures var r := GetConversations(s, identity);
            r.Some? ==>
              var me := Lookup(s, identity.value.subject).value;
              && SortedByRecent(r.value)
              && (forall k :: 0 <= k < |r.value| ==>
                    r.value[k].conversationId in s.conversations &&
                    me in s.conversations[r.value[k].conversationId].members &&
                    r.value[k] == SummaryOf(s, me, r.value[k].conversationId))
              && (forall c :: c in s.conversations && me in s.conversations[c].members ==>
                    multiset(r.value)[SummaryOf(s, me, c)] == 1)
  {
    var r := GetConversations(s, identity);
    if r.Some? {
      var me := Lookup(s, identity.value.subject).value;
      assert r.value == SortByRecent(SummariesOf(s, me, MyConversations(s.conversations, Ids(s.conversations, s.nextId), me)));
      MyRows(s, me);
    }
  }

  /** `GetConversationsSpec` for a known caller `me`. */
  lemma MyRows(s: Store, me: UserId)
    requires s.Valid()
    ensures var r := SortByRecent(SummariesOf(s, me, MyConversations(s.conversations, Ids(s.conversations, s.nextId), me)));
            && SortedByRecent(r)
            && (forall k :: 0 <= k < |r| ==>
                  r[k].conversationId in s.conversations &&
                  me in s.conversations[r[k].conversationId].members &&
                  r[k] == SummaryOf(s, me, r[k].conversationId))
            && (forall c :: c in s.conversations && me in s.conversations[c].members ==>
                  multiset(r)[SummaryOf(s, me, c)] == 1)
  {
    var ids := Ids(s.conversations, s.nextId);
    var mine := MyConversations(s.conversations, ids, me);
    var r := SortByRecent(SummariesOf(s, me, mine));
    SortedRowsSpec(s, me, mine);
    forall c | c in s.conversations && me in s.conversations[c].members
      ensures multiset(r)[SummaryOf(s, me, c)] == 1
    {
      assert c in ids;
      var i :| 0 <= i < |mine| && mine[i] == c;
    }
  }

  /** The sorted rows of an increasing selection of the caller's conversations: each row once, nothing else. */
  lemma SortedRowsSpec(s: Store, me: UserId, mine: seq<ConversationId>)
    requires Increasing(mine)
    requires forall i :: 0 <= i < |mine| ==> mine[i] in s.conversations && me in s.conversations[mine[i]].members
    ensures var r := SortByRecent(SummariesOf(s, me, mine));
            && (forall k :: 0 <= k < |r| ==>
                  r[k].conversationId in s.conversations &&
                  me in s.conversations[r[k].conversationId].members &&
                  r[k] == SummaryOf(s, me, r[k].conversationId))
            && (forall i :: 0 <= i < |mine| ==> multiset(r)[SummaryOf(s, me, mine[i])] == 1)
  {
    var rows := SummariesOf(s, me, mine);
    var r := SortByRecent(rows);
    forall k | 0 <= k < |r|
      ensures r[k].conversationId in s.conversations
      ensures me in s.conversations[r[k].conversationId].members
      ensures r[k] == SummaryOf(s, me, r[k].conversationId)
    {
      assert r[k] in multiset(rows);
      var i :| 0 <= i < |rows| && rows[i] == r[k];
    }
    forall i | 0 <= i < |mine| ensures multiset(r)[SummaryOf(s, me, mine[i])] == 1 {
      assert forall j, k :: 0 <= j < k < |rows| ==> rows[j].conversationId < rows[k].conversationId;
      OccursOnce(rows, i);
    }
  }

  /** Rows with strictly increasing conversation ids are pairwise distinct, so each occurs once. */
  lemma {:induction false} OccursOnce(rows: seq<Summary>, i: nat)
    requires i < |rows|
    requires forall j, k :: 0 <= j < k < |rows| ==> rows[j].conversationId < rows[k].conversationId
    ensures multiset(rows)[rows[i]] == 1
  {
    var tail := rows[1..];
    assert rows == [rows[0]] + tail;
    if i == 0 {
      assert rows[0] !in tail;
    } else {
      assert forall j, k :: 0 <= j < k < |tail| ==> tail[j].conversationId < tail[k].conversationId by {
        forall j, k | 0 <= j < k < |tail| ensures tail[j].conversationId < tail[k].conversationId {
          assert tail[j] == rows[j + 1] && tail[k] == rows[k + 1];
        }
      }
      OccursOnce(tail, i - 1);
      assert tail[i - 1] == rows[i];
      assert rows[0] != rows[i] by {
        assert rows[0].conversationId < rows[i].conversationId;
      }
    }
  }
}
