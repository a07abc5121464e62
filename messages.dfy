/** The message handlers: `sendMessage`, `deleteMessage`, `markAsRead` and `getMessages`. */
module Messages {
  import opened Wrappers
  import opened Text
  import opened Schema
  import opened Store
  import opened Summaries

  /**
   * The read-receipt upsert of `sendMessage` and `markAsRead`: patch the
   * caller's receipt in `cid` to `t`, or insert one. With `onlyForward` (the
   * `markAsRead` flavour) an existing receipt is patched only when its mark is
   * before `t`, so the mark never moves back.
   */
  method UpsertReadMark(s: Store, me: UserId, cid: ConversationId, t: int, onlyForward: bool)
    requires s.Valid()
    modifies s
    ensures s.Valid()
    ensures old(FindRead(s.conversationReads, s.nextId, me, cid)).Some? ==>
              var k := old(FindRead(s.conversationReads, s.nextId, me, cid)).value;
              var mark := old(s.conversationReads)[k].lastReadAt;
              && s.nextId == old(s.nextId)
              && (onlyForward && mark >= t ==> s.conversationReads == old(s.conversationReads))
              && (!(onlyForward && mark >= t) ==> s.conversationReads == old(s.conversationReads)[k := old(s.conversationReads)[k].(lastReadAt := t)])
    ensures old(FindRead(s.conversationReads, s.nextId, me, cid)).None? ==>
              && s.conversationReads == old(s.conversationReads)[old(s.nextId) := ConversationRead(cid, me, t)]
              && s.nextId == old(s.nextId) + 1
    ensures (onlyForward && old(FindRead(s.conversationReads, s.nextId, me, cid)).Some? &&
             old(ReadMark(s.conversationReads, s.nextId, me, cid)) >= t) ==> unchanged(s)
    ensures ReadMark(s.conversationReads, s.nextId, me, cid) ==
              if onlyForward && old(FindRead(s.conversationReads, s.nextId, me, cid)).Some?
              then Max(old(ReadMark(s.conversationReads, s.nextId, me, cid)), t)
              else t
    ensures forall u, c :: (u != me || c != cid) ==>
              ReadMark(s.conversationReads, s.nextId, u, c) == old(ReadMark(s.conversationReads, s.nextId, u, c))
    ensures s.users == old(s.users) && s.conversations == old(s.conversations) && s.messages == old(s.messages)
    ensures s.reactions == old(s.reactions) && s.typing == old(s.typing)
  {
    var rows := s.conversationReads;
    var n := s.nextId;
    var existing := FindRead(rows, n, me, cid);
    if existing.Some? {
      var k := existing.value;
      if !onlyForward || rows[k].lastReadAt < t {
        PatchReadRow(rows, n, k, me, cid, t);
        s.conversationReads := rows[k := rows[k].(lastReadAt := t)];
      }
    } else {
      InsertReadRow(rows, n, me, cid, t);
      s.conversationReads := rows[n := ConversationRead(cid, me, t)];
      s.nextId := n + 1;
    }
  }

  /** Patching the receipt of (`me`, `cid`) sets that mark and no other. */
  lemma PatchReadRow(rows: map<ReadId, ConversationRead>, n: nat, k: ReadId, me: UserId, cid: ConversationId, t: int)
    requires UniqueReadRows(rows) && IdsBelow(rows, n)
    requires k in rows && rows[k].userId == me && rows[k].conversationId == cid
    ensures var rows2 := rows[k := rows[k].(lastReadAt := t)];
            && UniqueReadRows(rows2) && IdsBelow(rows2, n)
            && ReadMark(rows2, n, me, cid) == t
            && forall u, c :: (u != me || c != cid) ==> ReadMark(rows2, n, u, c) == ReadMark(rows, n, u, c)
  {
    var rows2 := rows[k := rows[k].(lastReadAt := t)];
    assert UniqueReadRows(rows2);
    assert k in rows2 && rows2[k].userId == me && rows2[k].conversationId == cid && rows2[k].lastReadAt == t;
    forall u, c | u != me || c != cid ensures ReadMark(rows2, n, u, c) == ReadMark(rows, n, u, c) {
      ReadMarkOwnRows(rows2, n, rows, n, u, c);
    }
  }

  /** Inserting the first receipt of (`me`, `cid`) sets that mark and no other. */
  lemma InsertReadRow(rows: map<ReadId, ConversationRead>, n: nat, me: UserId, cid: ConversationId, t: int)
    requires UniqueReadRows(rows) && IdsBelow(rows, n)
    requires forall k :: k in rows ==> !(rows[k].userId == me && rows[k].conversationId == cid)
    ensures var rows2 := rows[n := ConversationRead(cid, me, t)];
            && UniqueReadRows(rows2) && IdsBelow(rows2, n + 1)
            && ReadMark(rows2, n + 1, me, cid) == t
            && forall u, c :: (u != me || c != cid) ==> ReadMark(rows2, n + 1, u, c) == ReadMark(rows, n, u, c)
  {
    var rows2 := rows[n := ConversationRead(cid, me, t)];
    forall u, c | u != me || c != cid ensures ReadMark(rows2, n + 1, u, c) == ReadMark(rows, n, u, c) {
      ReadMarkOwnRows(rows2, n + 1, rows, n, u, c);
    }
  }

  function Max(a: int, b: int): int {
    if a >= b then a else b
  }

  /** The insert of `sendMessage`: the message, then the conversation's last-message fields. */
  method InsertMessage(s: Store, me: UserId, cid: ConversationId, content: string, now: int) returns (mid: MessageId)
    requires s.Valid() && cid in s.conversations
    modifies s
    ensures s.Valid()
    ensures mid == old(s.nextId) && s.nextId == old(s.nextId) + 1
    ensures s.messages == old(s.messages)[mid := Message(cid, me, content, false, now)]
    ensures s.conversations ==
              old(s.conversations)[cid := old(s.conversations)[cid].(lastMessageAt := Some(now), lastMessageId := Some(mid))]
    ensures s.users == old(s.users) && s.conversationReads == old(s.conversationReads)
    ensures s.reactions == old(s.reactions) && s.typing == old(s.typing)
  {
    mid := s.nextId;
    s.messages := s.messages[mid := Message(cid, me, content, false, now)];
    s.conversations := s.conversations[cid := s.conversations[cid].(lastMessageAt := Some(now), lastMessageId := Some(mid))];
    s.nextId := s.nextId + 1;
  }

  /** Bumping the counter does not change what the receipt index finds. */
  lemma ReadIndexBeyond(rows: map<ReadId, ConversationRead>, n: nat, m: nat, u: UserId, c: ConversationId)
    requires UniqueReadRows(rows) && IdsBelow(rows, n) && n <= m
    ensures FindRead(rows, n, u, c) == FindRead(rows, m, u, c)
    ensures ReadMark(rows, n, u, c) == ReadMark(rows, m, u, c)
  {
    var r := FindRead(rows, m, u, c);
    if r.Some? {
      assert r.value < n;
    }
  }

  /**
   * `sendMessage`. Errors in the source's order: no identity, no user record,
   * a missing conversation, a caller who is not a member, content that trims
   * to "". Otherwise the trimmed message is stored, becomes the conversation's
   * last message, and the sender's read mark becomes `now`; nobody else's
   * read mark moves.
   */
  method SendMessage(s: Store, identity: Option<Identity>, cid: ConversationId, content: string, now: int)
    returns (r: Result<MessageId, Error>)
    requires s.Valid()
    modifies s
    ensures s.Valid()
    ensures r.Err? ==> unchanged(s)
    ensures old(Admit(s, identity, cid)).Err? ==> r == Err(old(Admit(s, identity, cid)).error)
    ensures old(Admit(s, identity, cid)).Ok? ==>
              var me := old(Admit(s, identity, cid)).value;
              && (r == Err(EmptyContent) <==> Trim(content) == "")
              && (Trim(content) != "" ==> r.Ok?)
              && (r.Ok? ==>
                    && r.value == old(s.nextId)
                    && s.messages == old(s.messages)[r.value := Message(cid, me, Trim(content), false, now)]
                    && s.conversations == old(s.conversations)[cid := old(s.conversations)[cid].(lastMessageAt := Some(now), lastMessageId := Some(r.value))]
                    && (old(FindRead(s.conversationReads, s.nextId, me, cid)).Some? ==>
                          var k := old(FindRead(s.conversationReads, s.nextId, me, cid)).value;
                          s.conversationReads == old(s.conversationReads)[k := old(s.conversationReads)[k].(lastReadAt := now)])
                    && (old(FindRead(s.conversationReads, s.nextId, me, cid)).None? ==>
                          s.conversationReads == old(s.conversationReads)[r.value + 1 := ConversationRead(cid, me, now)])
                    && ReadMark(s.conversationReads, s.nextId, me, cid) == now
                    && forall u, c :: (u != me || c != cid) ==>
                         ReadMark(s.conversationReads, s.nextId, u, c) == old(ReadMark(s.conversationReads, s.nextId, u, c)))
    ensures s.users == old(s.users) && s.reactions == old(s.reactions) && s.typing == old(s.typing)
  {
    var admitted := Admit(s, identity, cid);
    if admitted.Err? {
      return Err(admitted.error);
    }
    var me := admitted.value;
    var text := Trim(content);
    if text == "" {
      return Err(EmptyContent);
    }
    var mid := Post(s, me, cid, text, now);
    r := Ok(mid);
  }
  /** The writes of `sendMessage` once every check has passed. */
  method Post(s: Store, me: UserId, cid: ConversationId, text: string, now: int) returns (mid: MessageId)
    requires s.Valid() && cid in s.conversations
    modifies s
    ensures s.Valid()
    ensures mid == old(s.nextId)
    ensures s.messages == old(s.messages)[mid := Message(cid, me, text, false, now)]
    ensures s.conversations == old(s.conversations)[cid := old(s.conversations)[cid].(lastMessageAt := Some(now), lastMessageId := Some(mid))]
    ensures old(FindRead(s.conversationReads, s.nextId, me, cid)).Some? ==>
              var k := old(FindRead(s.conversationReads, s.nextId, me, cid)).value;
              s.conversationReads == old(s.conversationReads)[k := old(s.conversationReads)[k].(lastReadAt := now)]
    ensures old(FindRead(s.conversationReads, s.nextId, me, cid)).None? ==>
              s.conversationReads == old(s.conversationReads)[mid + 1 := ConversationRead(cid, me, now)]
    ensures ReadMark(s.conversationReads, s.nextId, me, cid) == now
    ensures forall u, c :: (u != me || c != cid) ==>
              ReadMark(s.conversationReads, s.nextId, u, c) == old(ReadMark(s.conversationReads, s.nextId, u, c))
    ensures s.users == old(s.users) && s.reactions == old(s.reactions) && s.typing == old(s.typing)
  {
    ghost var rows := s.conversationReads;
    ghost var n := s.nextId;
    mid := InsertMessage(s, me, cid, text, now);
    forall u, c ensures FindRead(rows, n, u, c) == FindRead(rows, s.nextId, u, c) &&
                        ReadMark(rows, n, u, c) == ReadMark(rows, s.nextId, u, c) {
      ReadIndexBeyond(rows, n, s.nextId, u, c);
    }
    UpsertReadMark(s, me, cid, now, false);
  }

  /**
   * `deleteMessage`: a soft delete by the sender. Errors: no identity, no user
   * record, a missing message, someone else's message. Deleting a deleted
   * message writes nothing; otherwise only the flag changes, the content stays.
   */
  method DeleteMessage(s: Store, identity: Option<Identity>, mid: MessageId) returns (r: Result<MessageId, Error>)
    requires s.Valid()
    modifies s
    ensures s.Valid()
    ensures r.Err? ==> unchanged(s)
    ensures identity.None? ==> r == Err(NotAuthenticated)
    ensures identity.Some? && old(Lookup(s, identity.value.subject)).None? ==> r == Err(CurrentUserNotFound)
    ensures identity.Some? && old(Lookup(s, identity.value.subject)).Some? ==>
              var me := old(Lookup(s, identity.value.subject)).value;
              && (mid !in old(s.messages) ==> r == Err(MessageNotFound))
              && (mid in old(s.messages) && old(s.messages)[mid].senderId != me ==> r == Err(NotOwnMessage))
              && (mid in old(s.messages) && old(s.messages)[mid].senderId == me ==> r == Ok(mid))
    ensures r.Ok? ==> mid in old(s.messages) && s.messages == old(s.messages)[mid := old(s.messages)[mid].(isDeleted := true)]
    ensures r.Ok? && old(s.messages)[mid].isDeleted ==> unchanged(s)
    ensures s.nextId == old(s.nextId) && s.users == old(s.users) && s.conversations == old(s.conversations)
    ensures s.conversationReads == old(s.conversationReads) && s.reactions == old(s.reactions) && s.typing == old(s.typing)
  {
    var auth := Authenticate(s, identity);
    if auth.Err? {
      return Err(auth.error);
    }
    var me := auth.value;
    if mid !in s.messages {
      return Err(MessageNotFound);
    }
    if s.messages[mid].senderId != me {
      return Err(NotOwnMessage);
    }
    if s.messages[mid].isDeleted {
      assert s.messages[mid := s.messages[mid].(isDeleted := true)] == s.messages;
      return Ok(mid);
    }
    s.messages := s.messages[mid := s.messages[mid].(isDeleted := true)];
    r := Ok(mid);
  }

  /**
   * `markAsRead`. Errors: no identity, no user record, a missing conversation,
   * a caller who is not a member. Otherwise the caller's read mark becomes
   * `now`, except that an existing mark at or after `now` stays: the mark never
   * moves back. Nobody else's mark moves.
   */
  method MarkAsRead(s: Store, identity: Option<Identity>, cid: ConversationId, now: int) returns (r: Result<(), Error>)
    requires s.Valid()
    modifies s
    ensures s.Valid()
    ensures r.Err? ==> unchanged(s)
    ensures old(Admit(s, identity, cid)).Err? ==> r == Err(old(Admit(s, identity, cid)).error)
    ensures old(Admit(s, identity, cid)).Ok? ==>
              var me := old(Admit(s, identity, cid)).value;
              && r == Ok(())
              && (r.Ok? ==>
                    && ReadMark(s.conversationReads, s.nextId, me, cid) ==
                         (if old(FindRead(s.conversationReads, s.nextId, me, cid)).Some?
                          then Max(old(ReadMark(s.conversationReads, s.nextId, me, cid)), now)
                          else now)
                    && (old(FindRead(s.conversationReads, s.nextId, me, cid)).None? ==>
                          s.conversationReads == old(s.conversationReads)[old(s.nextId) := ConversationRead(cid, me, now)])
                    && (old(FindRead(s.conversationReads, s.nextId, me, cid)).Some? ==>
                          var k := old(FindRead(s.conversationReads, s.nextId, me, cid)).value;
                          old(s.conversationReads)[k].lastReadAt < now ==>
                            s.conversationReads == old(s.conversationReads)[k := old(s.conversationReads)[k].(lastReadAt := now)])
                    && FindRead(s.conversationReads, s.nextId, me, cid).Some?
                    && s.nextId == old(s.nextId) + (if old(FindRead(s.conversationReads, s.nextId, me, cid)).None? then 1 else 0)
                    && ((old(FindRead(s.conversationReads, s.nextId, me, cid)).Some? &&
                         old(ReadMark(s.conversationReads, s.nextId, me, cid)) >= now) ==> unchanged(s))
                    && forall u, c :: (u != me || c != cid) ==>
                         ReadMark(s.conversationReads, s.nextId, u, c) == old(ReadMark(s.conversationReads, s.nextId, u, c)))
    ensures s.users == old(s.users) && s.conversations == old(s.conversations) && s.messages == old(s.messages)
    ensures s.reactions == old(s.reactions) && s.typing == old(s.typing)
  {
    var admitted := Admit(s, identity, cid);
    if admitted.Err? {
      return Err(admitted.error);
    }
    var me := admitted.value;
    UpsertReadMark(s, me, cid, now, true);
    r := Ok(());
  }

  // ---- getMessages ----

  /** One message as the chat shows it: no content once deleted, and the sender's public profile. */
  datatype MessageView = MessageView(
    id: MessageId,
    conversationId: ConversationId,
    content: Option<string>,
    isDeleted: bool,
    createdAt: int,
    isMine: bool,
    sender: Profile)

  function ViewOfMessage(users: map<UserId, User>, me: UserId, id: MessageId, m: Message): (v: MessageView)
    ensures v.content.None? <==> m.isDeleted
    ensures v.content.Some? ==> v.content.value == m.content
    ensures v.isMine <==> m.senderId == me
    ensures v.id == id && v.createdAt == m.createdAt && v.sender == ProfileOf(users, m.senderId)
  {
    MessageView(id, m.conversationId, if m.isDeleted then None else Some(m.content), m.isDeleted, m.createdAt,
                m.senderId == me, ProfileOf(users, m.senderId))
  }

  function ViewsOf(users: map<UserId, User>, messages: map<MessageId, Message>, me: UserId, sel: seq<MessageId>): (r: seq<MessageView>)
    requires forall i :: 0 <= i < |sel| ==> sel[i] in messages
    ensures |r| == |sel|
    ensures forall k :: 0 <= k < |r| ==> r[k] == ViewOfMessage(users, me, sel[k], messages[sel[k]])
  {
    if sel == [] then [] else [ViewOfMessage(users, me, sel[0], messages[sel[0]])] + ViewsOf(users, messages, me, sel[1..])
  }

  ghost predicate OldestFirst(vs: seq<MessageView>) {
    forall i, j :: 0 <= i < j < |vs| ==> vs[i].createdAt <= vs[j].createdAt
  }

  /** Insert `x` after every view not created later than it. */
  function InsertByTime(vs: seq<MessageView>, x: MessageView): (r: seq<MessageView>)
    ensures multiset(r) == multiset(vs) + multiset{x}
    ensures OldestFirst(vs) ==> OldestFirst(r)
  {
    if vs == [] then [x]
    else if x.createdAt < vs[0].createdAt then [x] + vs
    else
      var rest := InsertByTime(vs[1..], x);
      assert vs == [vs[0]] + vs[1..];
      InsertAfterHead(vs, x, rest);
      [vs[0]] + rest
  }

  /** A view no later than the rest stays in front of them once `x` is inserted among them. */
  lemma InsertAfterHead(vs: seq<MessageView>, x: MessageView, rest: seq<MessageView>)
    requires vs != [] && vs[0].createdAt <= x.createdAt
    requires multiset(rest) == multiset(vs[1..]) + multiset{x}
    requires OldestFirst(vs[1..]) ==> OldestFirst(rest)
    ensures OldestFirst(vs) ==> OldestFirst([vs[0]] + rest)
  {
    if OldestFirst(vs) {
      assert OldestFirst(vs[1..]) by {
        forall i, j | 0 <= i < j < |vs[1..]| ensures vs[1..][i].createdAt <= vs[1..][j].createdAt {
          assert vs[1..][i] == vs[i + 1] && vs[1..][j] == vs[j + 1];
        }
      }
      forall j | 0 <= j < |rest| ensures vs[0].createdAt <= rest[j].createdAt {
        assert rest[j] in multiset(vs[1..]) + multiset{x};
        if rest[j] != x {
          assert rest[j] in vs[1..];
          var k :| 0 <= k < |vs[1..]| && vs[1..][k] == rest[j];
          assert vs[k + 1] == rest[j];
        }
      }
      var r := [vs[0]] + rest;
      forall i, j | 0 <= i < j < |r| ensures r[i].createdAt <= r[j].createdAt {
        assert r[j] == rest[j - 1];
        if i > 0 {
          assert r[i] == rest[i - 1];
        }
      }
    }
  }

  /** The `by_conversation` index order: ascending `createdAt`, ties in creation order. */
  function SortByTime(vs: seq<MessageView>): (r: seq<MessageView>)
    ensures multiset(r) == multiset(vs)
    ensures OldestFirst(r)
  {
    if vs == [] then []
    else
      assert vs == vs[..|vs| - 1] + [vs[|vs| - 1]];
      InsertByTime(SortByTime(vs[..|vs| - 1]), vs[|vs| - 1])
  }

  function MessagesIn(messages: map<MessageId, Message>, ids: seq<MessageId>, cid: ConversationId): (r: seq<MessageId>)
    ensures forall i :: 0 <= i < |r| ==> r[i] in messages && r[i] in ids && messages[r[i]].conversationId == cid
    ensures forall i :: 0 <= i < |ids| && ids[i] in messages && messages[ids[i]].conversationId == cid ==> ids[i] in r
    ensures Increasing(ids) ==> Increasing(r)
  {
    Where(messages, ids, (id: MessageId, m: Message) => m.conversationId == cid)
  }

  /**
   * `getMessages`: null before authentication or without a user record; a
   * missing conversation or a non-member caller throws; otherwise the
   * conversation's messages, oldest first, deleted ones included but blanked.
   */
  function GetMessages(s: Store, identity: Option<Identity>, cid: ConversationId): (r: Result<Option<seq<MessageView>>, Error>)
    reads s
    ensures identity.None? ==> r == Ok(None)
    ensures identity.Some? && Lookup(s, identity.value.subject).None? ==> r == Ok(None)
    ensures identity.Some? && Lookup(s, identity.value.subject).Some? ==>
              var me := Lookup(s, identity.value.subject).value;
              && (cid !in s.conversations ==> r == Err(ConversationNotFound))
              && (cid in s.conversations && me !in s.conversations[cid].members ==> r == Err(NotAMember))
              && (cid in s.conversations && me in s.conversations[cid].members ==> r.Ok? && r.value.Some?)
    ensures r.Ok? && r.value.Some? ==> OldestFirst(r.value.value)
  {
    if identity.None? then Ok(None)
    else
      match Lookup(s, identity.value.subject)
      case None => Ok(None)
      case Some(me) =>
        match CheckMember(s.conversations, cid, me)
        case Err(e) => Err(e)
        case Ok(_) =>
          var sel := MessagesIn(s.messages, Ids(s.messages, s.nextId), cid);
          Ok(Some(SortByTime(ViewsOf(s.users, s.messages, me, sel))))
  }

  /**
   * The list holds every message of the conversation exactly once, each the
   * view `ViewOfMessage` describes, and no message of another conversation.
   */
  lemma GetMessagesSpec(s: Store, identity: Option<Identity>, cid: ConversationId)
    requires s.Valid()
    ensures var r := GetMessages(s, identity, cid);
            r.Ok? && r.value.Some? ==>
              var me := Lookup(s, identity.value.subject).value;
              var vs := r.value.value;
              && (forall k :: 0 <= k < |vs| ==>
                    vs[k].id in s.messages && s.messages[vs[k].id].conversationId == cid &&
                    vs[k] == ViewOfMessage(s.users, me, vs[k].id, s.messages[vs[k].id]))
              && (forall mid :: mid in s.messages && s.messages[mid].conversationId == cid ==>
                    multiset(vs)[ViewOfMessage(s.users, me, mid, s.messages[mid])] == 1)
  {
    var r := GetMessages(s, identity, cid);
    if r.Ok? && r.value.Some? {
      var me := Lookup(s, identity.value.subject).value;
      var sel := MessagesIn(s.messages, Ids(s.messages, s.nextId), cid);
      assert r.value.value == SortByTime(ViewsOf(s.users, s.messages, me, sel));
      ConversationViews(s.users, s.messages, s.nextId, me, cid);
    }
  }

  /** `GetMessagesSpec` on the tables: the sorted views of the scan of `cid` list each of its messages once. */
  lemma ConversationViews(users: map<UserId, User>, messages: map<MessageId, Message>, n: nat, me: UserId, cid: ConversationId)
    requires IdsBelow(messages, n)
    ensures var vs := SortByTime(ViewsOf(users, messages, me, MessagesIn(messages, Ids(messages, n), cid)));
            && (forall k :: 0 <= k < |vs| ==>
                  vs[k].id in messages && messages[vs[k].id].conversationId == cid &&
                  vs[k] == ViewOfMessage(users, me, vs[k].id, messages[vs[k].id]))
            && (forall mid :: mid in messages && messages[mid].conversationId == cid ==>
                  multiset(vs)[ViewOfMessage(users, me, mid, messages[mid])] == 1)
  {
    var ids := Ids(messages, n);
    var sel := MessagesIn(messages, ids, cid);
    SortedViewsSpec(users, messages, me, cid, sel);
    var vs := SortByTime(ViewsOf(users, messages, me, sel));
    forall mid | mid in messages && messages[mid].conversationId == cid
      ensures multiset(vs)[ViewOfMessage(users, me, mid, messages[mid])] == 1
    {
      assert mid in ids;
      var i :| 0 <= i < |sel| && sel[i] == mid;
    }
  }

  lemma SortedViewsSpec(users: map<UserId, User>, messages: map<MessageId, Message>, me: UserId, cid: ConversationId, sel: seq<MessageId>)
    requires Increasing(sel)
    requires forall i :: 0 <= i < |sel| ==> sel[i] in messages && messages[sel[i]].conversationId == cid
    ensures var vs := SortByTime(ViewsOf(users, messages, me, sel));
            && (forall k :: 0 <= k < |vs| ==>
                  vs[k].id in messages && messages[vs[k].id].conversationId == cid &&
                  vs[k] == ViewOfMessage(users, me, vs[k].id, messages[vs[k].id]))
            && (forall i :: 0 <= i < |sel| ==> multiset(vs)[ViewOfMessage(users, me, sel[i], messages[sel[i]])] == 1)
  {
    var views := ViewsOf(users, messages, me, sel);
    var vs := SortByTime(views);
    forall k | 0 <= k < |vs|
      ensures vs[k].id in messages && messages[vs[k].id].conversationId == cid
      ensures vs[k] == ViewOfMessage(users, me, vs[k].id, messages[vs[k].id])
    {
      assert vs[k] in multiset(views);
      var i :| 0 <= i < |views| && views[i] == vs[k];
    }
    forall i | 0 <= i < |sel| ensures multiset(vs)[ViewOfMessage(users, me, sel[i], messages[sel[i]])] == 1 {
      assert forall j, k :: 0 <= j < k < |views| ==> views[j].id < views[k].id;
      ViewOccursOnce(views, i);
    }
  }

  /** Views with strictly increasing ids are pairwise distinct, so each occurs once. */
  lemma {:induction false} ViewOccursOnce(vs: seq<MessageView>, i: nat)
    requires i < |vs|
    requires forall j, k :: 0 <= j < k < |vs| ==> vs[j].id < vs[k].id
    ensures multiset(vs)[vs[i]] == 1
  {
    var tail := vs[1..];
    assert vs == [vs[0]] + tail;
    if i == 0 {
      assert vs[0] !in tail;
    } else {
      assert forall j, k :: 0 <= j < k < |tail| ==> tail[j].id < tail[k].id by {
        forall j, k | 0 <= j < k < |tail| ensures tail[j].id < tail[k].id {
          assert tail[j] == vs[j + 1] && tail[k] == vs[k + 1];
        }
      }
      ViewOccursOnce(tail, i - 1);
      assert tail[i - 1] == vs[i];
      assert vs[0] != vs[i] by {
        assert vs[0].id < vs[i].id;
      }
    }
  }
}
