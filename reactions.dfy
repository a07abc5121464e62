/** The reaction handlers: `updateReaction` and `getReactionsByConversation`. */
module Reactions {
  import opened Wrappers
  import opened Schema
  import opened Store
  import opened Messages

  /** The emoji `me` has on message `mid`, if any. */
  function ReactionOf(rows: map<ReactionId, Reaction>, n: nat, me: UserId, mid: MessageId): (e: Option<Emoji>)
    ensures UniqueReactions(rows) && IdsBelow(rows, n) ==>
              forall k :: (k in rows && rows[k].userId == me && rows[k].messageId == mid) ==> e == Some(rows[k].emoji)
    ensures (forall k :: k in rows ==> !(rows[k].userId == me && rows[k].messageId == mid)) ==> e.None?
  {
    match FindReaction(rows, n, me, mid)
    case None => None
    case Some(k) => Some(rows[k].emoji)
  }

  /** A user's reaction depends only on that user's row for the message. */
  lemma ReactionOfOwnRows(rows1: map<ReactionId, Reaction>, n1: nat, rows2: map<ReactionId, Reaction>, n2: nat, u: UserId, mid: MessageId)
    requires UniqueReactions(rows1) && IdsBelow(rows1, n1) && UniqueReactions(rows2) && IdsBelow(rows2, n2)
    requires forall k :: (k in rows1 && rows1[k].userId == u && rows1[k].messageId == mid) <==>
                         (k in rows2 && rows2[k].userId == u && rows2[k].messageId == mid)
    requires forall k :: k in rows1 && rows1[k].userId == u && rows1[k].messageId == mid ==> rows2[k].emoji == rows1[k].emoji
    ensures ReactionOf(rows1, n1, u, mid) == ReactionOf(rows2, n2, u, mid)
  {
    var r1 := FindReaction(rows1, n1, u, mid);
    if r1.Some? {
      assert rows2[r1.value].emoji == rows1[r1.value].emoji;
    }
  }

  datatype Action = Added | Removed | Replaced

  datatype ReactionOutcome = ReactionOutcome(action: Action, reaction: Emoji)

  /**
   * The checks of `updateReaction` after authentication: the message must
   * exist and not be deleted, and its conversation must exist and list the
   * caller (a missing conversation reads as not being a member).
   */
  function AdmitToMessage(s: Store, identity: Option<Identity>, mid: MessageId): (r: Result<UserId, Error>)
    reads s
    ensures identity.None? ==> r == Err(NotAuthenticated)
    ensures identity.Some? && Lookup(s, identity.value.subject).None? ==> r == Err(CurrentUserNotFound)
    ensures identity.Some? && Lookup(s, identity.value.subject).Some? ==>
              var me := Lookup(s, identity.value.subject).value;
              && (mid !in s.messages || s.messages[mid].isDeleted ==> r == Err(MessageNotFound))
              && (mid in s.messages && !s.messages[mid].isDeleted ==>
                    var cid := s.messages[mid].conversationId;
                    (cid in s.conversations && me in s.conversations[cid].members <==> r == Ok(me)) &&
                    (r.Err? ==> r.error == NotAMember))
  {
    match Authenticate(s, identity)
    case Err(e) => Err(e)
    case Ok(me) =>
      if mid !in s.messages || s.messages[mid].isDeleted then Err(MessageNotFound)
      else
        var cid := s.messages[mid].conversationId;
        if cid !in s.conversations || me !in s.conversations[cid].members then Err(NotAMember)
        else Ok(me)
  }

  /**
   * `updateReaction`: a toggle. A string outside the five emoji is refused
   * before the handler runs. The caller's reaction to the message becomes the
   * given emoji, or none when it already was that emoji; nobody else's
   * reaction changes.
   */
  method UpdateReaction(s: Store, identity: Option<Identity>, mid: MessageId, reaction: string, now: int)
    returns (r: Result<ReactionOutcome, Error>)
    requires s.Valid()
    modifies s
    ensures s.Valid()
    ensures r.Err? ==> unchanged(s)
    ensures ParseEmoji(reaction).None? ==> r == Err(InvalidReaction)
    ensures ParseEmoji(reaction).Some? && old(AdmitToMessage(s, identity, mid)).Err? ==>
              r == Err(old(AdmitToMessage(s, identity, mid)).error)
    ensures ParseEmoji(reaction).Some? && old(AdmitToMessage(s, identity, mid)).Ok? ==>
              var e := ParseEmoji(reaction).value;
              var me := old(AdmitToMessage(s, identity, mid)).value;
              var before := old(ReactionOf(s.reactions, s.nextId, me, mid));
              && r.Ok? && r.value.reaction == e
              && (r.value.action == Removed <==> before == Some(e))
              && (r.value.action == Added <==> before.None?)
              && ReactionOf(s.reactions, s.nextId, me, mid) == (if before == Some(e) then None else Some(e))
              && (forall u, m :: (u != me || m != mid) ==>
                    ReactionOf(s.reactions, s.nextId, u, m) == old(ReactionOf(s.reactions, s.nextId, u, m)))
              && (r.value.action == Added ==>
                    s.reactions == old(s.reactions)[old(s.nextId) := Reaction(mid, me, e, now)] && s.nextId == old(s.nextId) + 1)
              && (r.value.action == Removed ==>
                    s.reactions == old(s.reactions) - {old(FindReaction(s.reactions, s.nextId, me, mid)).value})
              && (r.value.action == Replaced ==>
                    var k := old(FindReaction(s.reactions, s.nextId, me, mid)).value;
                    s.reactions == old(s.reactions)[k := Reaction(mid, me, e, now)])
    ensures r.Ok? && r.value.action != Added ==> s.nextId == old(s.nextId)
    ensures s.users == old(s.users) && s.conversations == old(s.conversations) && s.messages == old(s.messages)
    ensures s.conversationReads == old(s.conversationReads) && s.typing == old(s.typing)
  {
    var parsed := ParseEmoji(reaction);
    if parsed.None? {
      return Err(InvalidReaction);
    }
    var e := parsed.value;
    var admitted := AdmitToMessage(s, identity, mid);
    if admitted.Err? {
      return Err(admitted.error);
    }
    var me := admitted.value;
    var action := Toggle(s, me, mid, e, now);
    r := Ok(ReactionOutcome(action, e));
  }

  /** The writes of `updateReaction`: remove the same emoji, replace another one, or add one. */
  method Toggle(s: Store, me: UserId, mid: MessageId, e: Emoji, now: int) returns (action: Action)
    requires s.Valid()
    modifies s
    ensures s.Valid()
    ensures var before := old(ReactionOf(s.reactions, s.nextId, me, mid));
            && (action == Removed <==> before == Some(e))
            && (action == Added <==> before.None?)
            && ReactionOf(s.reactions, s.nextId, me, mid) == (if before == Some(e) then None else Some(e))
    ensures forall u, m :: (u != me || m != mid) ==>
              ReactionOf(s.reactions, s.nextId, u, m) == old(ReactionOf(s.reactions, s.nextId, u, m))
    ensures action == Added ==>
              s.reactions == old(s.reactions)[old(s.nextId) := Reaction(mid, me, e, now)] && s.nextId == old(s.nextId) + 1
    ensures action == Removed ==> s.reactions == old(s.reactions) - {old(FindReaction(s.reactions, s.nextId, me, mid)).value}
    ensures action == Replaced ==>
              var k := old(FindReaction(s.reactions, s.nextId, me, mid)).value;
              s.reactions == old(s.reactions)[k := Reaction(mid, me, e, now)]
    ensures action != Added ==> s.nextId == old(s.nextId)
    ensures s.users == old(s.users) && s.conversations == old(s.conversations) && s.messages == old(s.messages)
    ensures s.conversationReads == old(s.conversationReads) && s.typing == old(s.typing)
  {
    var existing := FindReaction(s.reactions, s.nextId, me, mid);
    if existing.Some? {
      var k := existing.value;
      if s.reactions[k].emoji == e {
        RemoveReaction(s, k, me, mid);
        action := Removed;
      } else {
        ReplaceReaction(s, k, Reaction(mid, me, e, now));
        action := Replaced;
      }
    } else {
      AddReaction(s, Reaction(mid, me, e, now));
      action := Added;
    }
  }

  /** The toggle-off branch: delete the caller's row. */
  method RemoveReaction(s: Store, k: ReactionId, me: UserId, mid: MessageId)
    requires s.Valid()
    requires k in s.reactions && s.reactions[k].userId == me && s.reactions[k].messageId == mid
    modifies s
    ensures s.Valid()
    ensures s.reactions == old(s.reactions) - {k} && s.nextId == old(s.nextId)
    ensures ReactionOf(s.reactions, s.nextId, me, mid).None?
    ensures forall u, m :: (u != me || m != mid) ==>
              ReactionOf(s.reactions, s.nextId, u, m) == old(ReactionOf(s.reactions, s.nextId, u, m))
    ensures s.users == old(s.users) && s.conversations == old(s.conversations) && s.messages == old(s.messages)
    ensures s.conversationReads == old(s.conversationReads) && s.typing == old(s.typing)
  {
    var rows := s.reactions;
    RemoveReactionRow(rows, s.nextId, k, me, mid);
    s.reactions := rows - {k};
    ChangedOneReaction(rows, s.nextId, s.reactions, s.nextId, me, mid);
  }

  /** The replace branch: overwrite the caller's row with the new emoji and time. */
  method ReplaceReaction(s: Store, k: ReactionId, x: Reaction)
    requires s.Valid()
    requires k in s.reactions && s.reactions[k].userId == x.userId && s.reactions[k].messageId == x.messageId
    modifies s
    ensures s.Valid()
    ensures s.reactions == old(s.reactions)[k := x] && s.nextId == old(s.nextId)
    ensures ReactionOf(s.reactions, s.nextId, x.userId, x.messageId) == Some(x.emoji)
    ensures forall u, m :: (u != x.userId || m != x.messageId) ==>
              ReactionOf(s.reactions, s.nextId, u, m) == old(ReactionOf(s.reactions, s.nextId, u, m))
    ensures s.users == old(s.users) && s.conversations == old(s.conversations) && s.messages == old(s.messages)
    ensures s.conversationReads == old(s.conversationReads) && s.typing == old(s.typing)
  {
    var rows := s.reactions;
    ReplaceReactionRow(rows, s.nextId, k, x.userId, x.messageId, x);
    s.reactions := rows[k := x];
    ChangedOneReaction(rows, s.nextId, s.reactions, s.nextId, x.userId, x.messageId);
  }

  /** The add branch: insert the caller's first reaction to the message. */
  method AddReaction(s: Store, x: Reaction)
    requires s.Valid()
    requires FindReaction(s.reactions, s.nextId, x.userId, x.messageId).None?
    modifies s
    ensures s.Valid()
    ensures s.reactions == old(s.reactions)[old(s.nextId) := x] && s.nextId == old(s.nextId) + 1
    ensures ReactionOf(s.reactions, s.nextId, x.userId, x.messageId) == Some(x.emoji)
    ensures forall u, m :: (u != x.userId || m != x.messageId) ==>
              ReactionOf(s.reactions, s.nextId, u, m) == old(ReactionOf(s.reactions, s.nextId, u, m))
    ensures s.users == old(s.users) && s.conversations == old(s.conversations) && s.messages == old(s.messages)
    ensures s.conversationReads == old(s.conversationReads) && s.typing == old(s.typing)
  {
    var rows := s.reactions;
    var n := s.nextId;
    InsertReactionRow(rows, n, x.userId, x.messageId, x);
    s.reactions := rows[n := x];
    s.nextId := n + 1;
    ChangedOneReaction(rows, n, s.reactions, s.nextId, x.userId, x.messageId);
  }

  /** Deleting the row of (`me`, `mid`) keeps the rows unique and leaves `me` without a reaction there. */
  lemma RemoveReactionRow(rows: map<ReactionId, Reaction>, n: nat, k: ReactionId, me: UserId, mid: MessageId)
    requires UniqueReactions(rows) && IdsBelow(rows, n)
    requires k in rows && rows[k].userId == me && rows[k].messageId == mid
    ensures UniqueReactions(rows - {k}) && IdsBelow(rows - {k}, n)
    ensures ReactionOf(rows - {k}, n, me, mid).None?
  {
  }

  /** Overwriting the row of (`me`, `mid`) keeps the rows unique and sets that reaction. */
  lemma ReplaceReactionRow(rows: map<ReactionId, Reaction>, n: nat, k: ReactionId, me: UserId, mid: MessageId, x: Reaction)
    requires UniqueReactions(rows) && IdsBelow(rows, n)
    requires k in rows && rows[k].userId == me && rows[k].messageId == mid
    requires x.userId == me && x.messageId == mid
    ensures UniqueReactions(rows[k := x]) && IdsBelow(rows[k := x], n)
    ensures ReactionOf(rows[k := x], n, me, mid) == Some(x.emoji)
  {
    var rows2 := rows[k := x];
    assert UniqueReactions(rows2) by {
      forall i, j | i in rows2 && j in rows2 && rows2[i].messageId == rows2[j].messageId && rows2[i].userId == rows2[j].userId
        ensures i == j
      {
        if i != k && j != k {
          assert rows2[i] == rows[i] && rows2[j] == rows[j];
        }
      }
    }
    assert k in rows2 && rows2[k].userId == me && rows2[k].messageId == mid;
  }

  /** Adding the first row of (`me`, `mid`) keeps the rows unique and sets that reaction. */
  lemma InsertReactionRow(rows: map<ReactionId, Reaction>, n: nat, me: UserId, mid: MessageId, x: Reaction)
    requires UniqueReactions(rows) && IdsBelow(rows, n)
    requires forall k :: k in rows ==> !(rows[k].userId == me && rows[k].messageId == mid)
    requires x.userId == me && x.messageId == mid
    ensures UniqueReactions(rows[n := x]) && IdsBelow(rows[n := x], n + 1)
    ensures ReactionOf(rows[n := x], n + 1, me, mid) == Some(x.emoji)
  {
  }

  /**
   * When only the row of (`me`, `mid`) differs between two tables, every
   * other user's reaction to every message is the same in both.
   */
  lemma ChangedOneReaction(rows1: map<ReactionId, Reaction>, n1: nat, rows2: map<ReactionId, Reaction>, n2: nat, me: UserId, mid: MessageId)
    requires UniqueReactions(rows1) && IdsBelow(rows1, n1) && UniqueReactions(rows2) && IdsBelow(rows2, n2)
    requires forall k :: (k in rows1 && !(rows1[k].userId == me && rows1[k].messageId == mid)) <==>
                         (k in rows2 && !(rows2[k].userId == me && rows2[k].messageId == mid))
    requires forall k :: k in rows1 && !(rows1[k].userId == me && rows1[k].messageId == mid) ==> rows2[k] == rows1[k]
    ensures forall u, m :: (u != me || m != mid) ==> ReactionOf(rows2, n2, u, m) == ReactionOf(rows1, n1, u, m)
  {
    forall u, m | u != me || m != mid ensures ReactionOf(rows2, n2, u, m) == ReactionOf(rows1, n1, u, m) {
      ReactionOfOwnRows(rows2, n2, rows1, n1, u, m);
    }
  }

  // ---- getReactionsByConversation ----

  /** One reaction as the chat shows it, with the reactor's name and picture. */
  datatype ReactionView = ReactionView(
    reactionId: ReactionId,
    emoji: Emoji,
    userId: UserId,
    name: string,
    imageUrl: Option<string>,
    isMine: bool,
    createdAt: int)

  function ViewOfReaction(users: map<UserId, User>, me: UserId, id: ReactionId, r: Reaction): (v: ReactionView)
    ensures v.reactionId == id && v.emoji == r.emoji && v.userId == r.userId && v.createdAt == r.createdAt
    ensures v.isMine <==> r.userId == me
    ensures r.userId in users ==> v.name == users[r.userId].name && v.imageUrl == users[r.userId].imageUrl
    ensures r.userId !in users ==> v.name == UnknownUser && v.imageUrl.None?
  {
    var p := ProfileOf(users, r.userId);
    ReactionView(id, r.emoji, r.userId, p.name, p.imageUrl, r.userId == me, r.createdAt)
  }

  /** The `by_message` index: the reactions to `mid`, in creation order. */
  function ReactionsTo(rows: map<ReactionId, Reaction>, ids: seq<ReactionId>, mid: MessageId): (r: seq<ReactionId>)
    ensures forall i :: 0 <= i < |r| ==> r[i] in rows && r[i] in ids && rows[r[i]].messageId == mid
    ensures forall i :: 0 <= i < |ids| && ids[i] in rows && rows[ids[i]].messageId == mid ==> ids[i] in r
    ensures Increasing(ids) ==> Increasing(r)
  {
    Where(rows, ids, (id: ReactionId, x: Reaction) => x.messageId == mid)
  }

  function ReactionViewsOf(users: map<UserId, User>, rows: map<ReactionId, Reaction>, me: UserId, sel: seq<ReactionId>): (r: seq<ReactionView>)
    requires forall i :: 0 <= i < |sel| ==> sel[i] in rows
    ensures |r| == |sel|
    ensures forall k :: 0 <= k < |r| ==> r[k].reactionId == sel[k]
    ensures forall k :: 0 <= k < |r| ==> r[k] == ViewOfReaction(users, me, sel[k], rows[sel[k]])
  {
    if sel == [] then [] else [ViewOfReaction(users, me, sel[0], rows[sel[0]])] + ReactionViewsOf(users, rows, me, sel[1..])
  }

  /** The reactions to `mid` as the caller `me` sees them. */
  function ReactionViews(s: Store, me: UserId, mid: MessageId): seq<ReactionView>
    reads s
  {
    ReactionViewsOf(s.users, s.reactions, me, ReactionsTo(s.reactions, Ids(s.reactions, s.nextId), mid))
  }

  /**
   * The reactions to a message list each reaction row of the message once,
   * in creation order, and so no user twice.
   */
  lemma ReactionViewsSpec(s: Store, me: UserId, mid: MessageId)
    requires s.Valid()
    ensures var vs := ReactionViews(s, me, mid);
            && (forall k :: 0 <= k < |vs| ==>
                  vs[k].reactionId in s.reactions && s.reactions[vs[k].reactionId].messageId == mid &&
                  vs[k] == ViewOfReaction(s.users, me, vs[k].reactionId, s.reactions[vs[k].reactionId]))
            && (forall id :: id in s.reactions && s.reactions[id].messageId == mid ==>
                  Lists(vs, id))
            && (forall i, j :: 0 <= i < j < |vs| ==> vs[i].reactionId < vs[j].reactionId && vs[i].userId != vs[j].userId)
  {
    var sel := ReactionsTo(s.reactions, Ids(s.reactions, s.nextId), mid);
    ViewsComplete(s.users, s.reactions, s.nextId, me, mid);
    ViewsDistinct(s.users, s.reactions, me, mid, sel);
  }

  /** Whether some view in `vs` shows reaction `id`. */
  predicate Lists(vs: seq<ReactionView>, id: ReactionId) {
    exists k :: 0 <= k < |vs| && vs[k].reactionId == id
  }

  /** Every reaction row of `mid` appears among its views. */
  lemma ViewsComplete(users: map<UserId, User>, rows: map<ReactionId, Reaction>, n: nat, me: UserId, mid: MessageId)
    requires IdsBelow(rows, n)
    ensures var sel := ReactionsTo(rows, Ids(rows, n), mid);
            var vs := ReactionViewsOf(users, rows, me, sel);
            forall id :: id in rows && rows[id].messageId == mid ==> Lists(vs, id)
  {
    var sel := ReactionsTo(rows, Ids(rows, n), mid);
    var vs := ReactionViewsOf(users, rows, me, sel);
    forall id | id in rows && rows[id].messageId == mid
      ensures Lists(vs, id)
    {
      ScanFindsReaction(rows, n, mid, id);
      var k :| 0 <= k < |sel| && sel[k] == id;
      assert vs[k].reactionId == id;
    }
  }

  lemma ScanFindsReaction(rows: map<ReactionId, Reaction>, n: nat, mid: MessageId, id: ReactionId)
    requires IdsBelow(rows, n) && id in rows && rows[id].messageId == mid
    ensures id in ReactionsTo(rows, Ids(rows, n), mid)
  {
    var ids := Ids(rows, n);
    assert id in ids;
    var i :| 0 <= i < |ids| && ids[i] == id;
  }

  lemma ViewsDistinct(users: map<UserId, User>, rows: map<ReactionId, Reaction>, me: UserId, mid: MessageId, sel: seq<ReactionId>)
    requires UniqueReactions(rows) && Increasing(sel)
    requires forall i :: 0 <= i < |sel| ==> sel[i] in rows && rows[sel[i]].messageId == mid
    ensures var vs := ReactionViewsOf(users, rows, me, sel);
            forall i, j :: 0 <= i < j < |vs| ==> vs[i].reactionId < vs[j].reactionId && vs[i].userId != vs[j].userId
  {
    var vs := ReactionViewsOf(users, rows, me, sel);
    forall i, j | 0 <= i < j < |vs| ensures vs[i].reactionId < vs[j].reactionId && vs[i].userId != vs[j].userId {
      assert vs[i].reactionId == sel[i] && vs[j].reactionId == sel[j];
      assert vs[i].userId == rows[sel[i]].userId && vs[j].userId == rows[sel[j]].userId;
    }
  }

  /** Every message of `msgs` is a key, mapped to its reactions; nothing else is a key. */
  ghost predicate Grouped(s: Store, me: UserId, msgs: seq<MessageId>, byMessage: map<MessageId, seq<ReactionView>>)
    reads s
  {
    && (forall mid :: mid in byMessage <==> mid in msgs)
    && (forall mid :: mid in byMessage ==> byMessage[mid] == ReactionViews(s, me, mid))
  }

  /**
   * `getReactionsByConversation`. Null before authentication; a caller
   * without a user record, a missing conversation or a non-member caller
   * throws. Otherwise every message of the conversation maps to its
   * reactions, or the result is empty when no message has any.
   */
  method GetReactionsByConversation(s: Store, identity: Option<Identity>, cid: ConversationId)
    returns (r: Result<Option<map<MessageId, seq<ReactionView>>>, Error>)
    requires s.Valid()
    ensures identity.None? ==> r == Ok(None)
    ensures identity.Some? && Admit(s, identity, cid).Err? ==> r == Err(Admit(s, identity, cid).error)
    ensures Admit(s, identity, cid).Ok? ==>
              var msgs := MessagesIn(s.messages, Ids(s.messages, s.nextId), cid);
              var me := Admit(s, identity, cid).value;
              && r.Ok? && r.value.Some?
              && (!AnyReactions(s, me, msgs) ==> r.value.value == map[])
              && (AnyReactions(s, me, msgs) ==> Grouped(s, me, msgs, r.value.value))
  {
    if identity.None? {
      return Ok(None);
    }
    var admitted := Admit(s, identity, cid);
    if admitted.Err? {
      return Err(admitted.error);
    }
    var me := admitted.value;
    var msgs := MessagesIn(s.messages, Ids(s.messages, s.nextId), cid);
    var byMessage := Collect(s, me, msgs);
    r := Ok(Some(byMessage));
  }

  /** Whether some message of `msgs` has at least one reaction. */
  predicate AnyReactions(s: Store, me: UserId, msgs: seq<MessageId>)
    reads s
  {
    exists i :: 0 <= i < |msgs| && ReactionViews(s, me, msgs[i]) != []
  }

  /** Steps 4 to 9 of `getReactionsByConversation`: empty when nothing is reacted to, else grouped. */
  method Collect(s: Store, me: UserId, msgs: seq<MessageId>) returns (byMessage: map<MessageId, seq<ReactionView>>)
    ensures !AnyReactions(s, me, msgs) ==> byMessage == map[]
    ensures AnyReactions(s, me, msgs) ==> Grouped(s, me, msgs, byMessage)
  {
    if |msgs| == 0 {
      return map[];
    }
    if !AnyReactions(s, me, msgs) {
      return map[];
    }
    byMessage := GroupByMessage(s, me, msgs);
  }

  /** The loop of `getReactionsByConversation` that keys each message's reactions by its id. */
  method GroupByMessage(s: Store, me: UserId, msgs: seq<MessageId>) returns (byMessage: map<MessageId, seq<ReactionView>>)
    ensures Grouped(s, me, msgs, byMessage)
  {
    byMessage := map[];
    for i := 0 to |msgs|
      invariant forall mid :: mid in byMessage <==> mid in msgs[..i]
      invariant forall mid :: mid in byMessage ==> byMessage[mid] == ReactionViews(s, me, mid)
    {
      byMessage := byMessage[msgs[i] := ReactionViews(s, me, msgs[i])];
    }
    assert msgs[..|msgs|] == msgs;
  }
}
