/**
 * Two calls in a row: what the handlers promise about a call made on the
 * store an earlier call left behind. Each method makes the two calls and
 * states, in terms of the store before the first, what the pair amounts to.
 */
module Scenarios {
  import opened Wrappers
  import opened Schema
  import opened Store
  import opened Summaries
  import opened Conversations
  import opened Messages
  import opened Reactions

  /**
   * Either party may open a direct conversation: once `a` has opened one with
   * `b`, `b` opening one with `a` finds the same conversation and creates
   * nothing.
   */
  method OpenBothWays(s: Store, a: Identity, b: Identity, now1: int, now2: int)
    returns (r1: Result<DirectResult, Error>, r2: Result<DirectResult, Error>)
    requires s.Valid()
    modifies s
    ensures s.Valid()
    ensures r1.Ok? ==> r2.Ok? && r2.value.conversationId == r1.value.conversationId && !r2.value.isNew
  {
    ghost var me := Lookup(s, a.subject);
    ghost var peer := Lookup(s, b.subject);
    r1 := CreateOrGetDirectConversation(s, Some(a), b.subject, now1);
    if r1.Err? {
      r2 := CreateOrGetDirectConversation(s, Some(b), a.subject, now2);
      return;
    }
    var id := r1.value.conversationId;
    assert Lookup(s, a.subject) == me && Lookup(s, b.subject) == peer;
    assert id in s.conversations && IsDirectBetween(s.conversations[id], peer.value, me.value);
    ghost var c := s.conversations[id];
    r2 := CreateOrGetDirectConversation(s, Some(b), a.subject, now2);
    assert id in s.conversations && s.conversations[id] == c;
    assert r2.value.conversationId == id;
  }

  /**
   * Reacting twice with the same emoji: the second call undoes the first's
   * toggle, removing the emoji unless the first call removed it. Unless the
   * first call replaced another emoji, everyone's reactions are as they were
   * before both calls.
   */
  method ReactTwice(s: Store, identity: Option<Identity>, mid: MessageId, reaction: string, now1: int, now2: int)
    returns (r1: Result<ReactionOutcome, Error>, r2: Result<ReactionOutcome, Error>)
    requires s.Valid()
    modifies s
    ensures s.Valid()
    ensures r1.Ok? ==> r2.Ok? && r2.value.reaction == r1.value.reaction &&
                       (r2.value.action == Removed <==> r1.value.action != Removed)
    ensures r1.Ok? && r1.value.action != Replaced ==>
              forall u, m :: ReactionOf(s.reactions, s.nextId, u, m) == old(ReactionOf(s.reactions, s.nextId, u, m))
  {
    ghost var me := AdmitToMessage(s, identity, mid);
    r1 := UpdateReaction(s, identity, mid, reaction, now1);
    if r1.Err? {
      r2 := UpdateReaction(s, identity, mid, reaction, now2);
      return;
    }
    ghost var n := s.nextId;
    assert Lookup(s, identity.value.subject) == Some(me.value);
    assert AdmitToMessage(s, identity, mid) == me;
    ghost var added := s.reactions;
    r2 := UpdateReaction(s, identity, mid, reaction, now2);
    if r1.value.action != Replaced {
      forall u, m ensures ReactionOf(s.reactions, s.nextId, u, m) == old(ReactionOf(s.reactions, s.nextId, u, m)) {
        if u != me.value || m != mid {
          assert ReactionOf(s.reactions, s.nextId, u, m) == ReactionOf(added, n, u, m);
        }
      }
    }
  }

  /**
   * Marking a conversation read twice leaves the caller's mark at the later
   * of the two clocks (and of any earlier mark), creates at most one receipt,
   * and moves nobody else's mark.
   */
  method MarkTwice(s: Store, identity: Option<Identity>, cid: ConversationId, now1: int, now2: int)
    returns (r1: Result<(), Error>, r2: Result<(), Error>)
    requires s.Valid()
    modifies s
    ensures s.Valid()
    ensures r1 == r2
    ensures old(Admit(s, identity, cid)).Ok? ==>
              var me := old(Admit(s, identity, cid)).value;
              var before := old(ReadMark(s.conversationReads, s.nextId, me, cid));
              var later := Max(now1, now2);
              && r1.Ok?
              && ReadMark(s.conversationReads, s.nextId, me, cid) ==
                   (if old(FindRead(s.conversationReads, s.nextId, me, cid)).Some? then Max(before, later) else later)
              && s.nextId <= old(s.nextId) + 1
              && forall u, c :: (u != me || c != cid) ==>
                   ReadMark(s.conversationReads, s.nextId, u, c) == old(ReadMark(s.conversationReads, s.nextId, u, c))
  {
    ghost var me := Admit(s, identity, cid);
    r1 := MarkAsRead(s, identity, cid, now1);
    if r1.Ok? {
      assert Lookup(s, identity.value.subject) == Some(me.value);
    }
    r2 := MarkAsRead(s, identity, cid, now2);
  }

  /**
   * Deleting a message twice: the second call succeeds too and writes
   * nothing, so the pair is one soft delete.
   */
  method DeleteTwice(s: Store, identity: Option<Identity>, mid: MessageId)
    returns (r1: Result<MessageId, Error>, r2: Result<MessageId, Error>)
    requires s.Valid()
    modifies s
    ensures s.Valid()
    ensures r1 == r2
    ensures r1.Err? ==> unchanged(s)
    ensures r1.Ok? ==> mid in old(s.messages) && s.messages == old(s.messages)[mid := old(s.messages)[mid].(isDeleted := true)]
    ensures s.nextId == old(s.nextId) && s.users == old(s.users) && s.conversations == old(s.conversations)
    ensures s.conversationReads == old(s.conversationReads) && s.reactions == old(s.reactions) && s.typing == old(s.typing)
  {
    r1 := DeleteMessage(s, identity, mid);
    r2 := DeleteMessage(s, identity, mid);
  }

  /**
   * A reaction added and toggled off again leaves no trace: the reactions
   * table is exactly as before.
   */
  method AddThenUndo(s: Store, identity: Option<Identity>, mid: MessageId, reaction: string, now1: int, now2: int)
    returns (r1: Result<ReactionOutcome, Error>, r2: Result<ReactionOutcome, Error>)
    requires s.Valid()
    requires ParseEmoji(reaction).Some? && AdmitToMessage(s, identity, mid).Ok?
    requires ReactionOf(s.reactions, s.nextId, AdmitToMessage(s, identity, mid).value, mid).None?
    modifies s
    ensures s.Valid()
    ensures r1.Ok? && r1.value.action == Added && r2.Ok? && r2.value.action == Removed
    ensures s.reactions == old(s.reactions) && s.nextId == old(s.nextId) + 1
  {
    ghost var me := AdmitToMessage(s, identity, mid).value;
    ghost var n := s.nextId;
    r1 := Add(s, identity, mid, reaction, now1, me);
    ghost var added := s.reactions;
    r2 := Undo(s, identity, mid, reaction, now2, me, n);
    RemoveInserted(old(s.reactions), n, added[n]);
  }

  /** The first call of `AddThenUndo`: the caller has no reaction yet, so the toggle inserts one at the next id. */
  method Add(s: Store, identity: Option<Identity>, mid: MessageId, reaction: string, now: int, ghost me: UserId)
    returns (r: Result<ReactionOutcome, Error>)
    requires s.Valid() && ParseEmoji(reaction).Some? && AdmitToMessage(s, identity, mid) == Ok(me)
    requires ReactionOf(s.reactions, s.nextId, me, mid).None?
    modifies s
    ensures s.Valid()
    ensures r.Ok? && r.value.action == Added
    ensures old(s.nextId) !in old(s.reactions) && s.nextId == old(s.nextId) + 1
    ensures s.reactions == old(s.reactions)[old(s.nextId) := Reaction(mid, me, ParseEmoji(reaction).value, now)]
    ensures AdmitToMessage(s, identity, mid) == Ok(me)
  {
    r := UpdateReaction(s, identity, mid, reaction, now);
    assert Lookup(s, identity.value.subject) == Some(me);
  }

  /** The second call of `AddThenUndo`: the caller's row `k` holds the emoji, so the toggle removes it. */
  method Undo(s: Store, identity: Option<Identity>, mid: MessageId, reaction: string, now: int, ghost me: UserId, ghost k: ReactionId)
    returns (r: Result<ReactionOutcome, Error>)
    requires s.Valid() && ParseEmoji(reaction).Some? && AdmitToMessage(s, identity, mid) == Ok(me)
    requires k in s.reactions && s.reactions[k].userId == me && s.reactions[k].messageId == mid
    requires s.reactions[k].emoji == ParseEmoji(reaction).value
    modifies s
    ensures s.Valid()
    ensures r.Ok? && r.value.action == Removed
    ensures s.reactions == old(s.reactions) - {k} && s.nextId == old(s.nextId)
  {
    assert FindReaction(s.reactions, s.nextId, me, mid) == Some(k);
    r := UpdateReaction(s, identity, mid, reaction, now);
  }

  /** Deleting the key just inserted gives the map back. */
  lemma RemoveInserted<K, V>(m: map<K, V>, k: K, v: V)
    requires k !in m
    ensures m[k := v] - {k} == m
  {
  }
}
