/**
 * The typing handlers: `setTyping` keeps one typing record per (user,
 * conversation) holding the time of the last keystroke, and
 * `getTypingStatus` lists the other members' records. Staleness is decided
 * by the client (see module TypingIndicator), not here.
 */
module TypingStatus {
  import opened Wrappers
  import opened Schema
  import opened Store

  /** When `me` last signalled typing in `cid`: the time on their typing record; none without one. */
  function TypingSince(rows: map<TypingId, Typing>, n: nat, me: UserId, cid: ConversationId): (t: Option<int>)
    ensures (forall k :: k in rows ==> !(rows[k].userId == me && rows[k].conversationId == cid)) ==> t.None?
    ensures UniqueTypingRows(rows) && IdsBelow(rows, n) ==> forall k ::
              (k in rows && rows[k].userId == me && rows[k].conversationId == cid) ==> t == Some(rows[k].updatedAt)
  {
    match FindTyping(rows, n, me, cid)
    case None => None
    case Some(k) => Some(rows[k].updatedAt)
  }

  /**
   * The typing time of a user depends only on that user's record: two tables
   * that hold the same records for (`u`, `cid`) give the same answer.
   */
  lemma TypingOwnRows(rows1: map<TypingId, Typing>, n1: nat, rows2: map<TypingId, Typing>, n2: nat, u: UserId, cid: ConversationId)
    requires UniqueTypingRows(rows1) && IdsBelow(rows1, n1) && UniqueTypingRows(rows2) && IdsBelow(rows2, n2)
    requires forall k :: (k in rows1 && rows1[k].userId == u && rows1[k].conversationId == cid) <==>
                         (k in rows2 && rows2[k].userId == u && rows2[k].conversationId == cid)
    requires forall k :: k in rows1 && rows1[k].userId == u && rows1[k].conversationId == cid ==> rows2[k] == rows1[k]
    ensures TypingSince(rows1, n1, u, cid) == TypingSince(rows2, n2, u, cid)
  {
    var r1 := FindTyping(rows1, n1, u, cid);
    if r1.Some? {
      assert rows2[r1.value] == rows1[r1.value];
    }
  }

  /** When only the record of (`me`, `cid`) differs between two tables, nobody else's typing time differs. */
  lemma ChangedOneTyping(rows1: map<TypingId, Typing>, n1: nat, rows2: map<TypingId, Typing>, n2: nat, me: UserId, cid: ConversationId)
    requires UniqueTypingRows(rows1) && IdsBelow(rows1, n1) && UniqueTypingRows(rows2) && IdsBelow(rows2, n2)
    requires forall k :: (k in rows1 && !(rows1[k].userId == me && rows1[k].conversationId == cid)) <==>
                         (k in rows2 && !(rows2[k].userId == me && rows2[k].conversationId == cid))
    requires forall k :: k in rows1 && !(rows1[k].userId == me && rows1[k].conversationId == cid) ==> rows2[k] == rows1[k]
    ensures forall u, c :: (u != me || c != cid) ==> TypingSince(rows2, n2, u, c) == TypingSince(rows1, n1, u, c)
  {
    forall u, c | u != me || c != cid ensures TypingSince(rows2, n2, u, c) == TypingSince(rows1, n1, u, c) {
      TypingOwnRows(rows2, n2, rows1, n1, u, c);
    }
  }

  /**
   * `setTyping`. Errors: no identity, no user record, a missing
   * conversation, a caller who is not a member. Then an explicit
   * `isTyping == false` removes the caller's record (if any); anything else,
   * including an absent flag, stamps the record with `now`, creating it if
   * needed. Nobody else's record changes.
   */
  method SetTyping(s: Store, identity: Option<Identity>, cid: ConversationId, isTyping: Option<bool>, now: int)
    returns (r: Result<(), Error>)
    requires s.Valid()
    modifies s
    ensures s.Valid()
    ensures r.Err? ==> unchanged(s)
    ensures old(Admit(s, identity, cid)).Err? ==> r == Err(old(Admit(s, identity, cid)).error)
    ensures old(Admit(s, identity, cid)).Ok? ==>
              var me := old(Admit(s, identity, cid)).value;
              var found := old(FindTyping(s.typing, s.nextId, me, cid));
              && r == Ok(())
              && (isTyping == Some(false) && found.None? ==> s.typing == old(s.typing) && s.nextId == old(s.nextId))
              && (isTyping == Some(false) && found.Some? ==>
                    s.typing == old(s.typing) - {found.value} && s.nextId == old(s.nextId))
              && (isTyping != Some(false) && found.Some? ==>
                    s.typing == old(s.typing)[found.value := old(s.typing)[found.value].(updatedAt := now)] &&
                    s.nextId == old(s.nextId))
              && (isTyping != Some(false) && found.None? ==>
                    s.typing == old(s.typing)[old(s.nextId) := Typing(cid, me, now)] && s.nextId == old(s.nextId) + 1)
              && TypingSince(s.typing, s.nextId, me, cid) == (if isTyping == Some(false) then None else Some(now))
              && (forall u, c :: (u != me || c != cid) ==>
                    TypingSince(s.typing, s.nextId, u, c) == old(TypingSince(s.typing, s.nextId, u, c)))
    ensures s.users == old(s.users) && s.conversations == old(s.conversations) && s.messages == old(s.messages)
    ensures s.conversationReads == old(s.conversationReads) && s.reactions == old(s.reactions)
  {
    var admitted := Admit(s, identity, cid);
    if admitted.Err? {
      return Err(admitted.error);
    }
    var me := admitted.value;
    if isTyping == Some(false) {
      StopTyping(s, me, cid);
    } else {
      Touch(s, me, cid, now);
    }
    r := Ok(());
  }

  /** The stop branch: delete the caller's record; without one, nothing is written. */
  method StopTyping(s: Store, me: UserId, cid: ConversationId)
    requires s.Valid()
    modifies s
    ensures s.Valid()
    ensures old(FindTyping(s.typing, s.nextId, me, cid)).None? ==> unchanged(s)
    ensures old(FindTyping(s.typing, s.nextId, me, cid)).Some? ==>
              s.typing == old(s.typing) - {old(FindTyping(s.typing, s.nextId, me, cid)).value}
    ensures s.nextId == old(s.nextId)
    ensures TypingSince(s.typing, s.nextId, me, cid).None?
    ensures forall u, c :: (u != me || c != cid) ==>
              TypingSince(s.typing, s.nextId, u, c) == old(TypingSince(s.typing, s.nextId, u, c))
    ensures s.users == old(s.users) && s.conversations == old(s.conversations) && s.messages == old(s.messages)
    ensures s.conversationReads == old(s.conversationReads) && s.reactions == old(s.reactions)
  {
    var rows := s.typing;
    var existing := FindTyping(rows, s.nextId, me, cid);
    if existing.Some? {
      var k := existing.value;
      s.typing := rows - {k};
      ChangedOneTyping(rows, s.nextId, s.typing, s.nextId, me, cid);
    }
  }

  /** The keep-alive branch: patch the caller's record with `now`, or insert it under a fresh id. */
  method Touch(s: Store, me: UserId, cid: ConversationId, now: int)
    requires s.Valid()
    modifies s
    ensures s.Valid()
    ensures old(FindTyping(s.typing, s.nextId, me, cid)).Some? ==>
              var k := old(FindTyping(s.typing, s.nextId, me, cid)).value;
              s.typing == old(s.typing)[k := old(s.typing)[k].(updatedAt := now)] && s.nextId == old(s.nextId)
    ensures old(FindTyping(s.typing, s.nextId, me, cid)).None? ==>
              s.typing == old(s.typing)[old(s.nextId) := Typing(cid, me, now)] && s.nextId == old(s.nextId) + 1
    ensures TypingSince(s.typing, s.nextId, me, cid) == Some(now)
    ensures forall u, c :: (u != me || c != cid) ==>
              TypingSince(s.typing, s.nextId, u, c) == old(TypingSince(s.typing, s.nextId, u, c))
    ensures s.users == old(s.users) && s.conversations == old(s.conversations) && s.messages == old(s.messages)
    ensures s.conversationReads == old(s.conversationReads) && s.reactions == old(s.reactions)
  {
    var existing := FindTyping(s.typing, s.nextId, me, cid);
    if existing.Some? {
      PatchTyping(s, existing.value, me, cid, now);
    } else {
      InsertTyping(s, me, cid, now);
    }
  }

  method PatchTyping(s: Store, k: TypingId, me: UserId, cid: ConversationId, now: int)
    requires s.Valid()
    requires k in s.typing && s.typing[k].userId == me && s.typing[k].conversationId == cid
    modifies s
    ensures s.Valid()
    ensures s.typing == old(s.typing)[k := old(s.typing)[k].(updatedAt := now)] && s.nextId == old(s.nextId)
    ensures TypingSince(s.typing, s.nextId, me, cid) == Some(now)
    ensures forall u, c :: (u != me || c != cid) ==>
              TypingSince(s.typing, s.nextId, u, c) == old(TypingSince(s.typing, s.nextId, u, c))
    ensures s.users == old(s.users) && s.conversations == old(s.conversations) && s.messages == old(s.messages)
    ensures s.conversationReads == old(s.conversationReads) && s.reactions == old(s.reactions)
  {
    var rows := s.typing;
    PatchTypingRow(rows, s.nextId, k, me, cid, now);
    s.typing := rows[k := rows[k].(updatedAt := now)];
    ChangedOneTyping(rows, s.nextId, s.typing, s.nextId, me, cid);
  }

  method InsertTyping(s: Store, me: UserId, cid: ConversationId, now: int)
    requires s.Valid()
    requires FindTyping(s.typing, s.nextId, me, cid).None?
    modifies s
    ensures s.Valid()
    ensures s.typing == old(s.typing)[old(s.nextId) := Typing(cid, me, now)] && s.nextId == old(s.nextId) + 1
    ensures TypingSince(s.typing, s.nextId, me, cid) == Some(now)
    ensures forall u, c :: (u != me || c != cid) ==>
              TypingSince(s.typing, s.nextId, u, c) == old(TypingSince(s.typing, s.nextId, u, c))
    ensures s.users == old(s.users) && s.conversations == old(s.conversations) && s.messages == old(s.messages)
    ensures s.conversationReads == old(s.conversationReads) && s.reactions == old(s.reactions)
  {
    var rows := s.typing;
    var n := s.nextId;
    s.typing := rows[n := Typing(cid, me, now)];
    s.nextId := n + 1;
    ChangedOneTyping(rows, n, s.typing, s.nextId, me, cid);
  }

  /** Patching the record of (`me`, `cid`) keeps the records unique. */
  lemma PatchTypingRow(rows: map<TypingId, Typing>, n: nat, k: TypingId, me: UserId, cid: ConversationId, t: int)
    requires UniqueTypingRows(rows) && IdsBelow(rows, n)
    requires k in rows && rows[k].userId == me && rows[k].conversationId == cid
    ensures UniqueTypingRows(rows[k := rows[k].(updatedAt := t)])
  {
    var rows2 := rows[k := rows[k].(updatedAt := t)];
    forall i, j | i in rows2 && j in rows2 && rows2[i].userId == rows2[j].userId && rows2[i].conversationId == rows2[j].conversationId
      ensures i == j
    {
      assert rows2[i].userId == rows[i].userId && rows2[i].conversationId == rows[i].conversationId;
      assert rows2[j].userId == rows[j].userId && rows2[j].conversationId == rows[j].conversationId;
    }
  }

  // ---- getTypingStatus ----

  /** One typing member as the indicator sees it. */
  datatype TypingView = TypingView(clerkId: Option<string>, name: string, updatedAt: int)

  function ViewOfTyping(users: map<UserId, User>, row: Typing): (v: TypingView)
    ensures v.updatedAt == row.updatedAt
    ensures row.userId in users ==> v.clerkId == Some(users[row.userId].clerkId) && v.name == users[row.userId].name
    ensures row.userId !in users ==> v.clerkId.None? && v.name == UnknownUser
  {
    var p := ProfileOf(users, row.userId);
    TypingView(p.clerkId, p.name, row.updatedAt)
  }

  /** The `by_conversation` index of `typing` for `cid`, without the caller's own record. */
  function OthersTyping(rows: map<TypingId, Typing>, ids: seq<TypingId>, cid: ConversationId, me: UserId): (r: seq<TypingId>)
    ensures forall i :: 0 <= i < |r| ==> r[i] in rows && rows[r[i]].conversationId == cid && rows[r[i]].userId != me
    ensures forall i :: 0 <= i < |ids| && ids[i] in rows && rows[ids[i]].conversationId == cid && rows[ids[i]].userId != me ==>
              ids[i] in r
    ensures Increasing(ids) ==> Increasing(r)
  {
    Where(rows, ids, (id: TypingId, x: Typing) => x.conversationId == cid && x.userId != me)
  }

  function TypingViewsOf(users: map<UserId, User>, rows: map<TypingId, Typing>, sel: seq<TypingId>): (r: seq<TypingView>)
    requires forall i :: 0 <= i < |sel| ==> sel[i] in rows
    ensures |r| == |sel|
    ensures forall k :: 0 <= k < |r| ==> r[k] == ViewOfTyping(users, rows[sel[k]])
  {
    if sel == [] then [] else [ViewOfTyping(users, rows[sel[0]])] + TypingViewsOf(users, rows, sel[1..])
  }

  /** The records `getTypingStatus` reports to `me` in `cid`, oldest first. */
  function TypingRecords(s: Store, me: UserId, cid: ConversationId): (r: seq<TypingId>)
    reads s
    ensures forall i :: 0 <= i < |r| ==> r[i] in s.typing
  {
    OthersTyping(s.typing, Ids(s.typing, s.nextId), cid, me)
  }

  /**
   * `getTypingStatus`. Null before authentication and also when the caller
   * has no user record; a missing conversation or a non-member caller
   * throws. Otherwise one entry per other member's typing record.
   */
  function GetTypingStatus(s: Store, identity: Option<Identity>, cid: ConversationId): (r: Result<Option<seq<TypingView>>, Error>)
    reads s
    ensures identity.None? || Lookup(s, identity.value.subject).None? ==> r == Ok(None)
    ensures identity.Some? && Lookup(s, identity.value.subject).Some? ==>
              var me := Lookup(s, identity.value.subject).value;
              && (cid !in s.conversations ==> r == Err(ConversationNotFound))
              && (cid in s.conversations && me !in s.conversations[cid].members ==> r == Err(NotAMember))
              && (cid in s.conversations && me in s.conversations[cid].members ==>
                    r.Ok? && r.value.Some? && |r.value.value| == |TypingRecords(s, me, cid)|)
  {
    if identity.None? then Ok(None)
    else match Lookup(s, identity.value.subject)
      case None => Ok(None)
      case Some(me) =>
        match CheckMember(s.conversations, cid, me)
        case Err(e) => Err(e)
        case Ok(_) => Ok(Some(TypingViewsOf(s.users, s.typing, TypingRecords(s, me, cid))))
  }

  /**
   * What `getTypingStatus` reports to a member `me`: entry `k` shows the
   * record `recs[k]` of another member of `cid`; every other member with a
   * typing record (as `TypingSince` reads it) is shown, with that time; and
   * no member is shown twice.
   */
  lemma GetTypingStatusSpec(s: Store, identity: Option<Identity>, cid: ConversationId)
    requires s.Valid()
    requires identity.Some? && Lookup(s, identity.value.subject).Some?
    requires cid in s.conversations && Lookup(s, identity.value.subject).value in s.conversations[cid].members
    ensures var me := Lookup(s, identity.value.subject).value;
            var recs := TypingRecords(s, me, cid);
            var vs := GetTypingStatus(s, identity, cid).value.value;
            && |vs| == |recs|
            && (forall k :: 0 <= k < |recs| ==>
                  && s.typing[recs[k]].conversationId == cid && s.typing[recs[k]].userId != me
                  && vs[k] == ViewOfTyping(s.users, s.typing[recs[k]]))
            && (forall u, t :: u != me && TypingSince(s.typing, s.nextId, u, cid) == Some(t) ==> ShowsTyper(s, recs, u, t))
            && (forall i, j :: 0 <= i < j < |recs| ==> recs[i] < recs[j] && s.typing[recs[i]].userId != s.typing[recs[j]].userId)
  {
    var me := Lookup(s, identity.value.subject).value;
    var recs := TypingRecords(s, me, cid);
    forall u, t | u != me && TypingSince(s.typing, s.nextId, u, cid) == Some(t) ensures ShowsTyper(s, recs, u, t) {
      var k := FindTyping(s.typing, s.nextId, u, cid).value;
      var ids := Ids(s.typing, s.nextId);
      var i :| 0 <= i < |ids| && ids[i] == k;
      assert k in recs;
      var j :| 0 <= j < |recs| && recs[j] == k;
    }
    forall i, j | 0 <= i < j < |recs| ensures s.typing[recs[i]].userId != s.typing[recs[j]].userId {
    }
  }

  /** Some record of `recs` belongs to `u` and carries the time `t`. */
  ghost predicate ShowsTyper(s: Store, recs: seq<TypingId>, u: UserId, t: int)
    reads s
  {
    exists k :: 0 <= k < |recs| && recs[k] in s.typing && s.typing[recs[k]].userId == u && s.typing[recs[k]].updatedAt == t
  }
}
