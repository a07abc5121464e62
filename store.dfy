/**
 * The document store: one map per table, table scans in creation order, the
 * lookups every handler shares, and the invariants the handlers keep.
 */
module Store {
  import opened Wrappers
  import opened Schema

  ghost predicate Increasing(ids: seq<nat>) {
    forall i, j :: 0 <= i < j < |ids| ==> ids[i] < ids[j]
  }

  /** The ids of `m` below `n` in ascending order: a full table scan, oldest document first. */
  function Ids<T>(m: map<nat, T>, n: nat): (r: seq<nat>)
    ensures forall i :: 0 <= i < |r| ==> r[i] in m && r[i] < n
    ensures forall k :: k in m && k < n ==> k in r
    ensures Increasing(r)
  {
    if n == 0 then []
    else
      var rest := Ids(m, n - 1);
      if n - 1 in m then
        AppendLast(rest, n - 1);
        rest + [n - 1]
      else
        rest
  }

  /** An id above every id of an increasing scan may follow it. */
  lemma AppendLast(ids: seq<nat>, x: nat)
    requires Increasing(ids) && forall i :: 0 <= i < |ids| ==> ids[i] < x
    ensures Increasing(ids + [x])
  {
    var r := ids + [x];
    forall i, j | 0 <= i < j < |r| ensures r[i] < r[j] {
      assert r[i] == ids[i];
    }
  }

  /** Inserting under a fresh id `n` appends `n` to the scan. */
  lemma {:induction false} IdsInsert<T>(m: map<nat, T>, n: nat, v: T)
    requires forall k :: k in m ==> k < n
    ensures Ids(m[n := v], n + 1) == Ids(m, n) + [n]
  {
    IdsAgree(m[n := v], m, n);
  }

  /** The scan below `n` depends only on which ids below `n` are present. */
  lemma {:induction false} IdsAgree<T>(m1: map<nat, T>, m2: map<nat, T>, n: nat)
    requires forall k :: k < n ==> (k in m1 <==> k in m2)
    ensures Ids(m1, n) == Ids(m2, n)
  {
    if n > 0 {
      IdsAgree(m1, m2, n - 1);
      assert Ids(m1, n) == Ids(m1, n - 1) + (if n - 1 in m1 then [n - 1] else []);
      assert Ids(m2, n) == Ids(m2, n - 1) + (if n - 1 in m2 then [n - 1] else []);
    }
  }

  /** The first document of the scan `ids` that satisfies `p` (`Array.prototype.find`). */
  function FirstWhere<T>(m: map<nat, T>, ids: seq<nat>, p: T -> bool): (r: Option<nat>)
    ensures r.Some? ==> r.value in m && r.value in ids && p(m[r.value])
    ensures r.None? ==> forall i :: 0 <= i < |ids| && ids[i] in m ==> !p(m[ids[i]])
  {
    if ids == [] then None
    else if ids[0] in m && p(m[ids[0]]) then Some(ids[0])
    else FirstWhere(m, ids[1..], p)
  }

  /** The documents of the scan `ids` whose id and record satisfy `p`, in scan order (`Array.prototype.filter`). */
  function Where<T>(m: map<nat, T>, ids: seq<nat>, p: (nat, T) -> bool): (r: seq<nat>)
    ensures forall i :: 0 <= i < |r| ==> r[i] in m && r[i] in ids && p(r[i], m[r[i]])
    ensures forall i :: 0 <= i < |ids| && ids[i] in m && p(ids[i], m[ids[i]]) ==> ids[i] in r
    ensures Increasing(ids) ==> Increasing(r)
  {
    if ids == [] then []
    else
      var rest := Where(m, ids[1..], p);
      if ids[0] in m && p(ids[0], m[ids[0]]) then
        PrependHead(ids, rest);
        [ids[0]] + rest
      else
        rest
  }

  /** Keeping the head of an increasing scan in front of a selection from its tail keeps the selection increasing. */
  lemma PrependHead(ids: seq<nat>, rest: seq<nat>)
    requires ids != []
    requires forall i :: 0 <= i < |rest| ==> rest[i] in ids[1..]
    requires Increasing(ids[1..]) ==> Increasing(rest)
    ensures Increasing(ids) ==> Increasing([ids[0]] + rest)
  {
    if Increasing(ids) {
      assert Increasing(ids[1..]);
      forall i | 0 <= i < |rest| ensures ids[0] < rest[i] {
        var k :| 0 <= k < |ids[1..]| && ids[1..][k] == rest[i];
        assert ids[k + 1] == rest[i];
      }
      var r := [ids[0]] + rest;
      forall i, j | 0 <= i < j < |r| ensures r[i] < r[j] {
        assert r[j] == rest[j - 1];
        if i > 0 {
          assert r[i] == rest[i - 1];
        }
      }
    }
  }

  // ---- invariants of the tables ----

  ghost predicate IdsBelow<T>(m: map<nat, T>, n: nat) {
    forall k :: k in m ==> k < n
  }

  /** At most one user per external identity. */
  ghost predicate UniqueClerkIds(users: map<UserId, User>) {
    forall a, b :: a in users && b in users && users[a].clerkId == users[b].clerkId ==> a == b
  }

  /** The test `createOrGetDirectConversation` applies to find the conversation of `a` and `b`. */
  predicate IsDirectBetween(c: Conversation, a: UserId, b: UserId) {
    c.kind == Direct && |c.members| == 2 && a in c.members && b in c.members
  }

  /** At most one direct conversation per unordered pair of distinct users. */
  ghost predicate DirectPairsUnique(conversations: map<ConversationId, Conversation>) {
    forall i, j, a, b ::
      (i in conversations && j in conversations && a != b &&
       IsDirectBetween(conversations[i], a, b) && IsDirectBetween(conversations[j], a, b)) ==> i == j
  }

  /** At most one read receipt per (user, conversation). */
  ghost predicate UniqueReadRows(rows: map<ReadId, ConversationRead>) {
    forall i, j ::
      (i in rows && j in rows &&
       rows[i].userId == rows[j].userId && rows[i].conversationId == rows[j].conversationId) ==> i == j
  }

  /** At most one reaction per (message, user). */
  ghost predicate UniqueReactions(reactions: map<ReactionId, Reaction>) {
    forall i, j ::
      (i in reactions && j in reactions &&
       reactions[i].messageId == reactions[j].messageId && reactions[i].userId == reactions[j].userId) ==> i == j
  }

  /** At most one typing record per (user, conversation). */
  ghost predicate UniqueTypingRows(typing: map<TypingId, Typing>) {
    forall i, j ::
      (i in typing && j in typing &&
       typing[i].userId == typing[j].userId && typing[i].conversationId == typing[j].conversationId) ==> i == j
  }

  /** The shared document store. */
  class Store {
    var users: map<UserId, User>
    var conversations: map<ConversationId, Conversation>
    var messages: map<MessageId, Message>
    var conversationReads: map<ReadId, ConversationRead>
    var reactions: map<ReactionId, Reaction>
    var typing: map<TypingId, Typing>
    /** The next id to hand out; every id in use is below it. */
    var nextId: nat

    ghost predicate Valid()
      reads this
    {
      && IdsBelow(users, nextId)
      && IdsBelow(conversations, nextId)
      && IdsBelow(messages, nextId)
      && IdsBelow(conversationReads, nextId)
      && IdsBelow(reactions, nextId)
      && IdsBelow(typing, nextId)
      && UniqueClerkIds(users)
      && DirectPairsUnique(conversations)
      && UniqueReadRows(conversationReads)
      && UniqueReactions(reactions)
      && UniqueTypingRows(typing)
    }

    constructor ()
      ensures Valid()
      ensures users == map[] && conversations == map[] && messages == map[]
      ensures conversationReads == map[] && reactions == map[] && typing == map[]
    {
      users, conversations, messages := map[], map[], map[];
      conversationReads, reactions, typing := map[], map[], map[];
      nextId := 0;
    }
  }

  // ---- lookups shared by the handlers ----

  /** The `by_clerkId` index: the user whose external id is `clerkId`. */
  function FindUserByClerkId(users: map<UserId, User>, ids: seq<UserId>, clerkId: string): (r: Option<UserId>)
    ensures r.Some? ==> r.value in users && users[r.value].clerkId == clerkId
    ensures r.None? ==> forall i :: 0 <= i < |ids| && ids[i] in users ==> users[ids[i]].clerkId != clerkId
  {
    FirstWhere(users, ids, (u: User) => u.clerkId == clerkId)
  }

  /** A full scan that finds nothing satisfying `p` means no document below `n` satisfies it. */
  lemma ScanMisses<T>(m: map<nat, T>, n: nat, p: T -> bool)
    ensures FirstWhere(m, Ids(m, n), p).None? ==> forall k :: k in m && k < n ==> !p(m[k])
  {
    var ids := Ids(m, n);
    forall k | k in m && k < n && FirstWhere(m, ids, p).None? ensures !p(m[k]) {
      var i :| 0 <= i < |ids| && ids[i] == k;
    }
  }

  /** The caller's user record, looked up through the `by_clerkId` index over the whole table. */
  function Lookup(s: Store, clerkId: string): (r: Option<UserId>)
    reads s
    ensures r.Some? ==> r.value in s.users && s.users[r.value].clerkId == clerkId
    ensures r.None? ==> forall u :: u in s.users && u < s.nextId ==> s.users[u].clerkId != clerkId
    ensures s.Valid() ==> forall u :: u in s.users && s.users[u].clerkId == clerkId ==> r == Some(u)
  {
    var ids := Ids(s.users, s.nextId);
    var r := FindUserByClerkId(s.users, ids, clerkId);
    assert forall u :: u in s.users && u < s.nextId ==> exists i :: 0 <= i < |ids| && ids[i] == u;
    r
  }

  /**
   * The preamble of every mutation: no identity is `NotAuthenticated`, an
   * identity without a user record is `CurrentUserNotFound`.
   */
  function Authenticate(s: Store, identity: Option<Identity>): (r: Result<UserId, Error>)
    reads s
    ensures identity.None? <==> r == Err(NotAuthenticated)
    ensures identity.Some? ==> (r == Err(CurrentUserNotFound) <==> Lookup(s, identity.value.subject).None?)
    ensures r.Ok? ==> identity.Some? && Lookup(s, identity.value.subject) == Some(r.value)
    ensures r.Err? ==> r.error == NotAuthenticated || r.error == CurrentUserNotFound
  {
    if identity.None? then Err(NotAuthenticated)
    else
      match Lookup(s, identity.value.subject)
      case None => Err(CurrentUserNotFound)
      case Some(id) => Ok(id)
  }

  /** The `by_user_conversation` index of `conversationReads` over the ids below `n`: the receipt of `me` in `cid`. */
  function FindRead(rows: map<ReadId, ConversationRead>, n: nat, me: UserId, cid: ConversationId): (r: Option<ReadId>)
    ensures r.Some? ==> r.value in rows && rows[r.value].userId == me && rows[r.value].conversationId == cid
    ensures r.None? ==> forall k :: k in rows && k < n ==> !(rows[k].userId == me && rows[k].conversationId == cid)
    ensures UniqueReadRows(rows) && IdsBelow(rows, n) ==>
              forall k :: (k in rows && rows[k].userId == me && rows[k].conversationId == cid) ==> r == Some(k)
  {
    var ids := Ids(rows, n);
    var p := (row: ConversationRead) => row.userId == me && row.conversationId == cid;
    var r := FirstWhere(rows, ids, p);
    ScanMisses(rows, n, p);
    r
  }

  /** The `by_user_conversation` index of `typing` over the ids below `n`: the typing record of `me` in `cid`. */
  function FindTyping(rows: map<TypingId, Typing>, n: nat, me: UserId, cid: ConversationId): (r: Option<TypingId>)
    ensures r.Some? ==> r.value in rows && rows[r.value].userId == me && rows[r.value].conversationId == cid
    ensures r.None? ==> forall k :: k in rows && k < n ==> !(rows[k].userId == me && rows[k].conversationId == cid)
    ensures UniqueTypingRows(rows) && IdsBelow(rows, n) ==>
              forall k :: (k in rows && rows[k].userId == me && rows[k].conversationId == cid) ==> r == Some(k)
  {
    var ids := Ids(rows, n);
    var p := (row: Typing) => row.userId == me && row.conversationId == cid;
    var r := FirstWhere(rows, ids, p);
    ScanMisses(rows, n, p);
    r
  }

  /** The `by_message_user` index of `reactions` over the ids below `n`: the reaction of `me` to message `mid`. */
  function FindReaction(rows: map<ReactionId, Reaction>, n: nat, me: UserId, mid: MessageId): (r: Option<ReactionId>)
    ensures r.Some? ==> r.value in rows && rows[r.value].userId == me && rows[r.value].messageId == mid
    ensures r.None? ==> forall k :: k in rows && k < n ==> !(rows[k].userId == me && rows[k].messageId == mid)
    ensures UniqueReactions(rows) && IdsBelow(rows, n) ==>
              forall k :: (k in rows && rows[k].userId == me && rows[k].messageId == mid) ==> r == Some(k)
  {
    var ids := Ids(rows, n);
    var p := (row: Reaction) => row.userId == me && row.messageId == mid;
    var r := FirstWhere(rows, ids, p);
    ScanMisses(rows, n, p);
    r
  }

  /** The public profile of a user; a missing user shows as "Unknown User" with no clerkId or image. */
  datatype Profile = Profile(clerkId: Option<string>, name: string, imageUrl: Option<string>)

  const UnknownUser: string := "Unknown User"

  function ProfileOf(users: map<UserId, User>, id: UserId): (p: Profile)
    ensures id in users ==> p == Profile(Some(users[id].clerkId), users[id].name, users[id].imageUrl)
    ensures id !in users ==> p == Profile(None, UnknownUser, None)
  {
    if id in users then Profile(Some(users[id].clerkId), users[id].name, users[id].imageUrl)
    else Profile(None, UnknownUser, None)
  }

  /** `conversation` exists and lists `me` among its members; otherwise the handler throws. */
  function CheckMember(conversations: map<ConversationId, Conversation>, cid: ConversationId, me: UserId): (r: Result<Conversation, Error>)
    ensures r.Ok? <==> cid in conversations && me in conversations[cid].members
    ensures r.Ok? ==> r.value == conversations[cid]
    ensures r == Err(ConversationNotFound) <==> cid !in conversations
    ensures r.Err? ==> r.error == ConversationNotFound || r.error == NotAMember
  {
    if cid !in conversations then Err(ConversationNotFound)
    else if me !in conversations[cid].members then Err(NotAMember)
    else Ok(conversations[cid])
  }

  /**
   * The preamble of the mutations on one conversation: authenticate, then
   * `conversation` must exist and list the caller.
   */
  function Admit(s: Store, identity: Option<Identity>, cid: ConversationId): (r: Result<UserId, Error>)
    reads s
    ensures identity.None? ==> r == Err(NotAuthenticated)
    ensures identity.Some? && Lookup(s, identity.value.subject).None? ==> r == Err(CurrentUserNotFound)
    ensures identity.Some? && Lookup(s, identity.value.subject).Some? ==>
              var me := Lookup(s, identity.value.subject).value;
              && (cid !in s.conversations ==> r == Err(ConversationNotFound))
              && (cid in s.conversations && me !in s.conversations[cid].members ==> r == Err(NotAMember))
              && (cid in s.conversations && me in s.conversations[cid].members ==> r == Ok(me))
    ensures r.Ok? ==> r.value in s.users && cid in s.conversations && r.value in s.conversations[cid].members
  {
    match Authenticate(s, identity)
    case Err(e) => Err(e)
    case Ok(me) =>
      match CheckMember(s.conversations, cid, me)
      case Err(e) => Err(e)
      case Ok(_) => Ok(me)
  }
}
