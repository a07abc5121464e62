/**
 * The conversation handlers: `createOrGetDirectConversation`, `createGroup`
 * and `getOtherUserLastSeen`.
 */
module Conversations {
  import opened Wrappers
  import opened Text
  import opened Seqs
  import opened Schema
  import opened Store

  /** The first conversation of the scan that is the direct conversation of `a` and `b`. */
  function FindDirect(conversations: map<ConversationId, Conversation>, ids: seq<ConversationId>, a: UserId, b: UserId): (r: Option<ConversationId>)
    ensures r.Some? ==> r.value in conversations && r.value in ids && IsDirectBetween(conversations[r.value], a, b)
    ensures r.None? ==> forall i :: 0 <= i < |ids| && ids[i] in conversations ==> !IsDirectBetween(conversations[ids[i]], a, b)
  {
    FirstWhere(conversations, ids, (c: Conversation) => IsDirectBetween(c, a, b))
  }

  /** Whoever starts it, the same direct conversation is found for a pair. */
  lemma {:induction false} FindDirectSymmetric(conversations: map<ConversationId, Conversation>, ids: seq<ConversationId>, a: UserId, b: UserId)
    ensures FindDirect(conversations, ids, a, b) == FindDirect(conversations, ids, b, a)
  {
    if ids != [] {
      FindDirectSymmetric(conversations, ids[1..], a, b);
      if ids[0] in conversations {
        assert IsDirectBetween(conversations[ids[0]], a, b) == IsDirectBetween(conversations[ids[0]], b, a);
      }
    }
  }

  /**
   * With at most one direct conversation per pair, the scan's answer is the
   * only direct conversation of the pair.
   */
  lemma FindDirectUnique(conversations: map<ConversationId, Conversation>, ids: seq<ConversationId>, a: UserId, b: UserId, c: ConversationId)
    requires DirectPairsUnique(conversations) && a != b
    requires c in conversations && c in ids && IsDirectBetween(conversations[c], a, b)
    ensures FindDirect(conversations, ids, a, b) == Some(c)
  {
    var k :| 0 <= k < |ids| && ids[k] == c;
  }

  /** A new direct conversation for a pair that has none keeps the pairs unique. */
  lemma InsertDirectKeepsPairsUnique(conversations: map<ConversationId, Conversation>, id: ConversationId, c: Conversation, me: UserId, peer: UserId)
    requires DirectPairsUnique(conversations) && id !in conversations && me != peer
    requires c.kind == Direct && c.members == [me, peer]
    requires forall k :: k in conversations ==> !IsDirectBetween(conversations[k], me, peer)
    ensures DirectPairsUnique(conversations[id := c])
  {
  }

  /** What both parties of a direct conversation are told about each other. */
  datatype DirectResult = DirectResult(
    conversationId: ConversationId,
    isNew: bool,
    conversation: Conversation,
    currentUser: Profile,
    otherUser: Profile)

  /** The record `createOrGetDirectConversation` inserts. */
  function NewDirect(me: UserId, peer: UserId, now: int): (c: Conversation)
    ensures me != peer ==> IsDirectBetween(c, me, peer) && IsDirectBetween(c, peer, me)
    ensures c.members == [me, peer] && c.createdBy == me && c.createdAt == now
    ensures c.lastMessageAt.None? && c.lastMessageId.None?
  {
    Conversation(Direct, [me, peer], None, me, now, None, None)
  }

  /**
   * `createOrGetDirectConversation`: find the caller's direct conversation
   * with the user whose external id is `otherClerkId`, or insert it. Errors
   * come in the source's order: no identity, no user record, the caller's own
   * id, an unknown peer. There is never a second direct conversation per pair.
   */
  method CreateOrGetDirectConversation(s: Store, identity: Option<Identity>, otherClerkId: string, now: int)
    returns (r: Result<DirectResult, Error>)
    requires s.Valid()
    modifies s
    ensures s.Valid()
    ensures r.Err? ==> unchanged(s)
    ensures identity.None? ==> r == Err(NotAuthenticated)
    ensures identity.Some? && old(Lookup(s, identity.value.subject)).None? ==> r == Err(CurrentUserNotFound)
    ensures identity.Some? && old(Lookup(s, identity.value.subject)).Some? && otherClerkId == identity.value.subject ==>
              r == Err(SelfConversation)
    ensures (identity.Some? && old(Lookup(s, identity.value.subject)).Some? && otherClerkId != identity.value.subject &&
             old(Lookup(s, otherClerkId)).None?) ==> r == Err(OtherUserNotFound)
    ensures r.Ok? <==> identity.Some? && otherClerkId != identity.value.subject &&
                       old(Lookup(s, identity.value.subject)).Some? && old(Lookup(s, otherClerkId)).Some?
    ensures r.Ok? ==>
              var me := old(Lookup(s, identity.value.subject)).value;
              var peer := old(Lookup(s, otherClerkId)).value;
              var id := r.value.conversationId;
              && me != peer
              && id in s.conversations && IsDirectBetween(s.conversations[id], me, peer)
              && r.value.conversation == s.conversations[id]
              && r.value.currentUser == ProfileOf(s.users, me)
              && r.value.otherUser == ProfileOf(s.users, peer)
              && FindDirect(s.conversations, Ids(s.conversations, s.nextId), me, peer) == Some(id)
              && (r.value.isNew <==> forall k :: k in old(s.conversations) ==> !IsDirectBetween(old(s.conversations)[k], me, peer))
              && (!r.value.isNew ==> unchanged(s))
              && (r.value.isNew ==>
                    && id == old(s.nextId) && s.nextId == old(s.nextId) + 1
                    && s.conversations == old(s.conversations)[id := NewDirect(me, peer, now)])
    ensures s.users == old(s.users) && s.messages == old(s.messages)
    ensures s.conversationReads == old(s.conversationReads)
    ensures s.reactions == old(s.reactions) && s.typing == old(s.typing)
  {
    var auth := Authenticate(s, identity);
    if auth.Err? {
      return Err(auth.error);
    }
    var me := auth.value;
    if s.users[me].clerkId == otherClerkId {
      return Err(SelfConversation);
    }
    var other := Lookup(s, otherClerkId);
    if other.None? {
      return Err(OtherUserNotFound);
    }
    var peer := other.value;
    var ids := Ids(s.conversations, s.nextId);
    var existing := FindDirect(s.conversations, ids, me, peer);
    if existing.Some? {
      var id := existing.value;
      FindDirectUnique(s.conversations, ids, me, peer, id);
      assert !forall k :: k in s.conversations ==> !IsDirectBetween(s.conversations[k], me, peer);
      return Ok(DirectResult(id, false, s.conversations[id], ProfileOf(s.users, me), ProfileOf(s.users, peer)));
    }
    assert forall k :: k in s.conversations ==> !IsDirectBetween(s.conversations[k], me, peer) by {
      forall k | k in s.conversations ensures !IsDirectBetween(s.conversations[k], me, peer) {
        assert k in ids;
        var i :| 0 <= i < |ids| && ids[i] == k;
      }
    }
    var id := InsertDirect(s, me, peer, now);
    r := Ok(DirectResult(id, true, s.conversations[id], ProfileOf(s.users, me), ProfileOf(s.users, peer)));
  }

  /** The insert branch: a fresh direct conversation for a pair that has none. */
  method InsertDirect(s: Store, me: UserId, peer: UserId, now: int) returns (id: ConversationId)
    requires s.Valid() && me != peer
    requires forall k :: k in s.conversations ==> !IsDirectBetween(s.conversations[k], me, peer)
    modifies s
    ensures s.Valid()
    ensures id == old(s.nextId) && s.nextId == old(s.nextId) + 1
    ensures s.conversations == old(s.conversations)[id := NewDirect(me, peer, now)]
    ensures FindDirect(s.conversations, Ids(s.conversations, s.nextId), me, peer) == Some(id)
    ensures s.users == old(s.users) && s.messages == old(s.messages)
    ensures s.conversationReads == old(s.conversationReads)
    ensures s.reactions == old(s.reactions) && s.typing == old(s.typing)
  {
    id := s.nextId;
    var c := NewDirect(me, peer, now);
    InsertDirectKeepsPairsUnique(s.conversations, id, c, me, peer);
    IdsInsert(s.conversations, id, c);
    s.conversations := s.conversations[id := c];
    s.nextId := s.nextId + 1;
    FindDirectUnique(s.conversations, Ids(s.conversations, s.nextId), me, peer, id);
  }

  /** `[...new Set(memberIds)].filter(id => id !== me)`: the invitees, each once, without the creator. */
  function OtherMembers(memberIds: seq<UserId>, me: UserId): (r: seq<UserId>)
    ensures NoDuplicates(r)
    ensures forall i :: 0 <= i < |r| ==> r[i] != me && r[i] in memberIds
    ensures forall i :: 0 <= i < |memberIds| && memberIds[i] != me ==> memberIds[i] in r
  {
    FirstOccurrencesSpec(memberIds);
    Remove(FirstOccurrences(memberIds), me)
  }

  /** The record `createGroup` inserts: the creator first, then the invitees. */
  function NewGroup(me: UserId, others: seq<UserId>, name: string, now: int): (c: Conversation)
    ensures c.kind == Group && c.name == Some(name) && c.createdBy == me && c.createdAt == now
    ensures |c.members| == |others| + 1 && c.members[0] == me && c.members[1..] == others
    ensures c.lastMessageAt.None? && c.lastMessageId.None?
  {
    Conversation(Group, [me] + others, Some(name), me, now, None, None)
  }

  /** The group's member list has no repeats and at least two members, the creator first. */
  lemma NewGroupMembers(me: UserId, others: seq<UserId>, name: string, now: int)
    requires NoDuplicates(others) && me !in others && |others| >= 1
    ensures var ms := NewGroup(me, others, name, now).members;
            NoDuplicates(ms) && |ms| >= 2 && ms[0] == me
  {
    var ms := [me] + others;
    forall i, j | 0 <= i < j < |ms| ensures ms[i] != ms[j] {
      if i == 0 {
        assert ms[j] == others[j - 1];
      } else {
        assert ms[i] == others[i - 1] && ms[j] == others[j - 1];
      }
    }
  }

  datatype GroupResult = GroupResult(conversationId: ConversationId, name: string)

  /**
   * `createGroup`. Errors in the source's order: no identity, no user record,
   * a name that trims to "", no invitee other than the creator, an invitee
   * without a user record. Otherwise one group conversation is inserted with
   * the trimmed name and the creator followed by the distinct invitees.
   */
  method CreateGroup(s: Store, identity: Option<Identity>, name: string, memberIds: seq<UserId>, now: int)
    returns (r: Result<GroupResult, Error>)
    requires s.Valid()
    modifies s
    ensures s.Valid()
    ensures r.Err? ==> unchanged(s)
    ensures identity.None? ==> r == Err(NotAuthenticated)
    ensures identity.Some? && old(Lookup(s, identity.value.subject)).None? ==> r == Err(CurrentUserNotFound)
    ensures identity.Some? && old(Lookup(s, identity.value.subject)).Some? ==>
              var me := old(Lookup(s, identity.value.subject)).value;
              var others := OtherMembers(memberIds, me);
              && (Trim(name) == "" ==> r == Err(EmptyGroupName))
              && (Trim(name) != "" && others == [] ==> r == Err(TooFewMembers))
              && (Trim(name) != "" && others != [] && (exists i :: 0 <= i < |others| && others[i] !in old(s.users)) ==>
                    r == Err(MembersNotFound))
              && (Trim(name) != "" && others != [] && (forall i :: 0 <= i < |others| ==> others[i] in old(s.users)) ==>
                    r.Ok?)
              && (r.Ok? ==>
                    && r.value == GroupResult(old(s.nextId), Trim(name))
                    && s.conversations == old(s.conversations)[old(s.nextId) := NewGroup(me, others, Trim(name), now)]
                    && s.nextId == old(s.nextId) + 1
                    && (forall i :: 0 <= i < |others| ==> others[i] in s.users))
    ensures r.Ok? ==>
              var ms := s.conversations[r.value.conversationId].members;
              && NoDuplicates(ms) && |ms| >= 2
              && (forall i :: 0 <= i < |ms| ==> ms[i] in s.users)
    ensures s.users == old(s.users) && s.messages == old(s.messages)
    ensures s.conversationReads == old(s.conversationReads)
    ensures s.reactions == old(s.reactions) && s.typing == old(s.typing)
  {
    var auth := Authenticate(s, identity);
    if auth.Err? {
      return Err(auth.error);
    }
    var me := auth.value;
    var groupName := Trim(name);
    if groupName == "" {
      return Err(EmptyGroupName);
    }
    var others := OtherMembers(memberIds, me);
    if |others| < 1 {
      return Err(TooFewMembers);
    }
    if exists i :: 0 <= i < |others| && others[i] !in s.users {
      return Err(MembersNotFound);
    }
    var id := InsertGroup(s, me, others, groupName, now);
    r := Ok(GroupResult(id, groupName));
  }

  /** The insert branch of `createGroup`: the caller and the checked invitees. */
  method InsertGroup(s: Store, me: UserId, others: seq<UserId>, name: string, now: int) returns (id: ConversationId)
    requires s.Valid() && me in s.users
    requires NoDuplicates(others) && me !in others && |others| >= 1
    requires forall i :: 0 <= i < |others| ==> others[i] in s.users
    modifies s
    ensures s.Valid()
    ensures id == old(s.nextId) && s.nextId == old(s.nextId) + 1
    ensures s.conversations == old(s.conversations)[id := NewGroup(me, others, name, now)]
    ensures var ms := s.conversations[id].members;
            && NoDuplicates(ms) && |ms| >= 2
            && (forall i :: 0 <= i < |ms| ==> ms[i] in s.users)
    ensures s.users == old(s.users) && s.messages == old(s.messages)
    ensures s.conversationReads == old(s.conversationReads)
    ensures s.reactions == old(s.reactions) && s.typing == old(s.typing)
  {
    id := s.nextId;
    var c := NewGroup(me, others, name, now);
    NewGroupMembers(me, others, name, now);
    s.conversations := s.conversations[id := c];
    s.nextId := s.nextId + 1;
    forall i | 0 <= i < |c.members| ensures c.members[i] in s.users {
      if i > 0 {
        assert c.members[i] == others[i - 1];
      }
    }
  }

  /** `members.find(id => id !== me)`: the first member other than `me`. */
  function FirstOther(members: seq<UserId>, me: UserId): (r: Option<UserId>)
    ensures r.Some? ==> exists k :: 0 <= k < |members| && members[k] == r.value && r.value != me &&
                                   forall j :: 0 <= j < k ==> members[j] == me
    ensures r.None? ==> forall k :: 0 <= k < |members| ==> members[k] == me
  {
    if members == [] then None
    else if members[0] != me then Some(members[0])
    else
      var r := FirstOther(members[1..], me);
      assert r.Some? ==> exists k :: 0 <= k < |members| && members[k] == r.value && r.value != me &&
                                   forall j :: 0 <= j < k ==> members[j] == me by {
        if r.Some? {
          var k :| 0 <= k < |members[1..]| && members[1..][k] == r.value && r.value != me &&
                   forall j :: 0 <= j < k ==> members[1..][j] == me;
          assert members[k + 1] == r.value;
          assert forall j :: 1 <= j < k + 1 ==> members[j] == members[1..][j - 1];
        }
      }
      r
  }

  /** What the chat header shows: the peer of a direct conversation, or the group's members. */
  datatype HeaderInfo =
    | DirectPeer(clerkId: Option<string>, name: string, imageUrl: Option<string>, lastSeenAt: Option<int>)
    | GroupInfo(name: string, memberCount: nat, members: seq<Profile>)

  const UnnamedGroup: string := "Unnamed Group"

  /**
   * `getOtherUserLastSeen`. Null before authentication or without a user
   * record; a missing conversation or a non-member caller throws; a direct
   * conversation describes its first member other than the caller, a group
   * every member in order.
   */
  function GetOtherUserLastSeen(s: Store, identity: Option<Identity>, cid: ConversationId): (r: Result<Option<HeaderInfo>, Error>)
    reads s
    ensures identity.None? ==> r == Ok(None)
    ensures identity.Some? ==> (Lookup(s, identity.value.subject).None? ==> r == Ok(None))
    ensures identity.Some? && Lookup(s, identity.value.subject).Some? ==>
              var me := Lookup(s, identity.value.subject).value;
              && (cid !in s.conversations ==> r == Err(ConversationNotFound))
              && (cid in s.conversations && me !in s.conversations[cid].members ==> r == Err(NotAMember))
              && (cid in s.conversations && me in s.conversations[cid].members ==> r.Ok? && r.value.Some?)
    ensures r.Ok? && r.value.Some? && r.value.value.GroupInfo? ==>
              identity.Some? && Lookup(s, identity.value.subject).Some? && cid in s.conversations &&
              var c := s.conversations[cid];
              && c.kind == Group
              && r.value.value.memberCount == |c.members| == |r.value.value.members|
              && (forall k :: 0 <= k < |c.members| ==> r.value.value.members[k] == ProfileOf(s.users, c.members[k]))
              && (c.name.Some? ==> r.value.value.name == c.name.value)
              && (c.name.None? ==> r.value.value.name == UnnamedGroup)
    ensures r.Ok? && r.value.Some? && r.value.value.DirectPeer? ==>
              identity.Some? && Lookup(s, identity.value.subject).Some? && cid in s.conversations &&
              var me := Lookup(s, identity.value.subject).value;
              var c := s.conversations[cid];
              var h := r.value.value;
              && c.kind == Direct
              && (FirstOther(c.members, me).Some? && FirstOther(c.members, me).value in s.users ==>
                    var u := FirstOther(c.members, me).value;
                    h == DirectPeer(Some(s.users[u].clerkId), s.users[u].name, s.users[u].imageUrl, Some(s.users[u].lastSeenAt)))
              && ((forall m :: m in c.members ==> m == me) ==> h == DirectPeer(None, UnknownUser, None, None))
              && (FirstOther(c.members, me).Some? && FirstOther(c.members, me).value !in s.users ==>
                    h == DirectPeer(None, UnknownUser, None, None))
  {
    if identity.None? then Ok(None)
    else
      match Lookup(s, identity.value.subject)
      case None => Ok(None)
      case Some(me) =>
        match CheckMember(s.conversations, cid, me)
        case Err(e) => Err(e)
        case Ok(c) =>
          if c.kind == Direct then
            match FirstOther(c.members, me)
            case None => Ok(Some(DirectPeer(None, UnknownUser, None, None)))
            case Some(o) =>
              assert o in c.members;
              var p := ProfileOf(s.users, o);
              var lastSeen := if o in s.users then Some(s.users[o].lastSeenAt) else None;
              Ok(Some(DirectPeer(p.clerkId, p.name, p.imageUrl, lastSeen)))
          else
            var users := s.users;
            Ok(Some(GroupInfo(c.name.GetOr(UnnamedGroup), |c.members|,
                              seq(|c.members|, k requires 0 <= k < |c.members| => ProfileOf(users, c.members[k])))))
  }
}
