/** The user handlers: `createUserIfNotExists`, `updateLastSeen` and `getUsers`. */
module Users {
  import opened Wrappers
  import opened Text
  import opened Seqs
  import opened Schema
  import opened Store

  /** The record inserted on first contact: missing name and email claims become "". */
  function NewUser(identity: Identity, now: int): (u: User)
    ensures u.clerkId == identity.subject && u.imageUrl == identity.pictureUrl
    ensures u.name == (if identity.name.Some? then identity.name.value else "")
    ensures u.email == (if identity.email.Some? then identity.email.value else "")
    ensures u.lastSeenAt == u.createdAt == now
  {
    User(identity.subject, identity.name.GetOr(""), identity.email.GetOr(""), identity.pictureUrl, now, now)
  }

  /**
   * Insert-or-touch by external id. Without an identity it throws; with one it
   * either inserts the caller's user record or sets its `lastSeenAt` to `now`,
   * so there is never a second user for the same external id.
   */
  method CreateUserIfNotExists(s: Store, identity: Option<Identity>, now: int) returns (r: Result<(), Error>)
    requires s.Valid()
    modifies s
    ensures s.Valid()
    ensures identity.None? ==> r == Err(NotAuthenticated) && unchanged(s)
    ensures identity.Some? ==> r == Ok(())
    ensures identity.Some? && (forall u :: u in old(s.users) ==> old(s.users)[u].clerkId != identity.value.subject) ==>
              && s.users == old(s.users)[old(s.nextId) := NewUser(identity.value, now)]
              && s.nextId == old(s.nextId) + 1
    ensures forall u :: u in old(s.users) && identity.Some? && old(s.users)[u].clerkId == identity.value.subject ==>
              && s.users == old(s.users)[u := old(s.users)[u].(lastSeenAt := now)]
              && s.nextId == old(s.nextId)
    ensures identity.Some? ==> exists u :: u in s.users && s.users[u].clerkId == identity.value.subject
    ensures s.conversations == old(s.conversations) && s.messages == old(s.messages)
    ensures s.conversationReads == old(s.conversationReads)
    ensures s.reactions == old(s.reactions) && s.typing == old(s.typing)
  {
    if identity.None? {
      return Err(NotAuthenticated);
    }
    var subject := identity.value.subject;
    var existing := FindUserByClerkId(s.users, Ids(s.users, s.nextId), subject);
    if existing.None? {
      var id := s.nextId;
      s.users := s.users[id := NewUser(identity.value, now)];
      s.nextId := s.nextId + 1;
      assert s.users[id].clerkId == subject;
    } else {
      var id := existing.value;
      s.users := s.users[id := s.users[id].(lastSeenAt := now)];
      assert s.users[id].clerkId == subject;
    }
    r := Ok(());
  }

  /**
   * The presence heartbeat. Without an identity it returns quietly and writes
   * nothing; a caller without a user record throws; otherwise only the
   * caller's `lastSeenAt` becomes `now`.
   */
  method UpdateLastSeen(s: Store, identity: Option<Identity>, now: int) returns (r: Result<(), Error>)
    requires s.Valid()
    modifies s
    ensures s.Valid()
    ensures identity.None? ==> r == Ok(()) && unchanged(s)
    ensures identity.Some? && (forall u :: u in old(s.users) ==> old(s.users)[u].clerkId != identity.value.subject) ==>
              r == Err(CurrentUserNotFound) && unchanged(s)
    ensures forall u :: u in old(s.users) && identity.Some? && old(s.users)[u].clerkId == identity.value.subject ==>
              r == Ok(()) && s.users == old(s.users)[u := old(s.users)[u].(lastSeenAt := now)]
    ensures s.nextId == old(s.nextId)
    ensures s.conversations == old(s.conversations) && s.messages == old(s.messages)
    ensures s.conversationReads == old(s.conversationReads)
    ensures s.reactions == old(s.reactions) && s.typing == old(s.typing)
  {
    if identity.None? {
      return Ok(());
    }
    var me := FindUserByClerkId(s.users, Ids(s.users, s.nextId), identity.value.subject);
    if me.None? {
      return Err(CurrentUserNotFound);
    }
    var id := me.value;
    s.users := s.users[id := s.users[id].(lastSeenAt := now)];
    r := Ok(());
  }

  /** What `getUsers` returns for one user: exactly these six fields. */
  datatype UserView = UserView(
    id: UserId,
    clerkId: string,
    name: string,
    email: string,
    imageUrl: Option<string>,
    lastSeenAt: int)

  function ViewOf(id: UserId, u: User): UserView {
    UserView(id, u.clerkId, u.name, u.email, u.imageUrl, u.lastSeenAt)
  }

  /** `search?.trim().toLowerCase() ?? ""`. */
  function SearchTerm(search: Option<string>): (r: string)
    ensures search.None? ==> r == ""
    ensures search.Some? ==> |r| <= |search.value| && (IsBlank(search.value) ==> r == "")
    ensures forall i :: 0 <= i < |r| ==> !('A' <= r[i] <= 'Z')
  {
    match search
    case None => ""
    case Some(t) => ToLower(Trim(t))
  }

  /** The client-side filter: the lower-cased name or e-mail contains the term. */
  function MatchesTerm(u: User, term: string): (b: bool)
    ensures term == "" ==> b
    ensures b ==> |term| <= |u.name| || |term| <= |u.email|
  {
    assert OccursAt(ToLower(u.name), "", 0);
    Contains(ToLower(u.name), term) || Contains(ToLower(u.email), term)
  }

  /** The projection of the selected users, in the order of `sel`. */
  function Views(users: map<UserId, User>, sel: seq<UserId>): (r: seq<UserView>)
    requires forall i :: 0 <= i < |sel| ==> sel[i] in users
    ensures |r| == |sel|
    ensures forall k :: 0 <= k < |r| ==> r[k] == ViewOf(sel[k], users[sel[k]])
  {
    seq(|sel|, k requires 0 <= k < |sel| => ViewOf(sel[k], users[sel[k]]))
  }

  /** Every user of the scan except the caller (the list branch). */
  function AllExcept(users: map<UserId, User>, ids: seq<UserId>, me: UserId): (r: seq<UserId>)
    ensures forall k :: 0 <= k < |r| ==> r[k] in users && r[k] in ids && r[k] != me
    ensures forall k :: 0 <= k < |ids| && ids[k] in users && ids[k] != me ==> ids[k] in r
  {
    Where(users, ids, (id: UserId, u: User) => id != me)
  }

  /** The users of the candidate list other than the caller that match the term (the search filter). */
  function Matching(users: map<UserId, User>, ids: seq<UserId>, me: UserId, term: string): (r: seq<UserId>)
    ensures forall k :: 0 <= k < |r| ==> r[k] in users && r[k] in ids && r[k] != me && MatchesTerm(users[r[k]], term)
    ensures forall k :: 0 <= k < |ids| && ids[k] in users && ids[k] != me && MatchesTerm(users[ids[k]], term) ==> ids[k] in r
  {
    Where(users, ids, (id: UserId, u: User) => id != me && MatchesTerm(u, term))
  }

  /** The empty term occurs in every string, so the search filter with "" keeps every other user, as the list branch does. */
  lemma {:induction false} EmptyTermMatchesAll(users: map<UserId, User>, ids: seq<UserId>, me: UserId)
    ensures Matching(users, ids, me, "") == AllExcept(users, ids, me)
  {
    if ids != [] {
      EmptyTermMatchesAll(users, ids[1..], me);
      if ids[0] in users {
        assert OccursAt(ToLower(users[ids[0]].name), "", 0);
        assert MatchesTerm(users[ids[0]], "");
        assert Matching(users, ids, me, "") ==
               (if ids[0] != me then [ids[0]] else []) + Matching(users, ids[1..], me, "");
        assert AllExcept(users, ids, me) ==
               (if ids[0] != me then [ids[0]] else []) + AllExcept(users, ids[1..], me);
      }
    }
  }

  /**
   * The candidates of the search branch as the handler reads them: the
   * `by_name` range `name >= term` followed by the `by_email` range
   * `email >= term`. The two index orders are not modelled: each range is
   * taken in creation order.
   */
  function RangeCandidates(users: map<UserId, User>, ids: seq<UserId>, term: string): (r: seq<UserId>)
    ensures forall i :: 0 <= i < |r| ==>
              r[i] in ids && r[i] in users &&
              (LexAtLeast(users[r[i]].name, term) || LexAtLeast(users[r[i]].email, term))
  {
    Where(users, ids, (id: UserId, u: User) => LexAtLeast(u.name, term))
      + Where(users, ids, (id: UserId, u: User) => LexAtLeast(u.email, term))
  }

  /** The search branch as written: range candidates, de-duplicated, then filtered. */
  function SearchAsWritten(users: map<UserId, User>, ids: seq<UserId>, me: UserId, term: string): (r: seq<UserId>)
    ensures forall k :: 0 <= k < |r| ==>
              r[k] in users && r[k] != me && MatchesTerm(users[r[k]], term) &&
              (LexAtLeast(users[r[k]].name, term) || LexAtLeast(users[r[k]].email, term))
  {
    var candidates := RangeCandidates(users, ids, term);
    FirstOccurrencesSpec(candidates);
    var merged := FirstOccurrences(candidates);
    assert forall k :: 0 <= k < |merged| ==> LexAtLeast(users[merged[k]].name, term) || LexAtLeast(users[merged[k]].email, term)
      by {
        forall k | 0 <= k < |merged| ensures LexAtLeast(users[merged[k]].name, term) || LexAtLeast(users[merged[k]].email, term) {
          var j :| 0 <= j < |candidates| && candidates[j] == merged[k];
        }
      }
    Matching(users, merged, me, term)
  }

  /** The search branch with the `seen`-set loop that merges the two ranges. */
  method SearchWithSeenSet(users: map<UserId, User>, ids: seq<UserId>, me: UserId, term: string) returns (r: seq<UserId>)
    ensures r == SearchAsWritten(users, ids, me, term)
    ensures forall k :: 0 <= k < |r| ==> r[k] in users && r[k] != me && MatchesTerm(users[r[k]], term)
  {
    var merged := Dedup(RangeCandidates(users, ids, term));
    r := Matching(users, merged, me, term);
  }

  /**
   * The search as written misses a user whose name contains the term when
   * neither the name nor the e-mail sorts at or after the term: "Bob Smith"
   * with e-mail "bob@x.com" is not found by "smith".
   */
  lemma SearchAsWrittenMissesMatch()
    ensures var bob := User("user_bob", "Bob Smith", "bob@x.com", None, 0, 0);
            var users := map[0 := User("user_me", "Me", "me@x.com", None, 0, 0), 1 := bob];
            && MatchesTerm(bob, "smith")
            && SearchAsWritten(users, [0, 1], 0, "smith") == []
  {
    var bob := User("user_bob", "Bob Smith", "bob@x.com", None, 0, 0);
    var users := map[0 := User("user_me", "Me", "me@x.com", None, 0, 0), 1 := bob];
    assert ToLower("Bob Smith") == "bob smith";
    assert OccursAt("bob smith", "smith", 4);
    assert LexLess("Bob Smith", "smith");
    assert LexLess("bob@x.com", "smith");
    assert LexLess("Me", "smith");
    assert LexLess("me@x.com", "smith");
  }

  /**
   * `getUsers`. No identity throws; a caller without a user record gets null;
   * an empty term lists every other user; otherwise the users whose lower-cased
   * name or e-mail contains the term, over all users (see the search finding).
   */
  function GetUsers(s: Store, identity: Option<Identity>, search: Option<string>): (r: Result<Option<seq<UserView>>, Error>)
    reads s
    ensures identity.None? <==> r == Err(NotAuthenticated)
    ensures identity.Some? ==> r.Ok?
    ensures r.Ok? && r.value.Some? ==>
              forall k :: 0 <= k < |r.value.value| ==>
                var id := r.value.value[k].id;
                && id in s.users && r.value.value[k] == ViewOf(id, s.users[id])
                && MatchesTerm(s.users[id], SearchTerm(search))
    ensures s.Valid() && r.Ok? && r.value.Some? ==>
              forall k :: 0 <= k < |r.value.value| ==> r.value.value[k].clerkId != identity.value.subject
  {
    if identity.None? then Err(NotAuthenticated)
    else
      var ids := Ids(s.users, s.nextId);
      match FindUserByClerkId(s.users, ids, identity.value.subject)
      case None => Ok(None)
      case Some(me) =>
        var term := SearchTerm(search);
        if term == "" then
          EmptyTermMatchesAll(s.users, ids, me);
          Ok(Some(Views(s.users, AllExcept(s.users, ids, me))))
        else Ok(Some(Views(s.users, Matching(s.users, ids, me, term))))
  }

  /** `r` lists, once each and in creation order, exactly the users other than `me` that match `term`. */
  ghost predicate ListsMatches(r: seq<UserView>, users: map<UserId, User>, me: UserId, term: string) {
    && (forall i, j :: 0 <= i < j < |r| ==> r[i].id < r[j].id)
    && (forall k :: 0 <= k < |r| ==> r[k].id in users && r[k] == ViewOf(r[k].id, users[r[k].id]))
    && forall u :: u in users ==>
         ((exists k :: 0 <= k < |r| && r[k].id == u) <==> u != me && MatchesTerm(users[u], term))
  }

  lemma SearchListsMatches(users: map<UserId, User>, ids: seq<UserId>, me: UserId, term: string)
    requires Increasing(ids)
    requires forall u :: u in users ==> u in ids
    ensures ListsMatches(Views(users, Matching(users, ids, me, term)), users, me, term)
  {
    var sel := Matching(users, ids, me, term);
    var r := Views(users, sel);
    forall u | u in users
      ensures (exists k :: 0 <= k < |r| && r[k].id == u) <==> u != me && MatchesTerm(users[u], term)
    {
      if u in sel {
        var k :| 0 <= k < |sel| && sel[k] == u;
        assert r[k].id == u;
      }
    }
  }

  /**
   * What `getUsers` promises: the caller never appears; every result is a
   * user whose lower-cased name or e-mail contains the term; every such user
   * appears, once, in creation order.
   */
  lemma GetUsersSpec(s: Store, identity: Option<Identity>, search: Option<string>)
    requires s.Valid()
    ensures identity.None? <==> GetUsers(s, identity, search) == Err(NotAuthenticated)
    ensures identity.Some? ==> GetUsers(s, identity, search).Ok?
    ensures identity.Some? ==>
              (GetUsers(s, identity, search) == Ok(None) <==>
               forall u :: u in s.users ==> s.users[u].clerkId != identity.value.subject)
    ensures GetUsers(s, identity, search).Ok? && GetUsers(s, identity, search).value.Some? ==>
              exists me :: me in s.users && s.users[me].clerkId == identity.value.subject &&
                ListsMatches(GetUsers(s, identity, search).value.value, s.users, me, SearchTerm(search))
  {
    if identity.Some? {
      var ids := Ids(s.users, s.nextId);
      var found := FindUserByClerkId(s.users, ids, identity.value.subject);
      if found.Some? {
        var me := found.value;
        var term := SearchTerm(search);
        if term == "" {
          EmptyTermMatchesAll(s.users, ids, me);
        }
        SearchListsMatches(s.users, ids, me, term);
      }
    }
  }
}
