/**
 * The client's typing indicator: of the records `getTypingStatus` returns,
 * only those stamped less than three seconds ago count, and their names
 * become one line of text. The component keeps the clock `now` as state
 * that a one-second timer advances.
 */
module TypingIndicator {
  import opened Wrappers
  import opened Text
  import opened Schema
  import opened Store
  import opened TypingStatus

  /** A typing record older than this many milliseconds is stale. */
  const StaleAfter: int := 3000

  predicate Active(v: TypingView, now: int) {
    now - v.updatedAt < StaleAfter
  }

  /** The positions of the active records of `vs`, in order: the reference for the filter. */
  function ActivePositions(vs: seq<TypingView>, now: int): (r: seq<nat>)
    ensures forall i :: 0 <= i < |r| ==> r[i] < |vs| && Active(vs[r[i]], now)
    ensures forall k :: 0 <= k < |vs| && Active(vs[k], now) ==> k in r
    ensures forall i, j :: 0 <= i < j < |r| ==> r[i] < r[j]
  {
    if vs == [] then []
    else
      var rest := ActivePositions(vs[..|vs| - 1], now);
      if Active(vs[|vs| - 1], now) then rest + [|vs| - 1] else rest
  }

  /** `activeTypers`: the names on the fresh records, in query order; nothing while the status is missing. */
  function ActiveTypers(status: Option<seq<TypingView>>, now: int): (r: seq<string>)
    ensures status.None? ==> r == []
    ensures status.Some? ==>
              var at := ActivePositions(status.value, now);
              |r| == |at| && forall i :: 0 <= i < |r| ==> r[i] == status.value[at[i]].name
  {
    if status.None? then [] else FreshNames(status.value, now)
  }

  /** `status.filter(u => now - u.updatedAt < 3000).map(u => u.name)`. */
  function FreshNames(vs: seq<TypingView>, now: int): (r: seq<string>)
    ensures var at := ActivePositions(vs, now);
            |r| == |at| && forall i :: 0 <= i < |r| ==> r[i] == vs[at[i]].name
  {
    if vs == [] then []
    else
      var rest := FreshNames(vs[..|vs| - 1], now);
      var p := ActivePositions(vs[..|vs| - 1], now);
      assert forall i :: 0 <= i < |p| ==> vs[..|vs| - 1][p[i]] == vs[p[i]];
      if Active(vs[|vs| - 1], now) then rest + [vs[|vs| - 1].name] else rest
  }

  /**
   * The line under the messages: none without typers; one name; two names;
   * or the first name and how many others.
   */
  function TypingText(typers: seq<string>): (r: Option<string>)
    ensures r.None? <==> typers == []
    ensures r.Some? ==> IsPrefix(typers[0], r.value)
  {
    if |typers| == 0 then None
    else if |typers| == 1 then Some(typers[0] + " is typing...")
    else if |typers| == 2 then Some(typers[0] + " and " + typers[1] + " are typing...")
    else Some(typers[0] + " and " + Decimal(|typers| - 1) + " others are typing...")
  }

  /**
   * The text accounts for everyone typing: up to two typers are all named;
   * with more, the first is named and the number of the others is given.
   */
  lemma TypingTextAccountsForAll(typers: seq<string>)
    requires typers != []
    ensures var t := TypingText(typers).value;
            && Contains(t, typers[0])
            && (|typers| == 2 ==> Contains(t, typers[1]))
            && (|typers| > 2 ==> Contains(t, Decimal(|typers| - 1)))
  {
    var t := TypingText(typers).value;
    if |typers| == 1 {
      OccursInMiddle([], typers[0], " is typing...");
    } else if |typers| == 2 {
      OccursInMiddle([], typers[0], " and " + typers[1] + " are typing...");
      assert t == typers[0] + " and " + typers[1] + " are typing...";
      OccursInMiddle(typers[0] + " and ", typers[1], " are typing...");
    } else {
      OccursInMiddle([], typers[0], " and " + Decimal(|typers| - 1) + " others are typing...");
      assert t == typers[0] + " and " + Decimal(|typers| - 1) + " others are typing...";
      OccursInMiddle(typers[0] + " and ", Decimal(|typers| - 1), " others are typing...");
    }
  }

  /** A later clock never brings a record back: every record active later was active earlier. */
  lemma StaleStaysStale(vs: seq<TypingView>, now1: int, now2: int)
    requires now1 <= now2
    ensures forall k :: k in ActivePositions(vs, now2) ==> k in ActivePositions(vs, now1)
  {
    forall k | k in ActivePositions(vs, now2) ensures k in ActivePositions(vs, now1) {
      var i :| 0 <= i < |ActivePositions(vs, now2)| && ActivePositions(vs, now2)[i] == k;
    }
  }

  /**
   * The indicator's state: the latest query result and the clock the timer
   * advances once a second.
   */
  class Indicator {
    var status: Option<seq<TypingView>>
    var now: int

    constructor (status: Option<seq<TypingView>>, now: int)
      ensures this.status == status && this.now == now
    {
      this.status := status;
      this.now := now;
    }

    /** The names shown now. */
    function Typers(): seq<string>
      reads this
    {
      ActiveTypers(status, now)
    }

    /** What the component renders: nothing, or the line of text. */
    function Text(): (r: Option<string>)
      reads this
      ensures r.None? <==> Typers() == []
    {
      TypingText(Typers())
    }

    /** The timer fires: `setNow(Date.now())`. A clock that moves forward only drops typers. */
    method Tick(t: int)
      modifies this
      ensures now == t && status == old(status)
      ensures status.Some? && t >= old(now) ==>
                forall k :: k in ActivePositions(status.value, now) ==> k in ActivePositions(status.value, old(now))
    {
      if status.Some? && t >= now {
        StaleStaysStale(status.value, now, t);
      }
      now := t;
    }

    /** The subscription delivers a new query result. */
    method Receive(st: Option<seq<TypingView>>)
      modifies this
      ensures status == st && now == old(now)
    {
      status := st;
    }
  }

  /**
   * End to end: once `setTyping` has stamped member `u`'s record in `cid`
   * with `t`, another member who queries `getTypingStatus` and renders
   * within three seconds of `t` sees `u`'s name.
   */
  lemma TyperIsShown(s: Store, identity: Option<Identity>, cid: ConversationId, u: UserId, t: int, now: int)
    requires s.Valid()
    requires identity.Some? && Lookup(s, identity.value.subject).Some?
    requires cid in s.conversations && Lookup(s, identity.value.subject).value in s.conversations[cid].members
    requires u != Lookup(s, identity.value.subject).value && u in s.users
    requires TypingSince(s.typing, s.nextId, u, cid) == Some(t) && now - t < StaleAfter
    ensures s.users[u].name in ActiveTypers(GetTypingStatus(s, identity, cid).value, now)
  {
    GetTypingStatusSpec(s, identity, cid);
    var me := Lookup(s, identity.value.subject).value;
    var recs := TypingRecords(s, me, cid);
    var vs := GetTypingStatus(s, identity, cid).value.value;
    assert ShowsTyper(s, recs, u, t);
    var k :| 0 <= k < |recs| && recs[k] in s.typing && s.typing[recs[k]].userId == u && s.typing[recs[k]].updatedAt == t;
    assert vs[k] == ViewOfTyping(s.users, s.typing[recs[k]]);
    assert Active(vs[k], now) && vs[k].name == s.users[u].name;
    var at := ActivePositions(vs, now);
    var i :| 0 <= i < |at| && at[i] == k;
    assert ActiveTypers(Some(vs), now)[i] == s.users[u].name;
  }
}
