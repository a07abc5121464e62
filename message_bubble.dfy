/**
 * What one message bubble shows: the text (or the deletion notice), whether
 * the action menu can be opened, and one pill per reaction type.
 */
module MessageBubble {
  import opened Wrappers
  import opened Schema
  import opened Store
  import opened Seqs
  import opened Messages
  import opened Reactions

  // ---- groupReactions ----

  /** One pill's worth of reactions: the emoji and its reactors. */
  datatype ReactionGroup = ReactionGroup(emoji: Emoji, reactors: seq<ReactionView>)

  function Types(rs: seq<ReactionView>): (r: seq<Emoji>)
    ensures |r| == |rs| && forall i :: 0 <= i < |rs| ==> r[i] == rs[i].emoji
  {
    if rs == [] then [] else Types(rs[..|rs| - 1]) + [rs[|rs| - 1].emoji]
  }

  /** The reactions of type `e`, in input order. */
  function OfType(rs: seq<ReactionView>, e: Emoji): (r: seq<ReactionView>)
    ensures forall i :: 0 <= i < |r| ==> r[i].emoji == e && r[i] in rs
    ensures forall i :: 0 <= i < |rs| && rs[i].emoji == e ==> rs[i] in r
    ensures |r| <= |rs|
  {
    if rs == [] then []
    else
      var rest := OfType(rs[..|rs| - 1], e);
      assert forall i :: 0 <= i < |rs| - 1 ==> rs[..|rs| - 1][i] == rs[i];
      if rs[|rs| - 1].emoji == e then rest + [rs[|rs| - 1]] else rest
  }

  /** One group per key, holding that key's reactions. */
  function GroupsFor(keys: seq<Emoji>, rs: seq<ReactionView>): (r: seq<ReactionGroup>)
    ensures |r| == |keys|
    ensures forall g :: 0 <= g < |r| ==> r[g] == ReactionGroup(keys[g], OfType(rs, keys[g]))
  {
    if keys == [] then [] else [ReactionGroup(keys[0], OfType(rs, keys[0]))] + GroupsFor(keys[1..], rs)
  }

  /** The reference grouping: one group per distinct type, in order of first appearance. */
  function Grouping(rs: seq<ReactionView>): seq<ReactionGroup> {
    GroupsFor(FirstOccurrences(Types(rs)), rs)
  }

  /** `Object.entries(map)`: the groups in the order their keys were first added. */
  function Entries(keys: seq<Emoji>, byType: map<Emoji, seq<ReactionView>>): (r: seq<ReactionGroup>)
    requires forall i :: 0 <= i < |keys| ==> keys[i] in byType
    ensures |r| == |keys| && forall g :: 0 <= g < |r| ==> r[g] == ReactionGroup(keys[g], byType[keys[g]])
  {
    seq(|keys|, g requires 0 <= g < |keys| => ReactionGroup(keys[g], byType[keys[g]]))
  }

  /**
   * `groupReactions`: one pass that creates a type's list the first time the
   * type is seen and appends each reaction to its type's list.
   */
  method GroupReactions(rs: seq<ReactionView>) returns (groups: seq<ReactionGroup>)
    ensures groups == Grouping(rs)
  {
    var keys: seq<Emoji> := [];
    var byType: map<Emoji, seq<ReactionView>> := map[];
    for i := 0 to |rs|
      invariant keys == FirstOccurrences(Types(rs[..i]))
      invariant forall e :: e in byType <==> e in keys
      invariant forall e :: e in byType ==> byType[e] == OfType(rs[..i], e)
    {
      var e := rs[i].emoji;
      AppendToGroups(rs, i, keys, byType);
      var list := if e in byType then byType[e] else [];
      if e !in byType {
        keys := keys + [e];
      }
      byType := byType[e := list + [rs[i]]];
    }
    assert rs[..|rs|] == rs;
    groups := Entries(keys, byType);
  }

  lemma TypesSnoc(rs: seq<ReactionView>, x: ReactionView)
    ensures Types(rs + [x]) == Types(rs) + [x.emoji]
  {
    assert (rs + [x])[..|rs + [x]| - 1] == rs;
  }

  /** Appending a reaction appends it to the list of its own type and to no other. */
  lemma OfTypeSnoc(rs: seq<ReactionView>, x: ReactionView, e: Emoji)
    ensures OfType(rs + [x], e) == OfType(rs, e) + (if x.emoji == e then [x] else [])
  {
    assert (rs + [x])[..|rs + [x]| - 1] == rs;
  }

  /** One step of the grouping loop: how keys and lists of the first `i` reactions extend to `i + 1`. */
  lemma AppendToGroups(rs: seq<ReactionView>, i: nat, keys: seq<Emoji>, byType: map<Emoji, seq<ReactionView>>)
    requires i < |rs|
    requires keys == FirstOccurrences(Types(rs[..i]))
    requires forall e :: e in byType <==> e in keys
    requires forall e :: e in byType ==> byType[e] == OfType(rs[..i], e)
    ensures var e := rs[i].emoji;
            var keys2 := if e in byType then keys else keys + [e];
            var byType2 := byType[e := (if e in byType then byType[e] else []) + [rs[i]]];
            && keys2 == FirstOccurrences(Types(rs[..i + 1]))
            && (forall e' :: e' in byType2 <==> e' in keys2)
            && (forall e' :: e' in byType2 ==> byType2[e'] == OfType(rs[..i + 1], e'))
  {
    var e := rs[i].emoji;
    GroupStep(rs, i, keys, byType);
    var keys2 := if e in byType then keys else keys + [e];
    var byType2 := byType[e := (if e in byType then byType[e] else []) + [rs[i]]];
    forall e' ensures e' in byType2 <==> e' in keys2 {
      assert e' in keys2 <==> e' in keys || e' == e;
    }
    forall e' | e' in byType2 ensures byType2[e'] == OfType(rs[..i + 1], e') {
      if e' != e {
        assert byType2[e'] == byType[e'];
      }
    }
  }

  /** The lists of the first `i + 1` reactions in terms of those of the first `i`. */
  lemma GroupStep(rs: seq<ReactionView>, i: nat, keys: seq<Emoji>, byType: map<Emoji, seq<ReactionView>>)
    requires i < |rs|
    requires keys == FirstOccurrences(Types(rs[..i]))
    requires forall e :: e in byType <==> e in keys
    requires forall e :: e in byType ==> byType[e] == OfType(rs[..i], e)
    ensures var e := rs[i].emoji;
            && FirstOccurrences(Types(rs[..i + 1])) == (if e in byType then keys else keys + [e])
            && OfType(rs[..i + 1], e) == (if e in byType then byType[e] else []) + [rs[i]]
            && forall e' :: e' != e ==> OfType(rs[..i + 1], e') == OfType(rs[..i], e')
  {
    var e := rs[i].emoji;
    assert rs[..i + 1] == rs[..i] + [rs[i]];
    TypesSnoc(rs[..i], rs[i]);
    FirstOccurrencesSnoc(Types(rs[..i]), e);
    OfTypeSnoc(rs[..i], rs[i], e);
    if e !in byType {
      FirstOccurrencesSpec(Types(rs[..i]));
      forall j | 0 <= j < i ensures rs[..i][j].emoji != e {
        assert Types(rs[..i])[j] in keys;
      }
      NoneOfType(rs[..i], e);
    }
    forall e' | e' != e ensures OfType(rs[..i + 1], e') == OfType(rs[..i], e') {
      OfTypeSnoc(rs[..i], rs[i], e');
    }
  }

  /** The number of reactions in the groups of `keys`. */
  function SumCounts(keys: seq<Emoji>, rs: seq<ReactionView>): nat {
    if keys == [] then 0 else |OfType(rs, keys[0])| + SumCounts(keys[1..], rs)
  }

  function Total(groups: seq<ReactionGroup>): nat {
    if groups == [] then 0 else |groups[0].reactors| + Total(groups[1..])
  }

  /** The groups have distinct keys, ordered by where each type first appears. */
  lemma GroupingKeys(rs: seq<ReactionView>)
    ensures var gs := Grouping(rs);
            && (forall g :: 0 <= g < |gs| ==> gs[g].emoji in Types(rs))
            && (forall g, h :: 0 <= g < h < |gs| ==> gs[g].emoji != gs[h].emoji)
            && (forall g, h :: 0 <= g < h < |gs| ==> FirstIndex(Types(rs), gs[g].emoji) < FirstIndex(Types(rs), gs[h].emoji))
  {
    FirstOccurrencesSpec(Types(rs));
  }

  /** Each group holds exactly the reactions of its type, in input order, and at least one. */
  lemma GroupingContents(rs: seq<ReactionView>)
    ensures var gs := Grouping(rs);
            forall g :: 0 <= g < |gs| ==> gs[g].reactors != [] && gs[g].reactors == OfType(rs, gs[g].emoji)
  {
    var types := Types(rs);
    var keys := FirstOccurrences(types);
    var gs := Grouping(rs);
    forall g | 0 <= g < |gs| ensures gs[g].reactors != [] {
      assert keys[g] in types by {
        FirstOccurrencesSpec(types);
      }
      var j :| 0 <= j < |types| && types[j] == keys[g];
      assert rs[j].emoji == keys[g];
      assert rs[j] in OfType(rs, keys[g]);
    }
  }

  /** Every reaction lies in the group of its type. */
  lemma GroupingCovers(rs: seq<ReactionView>)
    ensures var gs := Grouping(rs);
            forall i :: 0 <= i < |rs| ==> exists g :: 0 <= g < |gs| && gs[g].emoji == rs[i].emoji && rs[i] in gs[g].reactors
  {
    var keys := FirstOccurrences(Types(rs));
    var gs := Grouping(rs);
    FirstOccurrencesSpec(Types(rs));
    forall i | 0 <= i < |rs| ensures exists g :: 0 <= g < |gs| && gs[g].emoji == rs[i].emoji && rs[i] in gs[g].reactors {
      assert Types(rs)[i] in keys;
      var g :| 0 <= g < |keys| && keys[g] == rs[i].emoji;
      assert gs[g].emoji == rs[i].emoji && rs[i] in gs[g].reactors;
    }
  }

  /** The group sizes add up to the number of reactions: nothing is lost or counted twice. */
  lemma GroupingTotal(rs: seq<ReactionView>)
    ensures Total(Grouping(rs)) == |rs|
  {
    TotalIsSum(FirstOccurrences(Types(rs)), rs);
    SumCountsAll(rs);
  }

  lemma {:induction false} TotalIsSum(keys: seq<Emoji>, rs: seq<ReactionView>)
    ensures Total(GroupsFor(keys, rs)) == SumCounts(keys, rs)
  {
    if keys != [] {
      TotalIsSum(keys[1..], rs);
      assert GroupsFor(keys, rs)[1..] == GroupsFor(keys[1..], rs);
    }
  }

  /** Counting by first-appearance keys counts every reaction once. */
  lemma {:induction false} SumCountsAll(rs: seq<ReactionView>)
    ensures SumCounts(FirstOccurrences(Types(rs)), rs) == |rs|
  {
    if rs != [] {
      var p := rs[..|rs| - 1];
      var x := rs[|rs| - 1];
      assert rs == p + [x];
      var keys := FirstOccurrences(Types(p));
      SumCountsAll(p);
      TypesSnoc(p, x);
      FirstOccurrencesSnoc(Types(p), x.emoji);
      FirstOccurrencesSpec(Types(p));
      SumCountsAppend(keys, p, x);
      if x.emoji !in keys {
        SumCountsExtend(keys, x.emoji, rs);
        forall i | 0 <= i < |p| ensures p[i].emoji != x.emoji {
          assert Types(p)[i] in keys;
        }
        NoneOfType(p, x.emoji);
        OfTypeSnoc(p, x, x.emoji);
      }
    }
  }

  /** Appending one reaction adds one to the count exactly when its type is a key. */
  lemma {:induction false} SumCountsAppend(keys: seq<Emoji>, rs: seq<ReactionView>, x: ReactionView)
    requires NoDuplicates(keys)
    ensures SumCounts(keys, rs + [x]) == SumCounts(keys, rs) + (if x.emoji in keys then 1 else 0)
  {
    if keys != [] {
      SumCountsAppend(keys[1..], rs, x);
      OfTypeSnoc(rs, x, keys[0]);
      assert x.emoji in keys[1..] ==> x.emoji != keys[0];
      assert x.emoji in keys <==> x.emoji == keys[0] || x.emoji in keys[1..];
    }
  }

  lemma {:induction false} SumCountsExtend(keys: seq<Emoji>, e: Emoji, rs: seq<ReactionView>)
    ensures SumCounts(keys + [e], rs) == SumCounts(keys, rs) + |OfType(rs, e)|
  {
    if keys != [] {
      SumCountsExtend(keys[1..], e, rs);
      assert (keys + [e])[1..] == keys[1..] + [e];
    } else {
      assert ([] + [e])[1..] == [];
    }
  }

  lemma {:induction false} NoneOfType(rs: seq<ReactionView>, e: Emoji)
    requires forall i :: 0 <= i < |rs| ==> rs[i].emoji != e
    ensures OfType(rs, e) == []
  {
    if rs != [] {
      NoneOfType(rs[..|rs| - 1], e);
    }
  }

  // ---- display rules ----

  const DeletedText: string := "This message was deleted"

  /** The bubble's text: the deletion notice for a deleted message, otherwise the content (nothing for a null content). */
  function BubbleText(m: MessageView): (r: string)
    ensures m.isDeleted ==> r == DeletedText
    ensures !m.isDeleted && m.content.Some? ==> r == m.content.value
  {
    if m.isDeleted then DeletedText else m.content.GetOr("")
  }

  /** The action-menu trigger is offered only on a message that is not deleted. */
  function ShowActionTrigger(m: MessageView): (b: bool)
    ensures !b ==> BubbleText(m) == DeletedText
    ensures b && m.content.Some? ==> BubbleText(m) == m.content.value
  {
    !m.isDeleted
  }

  /**
   * A bubble built from what `getMessages` returns shows the stored content
   * of a live message and the notice for a deleted one, and offers the
   * action menu exactly on live messages.
   */
  lemma BubbleOfStoredMessage(users: map<UserId, User>, me: UserId, id: MessageId, msg: Message)
    ensures var v := ViewOfMessage(users, me, id, msg);
            && BubbleText(v) == (if msg.isDeleted then DeletedText else msg.content)
            && (ShowActionTrigger(v) <==> !msg.isDeleted)
  {
  }

  /** One reaction pill: the emoji, the count (shown for more than one reactor), and the highlight. */
  datatype Pill = Pill(emoji: Emoji, count: Option<nat>, highlighted: bool)

  function PillOf(g: ReactionGroup): (p: Pill)
    ensures p.emoji == g.emoji
    ensures p.count.Some? <==> |g.reactors| > 1
    ensures p.count.Some? ==> p.count.value == |g.reactors|
    ensures p.highlighted <==> exists i :: 0 <= i < |g.reactors| && g.reactors[i].isMine
  {
    Pill(g.emoji, if |g.reactors| > 1 then Some(|g.reactors|) else None, AnyMine(g.reactors))
  }

  /** `reactors.some(r => r.isMine)`. */
  function AnyMine(rs: seq<ReactionView>): (r: bool)
    ensures r <==> exists i :: 0 <= i < |rs| && rs[i].isMine
  {
    if rs == [] then false
    else
      assert forall i :: 1 <= i < |rs| ==> rs[1..][i - 1] == rs[i];
      rs[0].isMine || AnyMine(rs[1..])
  }

  /**
   * End to end: for the reactions `getReactionsByConversation` returns for a
   * message, the pill of emoji `e` is highlighted exactly when the caller's
   * own reaction to the message is `e`.
   */
  lemma HighlightIsOwnReaction(s: Store, me: UserId, mid: MessageId, e: Emoji)
    requires s.Valid()
    ensures PillOf(ReactionGroup(e, OfType(ReactionViews(s, me, mid), e))).highlighted <==>
            ReactionOf(s.reactions, s.nextId, me, mid) == Some(e)
  {
    ReactionViewsSpec(s, me, mid);
    var vs := ReactionViews(s, me, mid);
    if AnyMine(OfType(vs, e)) {
      MineIsOwn(s, me, mid, e, vs);
    }
    if ReactionOf(s.reactions, s.nextId, me, mid) == Some(e) {
      OwnIsMine(s, me, mid, e, vs);
    }
  }

  /** A reactor marked as the caller in the pill of `e` is the caller's own row, with emoji `e`. */
  lemma MineIsOwn(s: Store, me: UserId, mid: MessageId, e: Emoji, vs: seq<ReactionView>)
    requires s.Valid()
    requires forall k :: 0 <= k < |vs| ==>
               vs[k].reactionId in s.reactions && s.reactions[vs[k].reactionId].messageId == mid &&
               vs[k] == ViewOfReaction(s.users, me, vs[k].reactionId, s.reactions[vs[k].reactionId])
    requires AnyMine(OfType(vs, e))
    ensures ReactionOf(s.reactions, s.nextId, me, mid) == Some(e)
  {
    var grp := OfType(vs, e);
    var i :| 0 <= i < |grp| && grp[i].isMine;
    var j :| 0 <= j < |vs| && vs[j] == grp[i];
    var k := vs[j].reactionId;
    assert s.reactions[k].userId == me && s.reactions[k].emoji == e;
  }

  /** The caller's own reaction `e` shows among the reactors of the pill of `e`, marked as the caller's. */
  lemma OwnIsMine(s: Store, me: UserId, mid: MessageId, e: Emoji, vs: seq<ReactionView>)
    requires s.Valid()
    requires forall k :: 0 <= k < |vs| ==>
               vs[k].reactionId in s.reactions &&
               vs[k] == ViewOfReaction(s.users, me, vs[k].reactionId, s.reactions[vs[k].reactionId])
    requires forall id :: id in s.reactions && s.reactions[id].messageId == mid ==> Lists(vs, id)
    requires ReactionOf(s.reactions, s.nextId, me, mid) == Some(e)
    ensures AnyMine(OfType(vs, e))
  {
    var k := FindReaction(s.reactions, s.nextId, me, mid).value;
    assert Lists(vs, k);
    var j :| 0 <= j < |vs| && vs[j].reactionId == k;
    assert vs[j].isMine && vs[j].emoji == e;
    var grp := OfType(vs, e);
    assert vs[j] in grp;
    var i :| 0 <= i < |grp| && grp[i] == vs[j];
  }
}
