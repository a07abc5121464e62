/**
 * The presence helpers the client shows next to a user: initials, the
 * online dot, the avatar colour and the relative "last seen" label. The
 * clock is a parameter `now`.
 */
module UserHelpers {
  import opened Wrappers
  import opened Text

  // ---- getInitials ----

  /** `w[0]` as it joins into a string: the first character, or nothing for an empty word. */
  function Head(w: string): (r: string)
    ensures w != [] ==> r == [w[0]]
    ensures w == [] ==> r == []
  {
    if w == [] then [] else [w[0]]
  }

  /** `words.map(w => w[0]).join("")`. */
  function Heads(words: seq<string>): (r: string)
    ensures |r| <= |words|
    ensures (forall k :: 0 <= k < |words| ==> words[k] != []) ==>
              |r| == |words| && forall k :: 0 <= k < |words| ==> r[k] == words[k][0]
  {
    if words == [] then [] else Head(words[0]) + Heads(words[1..])
  }

  /**
   * `getInitials`: the upper-cased first characters of the first two
   * space-separated pieces of the name. An empty piece (a leading or double
   * space) still takes one of the two places but adds no character.
   */
  function GetInitials(name: string): (r: string)
    ensures |r| <= 2
    ensures forall i :: 0 <= i < |r| ==> !('a' <= r[i] <= 'z')
    ensures forall i :: 0 <= i < |r| ==> exists j :: 0 <= j < |name| && r[i] == UpperChar(name[j])
  {
    var words := Split(name, ' ');
    var firstTwo := words[..if |words| < 2 then |words| else 2];
    var r := ToUpper(Heads(firstTwo));
    assert forall i :: 0 <= i < |r| ==> exists j :: 0 <= j < |name| && r[i] == UpperChar(name[j]) by {
      forall i | 0 <= i < |r| ensures exists j :: 0 <= j < |name| && r[i] == UpperChar(name[j]) {
        HeadsFromName(name, firstTwo, i);
      }
    }
    r
  }

  /** Every character of the heads of the first pieces of `name` is a character of `name`. */
  lemma HeadsFromName(name: string, firstTwo: seq<string>, i: nat)
    requires firstTwo == Split(name, ' ')[..if |Split(name, ' ')| < 2 then |Split(name, ' ')| else 2]
    requires i < |Heads(firstTwo)|
    ensures Heads(firstTwo)[i] in name
  {
    JoinSplit(name, ' ');
    var words := Split(name, ' ');
    HeadsIn(words, |firstTwo|, i);
    assert words[..|firstTwo|] == firstTwo;
  }

  /** A character of the heads of a prefix of the pieces occurs in their join. */
  lemma {:induction false} HeadsIn(words: seq<string>, n: nat, i: nat)
    requires 1 <= n <= |words| && i < |Heads(words[..n])|
    ensures Heads(words[..n])[i] in Join(words, ' ')
  {
    assert words[..n][0] == words[0];
    assert words[..n][1..] == words[1..][..n - 1];
    var h := Head(words[0]);
    if i < |h| {
      assert Heads(words[..n])[i] == words[0][0];
      if |words| == 1 {
        assert Join(words, ' ') == words[0];
      } else {
        assert Join(words, ' ') == words[0] + [' '] + Join(words[1..], ' ');
      }
    } else {
      assert Heads(words[..n])[i] == Heads(words[1..][..n - 1])[i - |h|];
      HeadsIn(words[1..], n - 1, i - |h|);
      assert Join(words, ' ') == words[0] + [' '] + Join(words[1..], ' ');
    }
  }

  /**
   * For a name made of non-empty words separated by single spaces, the
   * initials are the upper-cased first letters of the first two words.
   */
  lemma InitialsOfWords(words: seq<string>)
    requires |words| >= 1
    requires forall k :: 0 <= k < |words| ==> words[k] != [] && ' ' !in words[k]
    ensures var r := GetInitials(Join(words, ' '));
            && |r| == (if |words| == 1 then 1 else 2)
            && forall i :: 0 <= i < |r| ==> r[i] == UpperChar(words[i][0])
  {
    SplitJoin(words, ' ');
  }

  // ---- isOnline ----

  /** How recent a heartbeat must be for the user to count as online, in milliseconds. */
  const OnlineWindow: int := 30000

  /** `isOnline`: a missing or zero timestamp is offline; otherwise online while the heartbeat is under 30 s old. */
  function IsOnline(lastSeenAt: Option<int>, now: int): (r: bool)
    ensures lastSeenAt.None? || lastSeenAt == Some(0) ==> !r
    ensures lastSeenAt.Some? && lastSeenAt.value != 0 ==> (r <==> lastSeenAt.value > now - OnlineWindow)
  {
    lastSeenAt.Some? && lastSeenAt.value != 0 && now - lastSeenAt.value < OnlineWindow
  }

  /**
   * Presence only fades as the clock runs: online at a later time means
   * online at every earlier time, and a newer heartbeat is never less online.
   */
  lemma OnlineFades(t: Option<int>, t2: int, now1: int, now2: int)
    requires now1 <= now2
    ensures IsOnline(t, now2) ==> IsOnline(t, now1)
    ensures t.Some? && t.value != 0 && t2 != 0 && t.value <= t2 && IsOnline(t, now1) ==> IsOnline(Some(t2), now1)
  {
  }

  // ---- avatarGradient ----

  /** The five-entry palette of avatar gradients. */
  const AvatarGradients: seq<string> := [
    "from-violet-500 to-indigo-600",
    "from-fuchsia-500 to-pink-600",
    "from-cyan-500 to-blue-600",
    "from-emerald-500 to-teal-600",
    "from-orange-500 to-amber-600"
  ]

  /**
   * `avatarGradient`: the palette entry chosen by the first character's code
   * modulo 5. An empty name has no first character, and the lookup yields
   * nothing (`None`).
   */
  function AvatarGradient(name: string): (r: Option<string>)
    ensures r.None? <==> name == []
    ensures r.Some? ==> r.value in AvatarGradients && r.value == AvatarGradients[name[0] as int % 5]
  {
    if name == [] then None else Some(AvatarGradients[name[0] as int % |AvatarGradients|])
  }

  /** The gradient depends only on the first character; the five palette entries are distinct. */
  lemma GradientByFirstChar(a: string, b: string)
    ensures a != [] && b != [] && a[0] == b[0] ==> AvatarGradient(a) == AvatarGradient(b)
    ensures a != [] && b != [] ==> (AvatarGradient(a) == AvatarGradient(b) <==> a[0] as int % 5 == b[0] as int % 5)
  {
  }

  // ---- formatLastSeen ----

  /** The label `formatLastSeen` chooses; `OnDate` is the locale date, which is not rendered here. */
  datatype LastSeen = NeverOnline | JustNow | MinutesAgo(minutes: nat) | HoursAgo(hours: nat) | OnDate(ts: int)

  const Minute: int := 60000
  const Hour: int := 3600000
  const Day: int := 86400000

  /**
   * The branch `formatLastSeen` takes for the timestamp `ts` at `now`: a
   * missing or zero timestamp has never been online; under a minute is
   * "just now"; then whole minutes, then whole hours; a day or more is a date.
   */
  function LastSeenOf(ts: Option<int>, now: int): (r: LastSeen)
    ensures r.NeverOnline? <==> ts.None? || ts == Some(0)
    ensures r.JustNow? ==> now - ts.value < Minute
    ensures r.MinutesAgo? ==> 1 <= r.minutes < 60 && r.minutes * Minute <= now - ts.value < (r.minutes + 1) * Minute
    ensures r.HoursAgo? ==> 1 <= r.hours < 24 && r.hours * Hour <= now - ts.value < (r.hours + 1) * Hour
    ensures r.OnDate? ==> r.ts == ts.value && now - ts.value >= Day
  {
    if ts.None? || ts.value == 0 then NeverOnline
    else
      var diff := now - ts.value;
      if diff < Minute then JustNow
      else if diff < Hour then MinutesAgo(diff / Minute)
      else if diff < Day then HoursAgo(diff / Hour)
      else OnDate(ts.value)
  }

  /** The text of a label; none for the locale-formatted date. */
  function LastSeenText(l: LastSeen): (r: Option<string>)
    ensures r.None? <==> l.OnDate?
  {
    match l
    case NeverOnline => Some("Never online")
    case JustNow => Some("Just now")
    case MinutesAgo(m) => Some(Decimal(m) + "m ago")
    case HoursAgo(h) => Some(Decimal(h) + "h ago")
    case OnDate(_) => None
  }

  /** `formatLastSeen` without its locale-date branch. */
  function FormatLastSeen(ts: Option<int>, now: int): (r: Option<string>)
    ensures r.None? <==> ts.Some? && ts.value != 0 && now - ts.value >= Day
  {
    LastSeenText(LastSeenOf(ts, now))
  }

  /** Different labels read differently: the text of a label gives the label back. */
  lemma {:induction false} LastSeenTextInjective(a: LastSeen, b: LastSeen)
    requires LastSeenText(a).Some? && LastSeenText(a) == LastSeenText(b)
    ensures a == b
  {
    var t := LastSeenText(a).value;
    if a.MinutesAgo? {
      DigitsBefore(t, a.minutes, 'm');
    }
    if a.HoursAgo? {
      DigitsBefore(t, a.hours, 'h');
    }
    if b.MinutesAgo? {
      DigitsBefore(t, b.minutes, 'm');
    }
    if b.HoursAgo? {
      DigitsBefore(t, b.hours, 'h');
    }
  }

  /** In `${n}u ago` the unit letter sits five from the end and the digits before it read back as `n`. */
  lemma DigitsBefore(t: string, n: nat, u: char)
    requires t == Decimal(n) + [u] + " ago"
    ensures |t| >= 6 && t[|t| - 5] == u
    ensures forall i :: 0 <= i < |t| - 5 ==> '0' <= t[i] <= '9'
    ensures DecimalValue(t[..|t| - 5]) == n
  {
    assert t[..|t| - 5] == Decimal(n);
    DecimalRoundTrip(n);
  }

  /** Labels only move forward as the clock runs: never, just now, minutes, hours, date. */
  function Stage(l: LastSeen): nat {
    match l
    case NeverOnline => 0
    case JustNow => 1
    case MinutesAgo(_) => 2
    case HoursAgo(_) => 3
    case OnDate(_) => 4
  }

  /**
   * For a fixed timestamp, a later clock never gives an earlier stage, and
   * within the minutes or hours stage the count never goes down.
   */
  lemma LastSeenAdvances(ts: Option<int>, now1: int, now2: int)
    requires now1 <= now2
    ensures var a := LastSeenOf(ts, now1);
            var b := LastSeenOf(ts, now2);
            && (a.NeverOnline? <==> b.NeverOnline?)
            && Stage(a) <= Stage(b)
            && (a.MinutesAgo? && b.MinutesAgo? ==> a.minutes <= b.minutes)
            && (a.HoursAgo? && b.HoursAgo? ==> a.hours <= b.hours)
  {
    if ts.Some? && ts.value != 0 {
      var d1 := now1 - ts.value;
      var d2 := now2 - ts.value;
      assert d1 / Minute <= d2 / Minute;
      assert d1 / Hour <= d2 / Hour;
    }
  }
}
