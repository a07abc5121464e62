/** Sequence helpers shared by several handlers. */
module Seqs {

  ghost predicate NoDuplicates<T>(s: seq<T>) {
    forall i, j :: 0 <= i < j < |s| ==> s[i] != s[j]
  }

  /** The position of the first occurrence of `x` in `s`. */
  function FirstIndex<T(==)>(s: seq<T>, x: T): (k: nat)
    requires x in s
    ensures k < |s| && s[k] == x
    ensures forall i :: 0 <= i < k ==> s[i] != x
  {
    if s[0] == x then 0 else 1 + FirstIndex(s[1..], x)
  }

  /**
   * `[...new Set(s)]`, or a filter that remembers what it has seen: every
   * element once, at its first occurrence, in order.
   */
  function FirstOccurrences<T(==)>(s: seq<T>): seq<T> {
    if s == [] then []
    else
      var r := FirstOccurrences(s[..|s| - 1]);
      if s[|s| - 1] in r then r else r + [s[|s| - 1]]
  }

  /** Appending an element adds it to the first occurrences exactly when it is new. */
  lemma FirstOccurrencesSnoc<T>(s: seq<T>, x: T)
    ensures FirstOccurrences(s + [x]) == if x in FirstOccurrences(s) then FirstOccurrences(s) else FirstOccurrences(s) + [x]
  {
    assert (s + [x])[..|s + [x]| - 1] == s;
  }

  lemma FirstIndexOfPrefix<T>(s: seq<T>, n: nat, x: T)
    requires n <= |s| && x in s[..n]
    ensures x in s && FirstIndex(s, x) == FirstIndex(s[..n], x)
  {
    var k := FirstIndex(s[..n], x);
    assert s[k] == x;
    var j := FirstIndex(s, x);
    assert j <= k;
    assert s[..n][j] == x;
  }

  /**
   * The first-occurrence filter keeps exactly the elements of `s`, each once,
   * ordered by where each first appears in `s`.
   */
  lemma {:induction false} FirstOccurrencesSpec<T>(s: seq<T>)
    ensures NoDuplicates(FirstOccurrences(s))
    ensures forall i :: 0 <= i < |FirstOccurrences(s)| ==> FirstOccurrences(s)[i] in s
    ensures forall i :: 0 <= i < |s| ==> s[i] in FirstOccurrences(s)
    ensures forall i, j :: 0 <= i < j < |FirstOccurrences(s)| ==>
              FirstIndex(s, FirstOccurrences(s)[i]) < FirstIndex(s, FirstOccurrences(s)[j])
  {
    if s != [] {
      var n := |s| - 1;
      var p := s[..n];
      FirstOccurrencesSpec(p);
      var r := FirstOccurrences(p);
      assert s == p + [s[n]];
      forall i | 0 <= i < |r| ensures FirstIndex(s, r[i]) == FirstIndex(p, r[i]) {
        FirstIndexOfPrefix(s, n, r[i]);
      }
      forall i | 0 <= i < n ensures s[i] in r {
        assert s[i] == p[i];
      }
      if s[n] !in r {
        assert s[n] !in p;
        assert FirstIndex(s, s[n]) == n;
      }
    }
  }

  /** `s.filter(y => y !== x)`. */
  function Remove<T(==)>(s: seq<T>, x: T): (r: seq<T>)
    ensures forall i :: 0 <= i < |r| ==> r[i] != x && r[i] in s
    ensures forall i :: 0 <= i < |s| && s[i] != x ==> s[i] in r
    ensures NoDuplicates(s) ==> NoDuplicates(r)
  {
    if s == [] then []
    else
      var rest := Remove(s[1..], x);
      if s[0] == x then rest else [s[0]] + rest
  }

  /** The `seen`-set loop that computes the first-occurrence filter. */
  method Dedup<T(==)>(s: seq<T>) returns (r: seq<T>)
    ensures r == FirstOccurrences(s)
  {
    var seen: set<T> := {};
    r := [];
    for i := 0 to |s|
      invariant r == FirstOccurrences(s[..i])
      invariant forall x :: x in seen <==> x in r
    {
      assert s[..i + 1][..i] == s[..i];
      if s[i] !in seen {
        seen := seen + {s[i]};
        r := r + [s[i]];
      }
    }
    assert s[..|s|] == s;
  }
}
