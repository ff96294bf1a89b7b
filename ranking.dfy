/** Choosing the nearest kept rows by their rounded distance (the page's `nsmallest`). */
module Ranking {
  import opened Pharmacies

  /** Non-decreasing by rounded distance. */
  predicate SortedByDistance(s: seq<Match>)
  {
    forall i, j :: 0 <= i < j < |s| ==> s[i].distance <= s[j].distance
  }

  function Min(a: int, b: int): int { if a <= b then a else b }

  /** Puts `m` into the sorted `s` before the first entry that is not nearer than it. */
  function Insert(m: Match, s: seq<Match>): (r: seq<Match>)
    requires SortedByDistance(s)
    ensures SortedByDistance(r)
    ensures multiset(r) == multiset(s) + multiset{m}
  {
    if s == [] then [m]
    else if m.distance <= s[0].distance then [m] + s
    else
      var rest := Insert(m, s[1..]);
      assert s == [s[0]] + s[1..];
      assert forall x :: x in rest ==> s[0].distance <= x.distance by {
        forall x | x in rest ensures s[0].distance <= x.distance {
          assert x in multiset(rest);
        }
      }
      [s[0]] + rest
  }

  /** The entries ordered by rounded distance (insertion sort). */
  function SortByDistance(s: seq<Match>): (r: seq<Match>)
    ensures SortedByDistance(r)
    ensures multiset(r) == multiset(s)
  {
    if s == [] then []
    else
      assert s == [s[0]] + s[1..];
      Insert(s[0], SortByDistance(s[1..]))
  }

  /** Entries of a sorted sequence after position `k` are no nearer than those before it. */
  lemma SortedSplit(s: seq<Match>, k: nat)
    requires SortedByDistance(s) && k <= |s|
    ensures forall x, y :: x in s[k..] && y in s[..k] ==> y.distance <= x.distance
  {
  }

  /** The `k` nearest entries of `s`, nearest first. The contract is what any correct
      k-smallest selection promises; which of several equally near entries is taken is
      not part of it. */
  function Nearest(k: nat, s: seq<Match>): (r: seq<Match>)
    ensures |r| == Min(k, |s|)
    ensures multiset(r) <= multiset(s)
    ensures SortedByDistance(r)
    ensures forall x, y :: x in multiset(s) - multiset(r) && y in r ==> y.distance <= x.distance
  {
    var sorted := SortByDistance(s);
    var n := Min(k, |s|);
    assert sorted == sorted[..n] + sorted[n..];
    assert multiset(sorted) == multiset(sorted[..n]) + multiset(sorted[n..]);
    SortedSplit(sorted, n);
    assert forall x :: x in multiset(s) - multiset(sorted[..n]) ==> x in sorted[n..];
    sorted[..n]
  }

  /** When `s` has at most `k` entries, the selection takes all of them. */
  lemma NearestTakesAllWhenFew(k: nat, s: seq<Match>)
    requires |s| <= k
    ensures multiset(Nearest(k, s)) == multiset(s)
  {
    var r := Nearest(k, s);
    assert |multiset(r)| == |s| == |multiset(s)|;
    assert |multiset(s) - multiset(r)| == 0;
  }
}
