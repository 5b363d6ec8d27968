/** Ranking of the matched donors by distance from the requester: a stable
    sort, so donors at equal distance keep the order the lookup produced. */
module Ranking {
  import opened Donors

  /** A matched donor with its distance (kilometres) from the requester. */
  datatype Match = Match(donor: Donor, distance: real)

  predicate SortedByDistance(s: seq<Match>) {
    forall i, j | 0 <= i < j < |s| :: s[i].distance <= s[j].distance
  }

  /** The matches at distance exactly `k`, in their order in `s`. */
  function AtDistance(s: seq<Match>, k: real): seq<Match>
    decreases |s|
  {
    if |s| == 0 then []
    else (if s[0].distance == k then [s[0]] else []) + AtDistance(s[1..], k)
  }

  /** The matches at distance `k` are exactly the members of `s` at that distance. */
  lemma {:induction false} AtDistanceMembers(s: seq<Match>, k: real)
    ensures forall x :: x in AtDistance(s, k) <==> x in s && x.distance == k
    decreases |s|
  {
    if |s| > 0 {
      AtDistanceMembers(s[1..], k);
      assert s == [s[0]] + s[1..];
    }
  }

  /** Keeps the relative order of equal-distance matches. */
  ghost predicate Stable(input: seq<Match>, output: seq<Match>) {
    forall k :: AtDistance(output, k) == AtDistance(input, k)
  }

  /** Inserts `x` before the first match that is at least as far. */
  function InsertByDistance(s: seq<Match>, x: Match): (r: seq<Match>)
    ensures multiset(r) == multiset(s) + multiset{x}
    ensures forall m | m in r :: m == x || m in s
    decreases |s|
  {
    if |s| == 0 then [x]
    else if x.distance <= s[0].distance then [x] + s
    else
      var rest := InsertByDistance(s[1..], x);
      assert s == [s[0]] + s[1..];
      [s[0]] + rest
  }

  /** Inserting into a sorted list keeps it sorted. */
  lemma {:induction false} InsertKeepsSorted(s: seq<Match>, x: Match)
    requires SortedByDistance(s)
    ensures SortedByDistance(InsertByDistance(s, x))
    decreases |s|
  {
    if |s| > 0 && x.distance > s[0].distance {
      var rest := InsertByDistance(s[1..], x);
      InsertKeepsSorted(s[1..], x);
      var r := [s[0]] + rest;
      forall j | 0 < j < |r| ensures s[0].distance <= r[j].distance {
        assert r[j] in rest;
      }
    }
  }

  /** The inserted match comes first among those at its distance. */
  lemma {:induction false} InsertAtDistance(s: seq<Match>, x: Match, k: real)
    ensures AtDistance(InsertByDistance(s, x), k) == (if x.distance == k then [x] else []) + AtDistance(s, k)
    decreases |s|
  {
    if |s| == 0 {
      AtDistanceCons(x, [], k);
    } else if x.distance <= s[0].distance {
      AtDistanceCons(x, s, k);
    } else {
      var rest := InsertByDistance(s[1..], x);
      InsertAtDistance(s[1..], x, k);
      AtDistanceCons(s[0], rest, k);
      AtDistanceCons(s[0], s[1..], k);
      assert [s[0]] + s[1..] == s;
    }
  }

  lemma AtDistanceCons(h: Match, rest: seq<Match>, k: real)
    ensures AtDistance([h] + rest, k) == (if h.distance == k then [h] else []) + AtDistance(rest, k)
  {
    assert ([h] + rest)[1..] == rest;
  }

  /** The sort: insertion from the back, so each match is placed ahead of
      the later matches at the same distance. */
  method RankByDistance(ms: seq<Match>) returns (r: seq<Match>)
    ensures SortedByDistance(r)
    ensures multiset(r) == multiset(ms)
    ensures Stable(ms, r)
  {
    r := [];
    var i := |ms|;
    while i > 0
      invariant 0 <= i <= |ms|
      invariant SortedByDistance(r)
      invariant multiset(r) == multiset(ms[i..])
      invariant Stable(ms[i..], r)
    {
      i := i - 1;
      assert ms[i..] == [ms[i]] + ms[i + 1..];
      InsertKeepsSorted(r, ms[i]);
      forall k ensures AtDistance(InsertByDistance(r, ms[i]), k) == AtDistance(ms[i..], k) {
        InsertAtDistance(r, ms[i], k);
        assert ms[i..][1..] == ms[i + 1..];
      }
      r := InsertByDistance(r, ms[i]);
    }
    assert ms[0..] == ms;
  }

  /** A sorted, stable rearrangement is unique: whatever stable sort is used,
      the ranked list is this one. */
  lemma {:induction false} StableSortUnique(input: seq<Match>, s: seq<Match>, t: seq<Match>)
    requires SortedByDistance(s) && Stable(input, s)
    requires SortedByDistance(t) && Stable(input, t)
    ensures s == t
    decreases |s| + |t|
  {
    if |s| > 0 {
      NonEmptyAlike(input, s, t);
    }
    if |t| > 0 {
      NonEmptyAlike(input, t, s);
    }
    if |s| > 0 {
      HeadsAgree(input, s, t);
      TailsStable(input, s, t);
      StableSortUnique(t[1..], s[1..], t[1..]);
      assert s == [s[0]] + s[1..] && t == [t[0]] + t[1..];
    }
  }

  /** Two sorted, stable rearrangements of the same matches start alike. */
  lemma HeadsAgree(input: seq<Match>, s: seq<Match>, t: seq<Match>)
    requires SortedByDistance(s) && Stable(input, s)
    requires SortedByDistance(t) && Stable(input, t)
    requires |s| > 0 && |t| > 0
    ensures s[0] == t[0]
  {
    var k := s[0].distance;
    assert AtDistance(s, k) == AtDistance(input, k) == AtDistance(t, k);
    AtDistanceMembers(s, k);
    AtDistanceMembers(t, k);
    assert s[0] in t;
    var h := t[0].distance;
    assert AtDistance(t, h) == AtDistance(input, h) == AtDistance(s, h);
    AtDistanceMembers(t, h);
    AtDistanceMembers(s, h);
    assert t[0] in s;
    assert h == k;
    AtDistanceCons(s[0], s[1..], k);
    AtDistanceCons(t[0], t[1..], k);
    assert s == [s[0]] + s[1..] && t == [t[0]] + t[1..];
    assert AtDistance(s, k)[0] == s[0] && AtDistance(t, k)[0] == t[0];
  }

  /** Removing a common head from two stable rearrangements leaves two
      rearrangements that are stable with respect to each other. */
  lemma TailsStable(input: seq<Match>, s: seq<Match>, t: seq<Match>)
    requires Stable(input, s) && Stable(input, t)
    requires |s| > 0 && |t| > 0 && s[0] == t[0]
    ensures Stable(t[1..], s[1..])
  {
    forall j ensures AtDistance(s[1..], j) == AtDistance(t[1..], j) {
      assert AtDistance(s, j) == AtDistance(input, j) == AtDistance(t, j);
      AtDistanceCons(s[0], s[1..], j);
      AtDistanceCons(t[0], t[1..], j);
      assert s == [s[0]] + s[1..] && t == [t[0]] + t[1..];
      var p := if s[0].distance == j then [s[0]] else [];
      assert AtDistance(s[1..], j) == (p + AtDistance(s[1..], j))[|p|..];
      assert AtDistance(t[1..], j) == (p + AtDistance(t[1..], j))[|p|..];
    }
  }

  lemma NonEmptyAlike(input: seq<Match>, s: seq<Match>, t: seq<Match>)
    requires Stable(input, s) && Stable(input, t) && |s| > 0
    ensures |t| > 0
  {
    AtDistanceMembers(s, s[0].distance);
    AtDistanceMembers(t, s[0].distance);
    assert s[0] in AtDistance(t, s[0].distance);
  }
}
