/**
 * `filter_data`: keep the rows that match the selected state, type and
 * minimum elevation, then order them by elevation, highest first.
 */
module Filtering {
  import opened Wrappers
  import opened Airports

  /** The selector value that imposes no constraint. */
  const All: string := "All"

  /** The rows of `rows` that `keep` accepts, in their order (a boolean-mask
      selection `df[mask]`). */
  function SelectRows(rows: seq<Airport>, keep: Airport -> bool): (r: seq<Airport>)
    ensures |r| <= |rows|
    ensures forall x :: multiset(r)[x] == if keep(x) then multiset(rows)[x] else 0
  {
    if rows == [] then []
    else
      var rest := SelectRows(rows[1..], keep);
      assert rows == [rows[0]] + rows[1..];
      if keep(rows[0]) then [rows[0]] + rest else rest
  }

  /** `a` may stand before `b` when sorting by elevation, highest first;
      absent elevations (NaN) go last. */
  predicate HigherOrNaNAfter(a: Airport, b: Airport) {
    match (a.elevation, b.elevation)
    case (_, None) => true
    case (None, Some(_)) => false
    case (Some(x), Some(y)) => x >= y
  }

  /** Non-increasing elevation throughout. */
  ghost predicate SortedDesc(s: seq<Airport>) {
    forall i, j :: 0 <= i < j < |s| ==> HigherOrNaNAfter(s[i], s[j])
  }

  /** A row that may precede every row of a sorted sequence may head it. */
  lemma ConsSorted(h: Airport, s: seq<Airport>)
    requires SortedDesc(s)
    requires forall y :: y in s ==> HigherOrNaNAfter(h, y)
    ensures SortedDesc([h] + s)
  {
    var r := [h] + s;
    forall i, j | 0 <= i < j < |r| ensures HigherOrNaNAfter(r[i], r[j]) {
      if i == 0 { assert r[j] == s[j - 1] && r[j] in s; }
      else { assert r[i] == s[i - 1] && r[j] == s[j - 1]; }
    }
  }

  /** Puts `x` into the sorted `s` before the first row it may precede. */
  function Insert(x: Airport, s: seq<Airport>): (r: seq<Airport>)
    requires SortedDesc(s)
    ensures SortedDesc(r)
    ensures multiset(r) == multiset(s) + multiset{x}
  {
    if s == [] || HigherOrNaNAfter(x, s[0]) then
      assert forall y :: y in s ==> HigherOrNaNAfter(x, y) by {
        forall y | y in s ensures HigherOrNaNAfter(x, y) {
          var k :| 0 <= k < |s| && s[k] == y;
          if k > 0 { assert HigherOrNaNAfter(s[0], s[k]); }
        }
      }
      ConsSorted(x, s);
      [x] + s
    else
      var tail := s[1..];
      assert s == [s[0]] + tail;
      assert SortedDesc(tail) by {
        forall i, j | 0 <= i < j < |tail| ensures HigherOrNaNAfter(tail[i], tail[j]) {
          assert tail[i] == s[i + 1] && tail[j] == s[j + 1];
        }
      }
      var rest := Insert(x, tail);
      assert forall y :: y in rest ==> HigherOrNaNAfter(s[0], y) by {
        forall y | y in rest ensures HigherOrNaNAfter(s[0], y) {
          assert y in multiset(rest);
          if y != x {
            assert y in multiset(tail);
            var k :| 0 <= k < |tail| && tail[k] == y;
            assert s[k + 1] == y;
          }
        }
      }
      ConsSorted(s[0], rest);
      [s[0]] + rest
  }

  /** `sort_values('elevation_ft', ascending=False)`: the rows ordered by
      elevation, highest first, absent elevations last. Rows of equal
      elevation may come out in any order: the contract does not fix it. */
  function SortByElevationDesc(s: seq<Airport>): (r: seq<Airport>)
    ensures SortedDesc(r)
    ensures multiset(r) == multiset(s)
  {
    if s == [] then []
    else
      assert s == [s[0]] + s[1..];
      Insert(s[0], SortByElevationDesc(s[1..]))
  }

  /** The criteria of `filter_data` a row has to meet. The elevation test is
      a comparison with NaN for rows without elevation, which is false. */
  predicate Matches(a: Airport, state: string, kind: string, minElevation: int) {
    && (state == All || a.state == state)
    && (kind == All || a.kind == kind)
    && a.elevation.Some? && a.elevation.value >= minElevation
  }

  /** `filter_data(df, state, airport_type, min_elevation)`: exactly the
      rows that match, each as often as in the input, sorted by elevation
      highest first. */
  function FilterData(rows: seq<Airport>, state: string, kind: string, minElevation: int): (r: seq<Airport>)
    ensures SortedDesc(r)
    ensures forall x :: multiset(r)[x] == if Matches(x, state, kind, minElevation) then multiset(rows)[x] else 0
  {
    var byState := if state != All then SelectRows(rows, (a: Airport) => a.state == state) else rows;
    var byKind := if kind != All then SelectRows(byState, (a: Airport) => a.kind == kind) else byState;
    var byElevation := SelectRows(byKind, (a: Airport) => a.elevation.Some? && a.elevation.value >= minElevation);
    SortByElevationDesc(byElevation)
  }

  /** Every row of the result is a row of the input and meets every active
      criterion: the selected state, the selected type, and a present
      elevation of at least `minElevation`. */
  lemma FilterKeepsOnlyMatches(rows: seq<Airport>, state: string, kind: string, minElevation: int, x: Airport)
    requires x in FilterData(rows, state, kind, minElevation)
    ensures x in rows
    ensures state != All ==> x.state == state
    ensures kind != All ==> x.kind == kind
    ensures x.elevation.Some? && x.elevation.value >= minElevation
  {
    var r := FilterData(rows, state, kind, minElevation);
    assert multiset(r)[x] > 0;
  }

  /** No matching row is lost, and none appears more often than in the input. */
  lemma FilterKeepsAllMatches(rows: seq<Airport>, state: string, kind: string, minElevation: int, x: Airport)
    requires x in rows && Matches(x, state, kind, minElevation)
    ensures x in FilterData(rows, state, kind, minElevation)
    ensures multiset(FilterData(rows, state, kind, minElevation))[x] == multiset(rows)[x]
  {
    assert multiset(rows)[x] > 0;
  }

  /** Adjacent rows of the result have present, non-increasing elevations. */
  lemma FilterSortedAdjacent(rows: seq<Airport>, state: string, kind: string, minElevation: int, i: nat)
    requires i + 1 < |FilterData(rows, state, kind, minElevation)|
    ensures var r := FilterData(rows, state, kind, minElevation);
      r[i].elevation.Some? && r[i + 1].elevation.Some? && r[i].elevation.value >= r[i + 1].elevation.value
  {
    var r := FilterData(rows, state, kind, minElevation);
    FilterKeepsOnlyMatches(rows, state, kind, minElevation, r[i]);
    FilterKeepsOnlyMatches(rows, state, kind, minElevation, r[i + 1]);
    assert HigherOrNaNAfter(r[i], r[i + 1]);
  }

  lemma HigherTransitive(x: Airport, y: Airport, z: Airport)
    requires HigherOrNaNAfter(x, y) && HigherOrNaNAfter(y, z)
    ensures HigherOrNaNAfter(x, z)
  {
  }

  lemma HigherBothWays(x: Airport, y: Airport)
    requires HigherOrNaNAfter(x, y) && HigherOrNaNAfter(y, x)
    ensures x.elevation == y.elevation
  {
  }

  /** Removing one row keeps a sequence sorted. */
  lemma SortedWithout(s: seq<Airport>, j: nat)
    requires SortedDesc(s) && j < |s|
    ensures SortedDesc(s[..j] + s[j + 1..])
  {
    var c := s[..j] + s[j + 1..];
    forall p, q | 0 <= p < q < |c| ensures HigherOrNaNAfter(c[p], c[q]) {
      var p' := if p < j then p else p + 1;
      var q' := if q < j then q else q + 1;
      assert c[p] == s[p'] && c[q] == s[q'];
    }
  }

  lemma SortedTail(s: seq<Airport>)
    requires SortedDesc(s) && s != []
    ensures SortedDesc(s[1..])
  {
    var t := s[1..];
    forall p, q | 0 <= p < q < |t| ensures HigherOrNaNAfter(t[p], t[q]) {
      assert t[p] == s[p + 1] && t[q] == s[q + 1];
    }
  }

  /** In a sorted sequence, a row at position `j` that may also precede the
      head has the head's elevation, and so has every row before it. */
  lemma SamePrefixElevation(b: seq<Airport>, j: nat)
    requires SortedDesc(b) && j < |b| && HigherOrNaNAfter(b[j], b[0])
    ensures forall k :: 0 <= k <= j ==> b[k].elevation == b[0].elevation
  {
    forall k | 0 <= k <= j ensures b[k].elevation == b[0].elevation {
      if 0 < k {
        if k < j {
          assert HigherOrNaNAfter(b[k], b[j]);
          HigherTransitive(b[k], b[j], b[0]);
        }
        assert HigherOrNaNAfter(b[0], b[k]);
        HigherBothWays(b[0], b[k]);
      }
    }
  }

  lemma MultisetWithout(s: seq<Airport>, j: nat)
    requires j < |s|
    ensures multiset(s[..j] + s[j + 1..]) == multiset(s) - multiset{s[j]}
  {
    assert s == s[..j] + [s[j]] + s[j + 1..];
  }

  /** The first step of `SortedPermutationsAgree`: the head of `a` sits in
      `b` at some position `j`, and rows 0..j of `b` share its elevation. */
  lemma HeadsAgree(a: seq<Airport>, b: seq<Airport>) returns (j: nat)
    requires SortedDesc(a) && SortedDesc(b) && multiset(a) == multiset(b) && a != []
    ensures j < |b| && b[j] == a[0]
    ensures a[0].elevation == b[0].elevation
    ensures forall k :: 0 <= k <= j ==> b[k].elevation == b[0].elevation
  {
    assert a[0] in multiset(b);
    j :| 0 <= j < |b| && b[j] == a[0];
    assert b[0] in multiset(a);
    var i :| 0 <= i < |a| && a[i] == b[0];
    assert HigherOrNaNAfter(a[0], b[0]) by {
      if i > 0 { assert HigherOrNaNAfter(a[0], a[i]); }
    }
    SamePrefixElevation(b, j);
  }

  /** The middle step of `SortedPermutationsAgree`: removing the head of `a`
      and the same row at position `j` of `b` leaves two sorted arrangements
      of the same rows. */
  lemma RemoveMatched(a: seq<Airport>, b: seq<Airport>, j: nat) returns (a': seq<Airport>, c: seq<Airport>)
    requires SortedDesc(a) && SortedDesc(b) && multiset(a) == multiset(b) && a != []
    requires j < |b| && b[j] == a[0]
    ensures a' == a[1..] && c == b[..j] + b[j + 1..]
    ensures SortedDesc(a') && SortedDesc(c) && multiset(a') == multiset(c)
  {
    a' := a[1..];
    c := b[..j] + b[j + 1..];
    SortedWithout(b, j);
    SortedTail(a);
    MultisetWithout(b, j);
    assert multiset(c) == multiset(b) - multiset{a[0]};
    assert a == [a[0]] + a';
    assert multiset(a') == multiset(a) - multiset{a[0]};
  }

  /** The last step of `SortedPermutationsAgree`: `a` without its head
      agrees with `b` without its row `j`, and rows 0..j of `b` share the
      head's elevation. */
  lemma ElevationsAfterRemoval(a: seq<Airport>, b: seq<Airport>, j: nat, a': seq<Airport>, c: seq<Airport>)
    requires |a| == |b| && j < |b| && a != []
    requires a' == a[1..] && c == b[..j] + b[j + 1..]
    requires a[0].elevation == b[0].elevation
    requires forall k :: 0 <= k <= j ==> b[k].elevation == b[0].elevation
    requires |a'| == |c| && forall k :: 0 <= k < |a'| ==> a'[k].elevation == c[k].elevation
    ensures forall k :: 0 <= k < |a| ==> a[k].elevation == b[k].elevation
  {
    forall k | 0 <= k < |a| ensures a[k].elevation == b[k].elevation {
      if k > 0 {
        assert a[k] == a'[k - 1];
        if k - 1 < j { assert c[k - 1] == b[k - 1]; } else { assert c[k - 1] == b[k]; }
      }
    }
  }

  /** Two sorted arrangements of the same rows agree on the elevation at every
      position: the order of `filter_data`'s result is fixed up to rows of
      equal elevation, whatever sorting algorithm produced it. */
  lemma {:induction false} SortedPermutationsAgree(a: seq<Airport>, b: seq<Airport>)
    requires SortedDesc(a) && SortedDesc(b) && multiset(a) == multiset(b)
    ensures |a| == |b|
    ensures forall i :: 0 <= i < |a| ==> a[i].elevation == b[i].elevation
    decreases |a|
  {
    assert |a| == |multiset(a)| == |multiset(b)| == |b|;
    if a != [] {
      var j := HeadsAgree(a, b);
      var a', c := RemoveMatched(a, b, j);
      SortedPermutationsAgree(a', c);
      ElevationsAfterRemoval(a, b, j, a', c);
    }
  }

  /** Filtering a filtered result again with the same criteria gives back the
      same rows, sorted, with the same elevation at every position. */
  lemma FilterIdempotent(rows: seq<Airport>, state: string, kind: string, minElevation: int)
    ensures var once := FilterData(rows, state, kind, minElevation);
      var twice := FilterData(once, state, kind, minElevation);
      && multiset(twice) == multiset(once)
      && |twice| == |once|
      && forall i :: 0 <= i < |once| ==> twice[i].elevation == once[i].elevation
  {
    var once := FilterData(rows, state, kind, minElevation);
    var twice := FilterData(once, state, kind, minElevation);
    assert multiset(twice) == multiset(once) by {
      forall x ensures multiset(twice)[x] == multiset(once)[x] {
        if !Matches(x, state, kind, minElevation) {
          assert multiset(once)[x] == 0;
        }
      }
    }
    SortedPermutationsAgree(twice, once);
  }

  /** With every selector at its default the filter is not the identity: a
      row without elevation, or below sea level, is dropped. */
  lemma DefaultFilterDropsRows()
    ensures var rows := [
        Airport(Some("Low"), "small_airport", "MA", Some(-5), Some("no"), "US-MA"),
        Airport(Some("Unknown"), "heliport", "MA", None, Some("no"), "US-MA")];
      FilterData(rows, All, All, 0) == []
  {
    var rows := [
        Airport(Some("Low"), "small_airport", "MA", Some(-5), Some("no"), "US-MA"),
        Airport(Some("Unknown"), "heliport", "MA", None, Some("no"), "US-MA")];
  }

  /** The worked example: of Boston Logan (20 ft) and Bedford (133 ft), a
      minimum elevation of 50 keeps Bedford alone. */
  lemma FilterExample()
    ensures var logan := Airport(Some("Boston Logan"), "large_airport", "MA", Some(20), Some("no"), "US-MA");
      var bedford := Airport(Some("Bedford"), "small_airport", "MA", Some(133), Some("yes"), "US-MA");
      FilterData([logan, bedford], All, All, 50) == [bedford]
  {
    var logan := Airport(Some("Boston Logan"), "large_airport", "MA", Some(20), Some("no"), "US-MA");
    var bedford := Airport(Some("Bedford"), "small_airport", "MA", Some(133), Some("yes"), "US-MA");
    var r := FilterData([logan, bedford], All, All, 50);
    assert multiset(r) == multiset{bedford} by {
      forall x ensures multiset(r)[x] == multiset{bedford}[x] {
        if x == bedford { assert multiset([logan, bedford])[x] == 1; }
      }
    }
    assert |r| == 1;
    assert r[0] in multiset(r);
  }
}
