/**
 * The summaries the dashboard draws from the filtered rows: the number of
 * airports per state (bar chart), the number per type (pie chart), the
 * per-type elevation statistics (table) and the row count shown at the
 * bottom of the page.
 */
module Statistics {
  import opened Wrappers
  import opened Airports
  import opened Filtering

  /** The `state` column. */
  function StateColumn(rows: seq<Airport>): (c: seq<string>)
    ensures |c| == |rows|
  {
    seq(|rows|, i requires 0 <= i < |rows| => rows[i].state)
  }

  /** The `type` column. */
  function KindColumn(rows: seq<Airport>): (c: seq<string>)
    ensures |c| == |rows|
  {
    seq(|rows|, i requires 0 <= i < |rows| => rows[i].kind)
  }

  // ---------------------------------------------------------------------
  // value_counts
  // ---------------------------------------------------------------------

  /** `value_counts`: how often each distinct value occurs, counted one
      value at a time. Only values that occur get an entry. */
  function ValueCounts(column: seq<string>): (m: map<string, nat>)
    ensures forall k :: k in m <==> k in column
    ensures forall k :: k in m ==> m[k] == multiset(column)[k]
  {
    if column == [] then map[]
    else
      var m := ValueCounts(column[1..]);
      var x := column[0];
      assert column == [x] + column[1..];
      m[x := (if x in m then m[x] else 0) + 1]
  }

  /** The sum of all counts of a map. */
  ghost function Total(m: map<string, nat>): nat
    decreases |m|
  {
    if m == map[] then 0
    else
      var k :| k in m;
      m[k] + Total(m - {k})
  }

  /** `Total` does not depend on which key it takes out first. */
  lemma {:induction false} TotalRemove(m: map<string, nat>, k: string)
    requires k in m
    ensures Total(m) == m[k] + Total(m - {k})
    decreases |m|
  {
    var j :| j in m && Total(m) == m[j] + Total(m - {j});
    if j != k {
      TotalRemove(m - {j}, k);
      TotalRemove(m - {k}, j);
      assert m - {j} - {k} == m - {k} - {j};
    }
  }

  /** Counting one more occurrence of `x` adds one to the total. */
  lemma TotalIncrement(m: map<string, nat>, x: string)
    ensures Total(m[x := (if x in m then m[x] else 0) + 1]) == Total(m) + 1
  {
    var m' := m[x := (if x in m then m[x] else 0) + 1];
    TotalRemove(m', x);
    if x in m {
      TotalRemove(m, x);
      assert m' - {x} == m - {x};
    } else {
      assert m' - {x} == m;
    }
  }

  /** The counts of `value_counts` add up to the length of the column. */
  lemma {:induction false} CountsSumToLength(column: seq<string>)
    ensures Total(ValueCounts(column)) == |column|
  {
    if column != [] {
      CountsSumToLength(column[1..]);
      TotalIncrement(ValueCounts(column[1..]), column[0]);
    }
  }

  /** The bar chart and the pie chart both account for every filtered row:
      their counts each add up to the number shown under the map. */
  lemma ChartCountsMatchShownTotal(rows: seq<Airport>, state: string, kind: string, minElevation: int)
    ensures var r := FilterData(rows, state, kind, minElevation);
      && Total(ValueCounts(StateColumn(r))) == |r|
      && Total(ValueCounts(KindColumn(r))) == |r|
  {
    var r := FilterData(rows, state, kind, minElevation);
    CountsSumToLength(StateColumn(r));
    CountsSumToLength(KindColumn(r));
  }

  /** With a state selected, the bar chart has a single bar, for that
      state, as tall as the number of rows shown (or no bar at all). */
  lemma SelectedStateSingleBar(rows: seq<Airport>, state: string, kind: string, minElevation: int)
    requires state != All
    ensures var r := FilterData(rows, state, kind, minElevation);
      ValueCounts(StateColumn(r)) == if r == [] then map[] else map[state := |r|]
  {
    var r := FilterData(rows, state, kind, minElevation);
    var c := StateColumn(r);
    var m := ValueCounts(c);
    forall k | k in c ensures k == state {
      var i :| 0 <= i < |c| && c[i] == k;
      FilterKeepsOnlyMatches(rows, state, kind, minElevation, r[i]);
    }
    if r != [] {
      assert c[0] in c;
      CountsSumToLength(c);
      TotalRemove(m, state);
      assert m - {state} == map[];
    }
  }

  // ---------------------------------------------------------------------
  // groupby('type')['elevation_ft'].agg(['mean', 'max'])
  // ---------------------------------------------------------------------

  /** The elevation statistics of one group. NaN elevations are skipped:
      `present` counts the others, `sum` adds them up (the mean is
      `sum / present`), and `max` is absent when no elevation is present. */
  datatype ElevationStats = ElevationStats(present: nat, sum: int, max: Option<int>)

  const NoElevations := ElevationStats(0, 0, None)

  /** Fold one elevation into the statistics. */
  function Add(x: Option<int>, st: ElevationStats): ElevationStats {
    match x
    case None => st
    case Some(v) =>
      ElevationStats(st.present + 1, st.sum + v,
        Some(if st.max.Some? && st.max.value > v then st.max.value else v))
  }

  /** The elevation statistics of a group of rows. */
  function Summarize(rows: seq<Airport>): (st: ElevationStats)
    ensures st.present <= |rows|
    ensures st.max.None? <==> st.present == 0
    ensures st.max.None? ==> st.sum == 0
  {
    if rows == [] then NoElevations
    else Add(rows[0].elevation, Summarize(rows[1..]))
  }

  predicate HasElevation(a: Airport) {
    a.elevation.Some?
  }

  /** The maximum is absent exactly when no elevation is present; otherwise
      it bounds every present elevation from above and is one of them. */
  lemma {:induction false} SummarizeMax(rows: seq<Airport>)
    ensures var st := Summarize(rows);
      && (st.max.Some? <==> exists i :: 0 <= i < |rows| && HasElevation(rows[i]))
      && (forall i :: 0 <= i < |rows| && HasElevation(rows[i]) ==> rows[i].elevation.value <= st.max.value)
      && (st.max.Some? ==> exists i :: 0 <= i < |rows| && rows[i].elevation == st.max)
  {
    if rows != [] {
      var rest := rows[1..];
      SummarizeMax(rest);
      var st, st' := Summarize(rows), Summarize(rest);
      forall i | 0 <= i < |rows| && HasElevation(rows[i])
        ensures rows[i].elevation.value <= st.max.value
      {
        if i > 0 { assert rows[i] == rest[i - 1]; }
      }
      if st.max.Some? {
        if rows[0].elevation.Some? && st.max == rows[0].elevation {
        } else {
          var i :| 0 <= i < |rest| && rest[i].elevation == st'.max;
          assert rows[i + 1] == rest[i];
        }
      }
      if exists i :: 0 <= i < |rows| && HasElevation(rows[i]) {
        var i :| 0 <= i < |rows| && HasElevation(rows[i]);
        if i > 0 { assert HasElevation(rest[i - 1]); }
      }
    }
  }

  /** `present` counts exactly the rows whose elevation is not NaN. */
  lemma {:induction false} SummarizeCount(rows: seq<Airport>)
    ensures var st := Summarize(rows);
      st.present == |SelectRows(rows, HasElevation)|
  {
    if rows != [] {
      SummarizeCount(rows[1..]);
    }
  }

  /** The sum of the elevations that are not NaN, added up from the last
      row to the first. */
  function SumPresent(rows: seq<Airport>): int {
    if rows == [] then 0
    else SumPresent(rows[..|rows| - 1]) + rows[|rows| - 1].elevation.GetOr(0)
  }

  /** `sum` is the sum of the present elevations: the mean's numerator. */
  lemma {:induction false} SummarizeSum(rows: seq<Airport>)
    ensures Summarize(rows).sum == SumPresent(rows)
  {
    if rows != [] {
      var last := |rows| - 1;
      if |rows| == 1 {
        assert rows[..last] == [];
      } else {
        SummarizeSum(rows[1..]);
        SummarizeSum(rows[..last]);
        assert rows[1..][..|rows[1..]| - 1] == rows[..last][1..];
        SummarizeSum(rows[..last][1..]);
      }
    }
  }

  /** Scaling by a count keeps the order of two bounds. */
  lemma {:induction false} ScaleMonotone(p: nat, x: int, y: int)
    requires x <= y
    ensures p * x <= p * y
  {
    if p > 0 {
      ScaleMonotone(p - 1, x, y);
      assert p * x == (p - 1) * x + x;
      assert p * y == (p - 1) * y + y;
    }
  }

  /** One step of `MeanAtMostMax`: adding an elevation `v` to a group whose
      sum is at most `p * mx` keeps the sum at most `(p + 1)` times the new
      maximum. */
  lemma MeanStep(p: nat, sum: int, mx: int, v: int)
    requires sum <= p * mx
    ensures sum + v <= (p + 1) * (if mx > v then mx else v)
  {
    var m := if mx > v then mx else v;
    ScaleMonotone(p, mx, m);
    assert (p + 1) * m == p * m + m;
  }

  /** The mean never exceeds the maximum: `sum <= present * max`. */
  lemma {:induction false} MeanAtMostMax(rows: seq<Airport>)
    ensures var st := Summarize(rows);
      st.max.Some? ==> st.sum <= st.present * st.max.value
  {
    if rows != [] {
      var st' := Summarize(rows[1..]);
      MeanAtMostMax(rows[1..]);
      match rows[0].elevation
      case None =>
      case Some(v) =>
        if st'.max.Some? {
          MeanStep(st'.present, st'.sum, st'.max.value, v);
        } else {
          MeanStep(0, 0, v, v);
        }
    }
  }

  /** Folding two elevations in either order gives the same statistics. */
  lemma AddCommutes(x: Option<int>, y: Option<int>, st: ElevationStats)
    ensures Add(x, Add(y, st)) == Add(y, Add(x, st))
  {
  }

  /** Any one row can be folded in last. */
  lemma {:induction false} SummarizeWithout(rows: seq<Airport>, j: nat)
    requires j < |rows|
    ensures Summarize(rows) == Add(rows[j].elevation, Summarize(rows[..j] + rows[j + 1..]))
  {
    if j == 0 {
      assert rows[..0] + rows[1..] == rows[1..];
    } else {
      var rest := rows[1..];
      var t := rest[..j - 1] + rest[j..];
      SummarizeWithout(rest, j - 1);
      assert rows[..j] + rows[j + 1..] == [rows[0]] + t;
      AddCommutes(rows[0].elevation, rows[j].elevation, Summarize(t));
    }
  }

  /** The statistics of a group do not depend on the order of its rows, so
      sorting before grouping does not change the table. */
  lemma {:induction false} SummarizeOrderFree(a: seq<Airport>, b: seq<Airport>)
    requires multiset(a) == multiset(b)
    ensures Summarize(a) == Summarize(b)
    decreases |a|
  {
    assert |a| == |multiset(a)| == |multiset(b)| == |b|;
    if a != [] {
      assert a[0] in multiset(b);
      var j :| 0 <= j < |b| && b[j] == a[0];
      var b' := b[..j] + b[j + 1..];
      MultisetWithout(b, j);
      assert a == [a[0]] + a[1..];
      SummarizeOrderFree(a[1..], b');
      SummarizeWithout(b, j);
    }
  }

  /** The rows of one type. */
  function OfKind(rows: seq<Airport>, k: string): (r: seq<Airport>)
    ensures forall x :: multiset(r)[x] == if x.kind == k then multiset(rows)[x] else 0
  {
    SelectRows(rows, (a: Airport) => a.kind == k)
  }

  /** The types that occur in the rows. */
  function Kinds(rows: seq<Airport>): set<string> {
    set a | a in rows :: a.kind
  }

  /** The statistics table: one entry per type that occurs. */
  function StatsByType(rows: seq<Airport>): (m: map<string, ElevationStats>)
    ensures forall k :: k in m ==> m[k].present <= |rows|
  {
    map k | k in Kinds(rows) :: Summarize(OfKind(rows, k))
  }

  /** The number of rows of a type equals that type's count in the
      `type` column. */
  lemma {:induction false} OfKindSize(rows: seq<Airport>, k: string)
    ensures |OfKind(rows, k)| == multiset(KindColumn(rows))[k]
  {
    if rows != [] {
      OfKindSize(rows[1..], k);
      assert KindColumn(rows) == [rows[0].kind] + KindColumn(rows[1..]);
    }
  }

  /** The table lists the same types as the pie chart. */
  lemma TableTypesAreChartTypes(rows: seq<Airport>)
    ensures StatsByType(rows).Keys == ValueCounts(KindColumn(rows)).Keys
  {
    var c := KindColumn(rows);
    forall k ensures k in Kinds(rows) <==> k in c {
      if k in Kinds(rows) {
        var a :| a in rows && a.kind == k;
        var i :| 0 <= i < |rows| && rows[i] == a;
        assert c[i] == k;
      }
      if k in c {
        var i :| 0 <= i < |c| && c[i] == k;
        assert rows[i] in rows;
      }
    }
  }

  /** The per-type maximum is at least every elevation of that type and
      equals one of them; it is absent only when all of them are NaN. */
  lemma TypeMaxIsMaximum(rows: seq<Airport>, k: string)
    requires k in StatsByType(rows)
    ensures var st := StatsByType(rows)[k];
      && (forall i :: 0 <= i < |rows| && rows[i].kind == k && HasElevation(rows[i]) ==>
            st.max.Some? && rows[i].elevation.value <= st.max.value)
      && (st.max.Some? ==> exists i :: 0 <= i < |rows| && rows[i].kind == k && rows[i].elevation == st.max)
      && (st.max.None? ==> forall i :: 0 <= i < |rows| && rows[i].kind == k ==> !HasElevation(rows[i]))
  {
    var g := OfKind(rows, k);
    var st := Summarize(g);
    SummarizeMax(g);
    forall i | 0 <= i < |rows| && rows[i].kind == k
      ensures HasElevation(rows[i]) ==> st.max.Some? && rows[i].elevation.value <= st.max.value
    {
      assert rows[i] in multiset(rows);
      assert rows[i] in multiset(g);
      var j :| 0 <= j < |g| && g[j] == rows[i];
    }
    if st.max.Some? {
      var j :| 0 <= j < |g| && g[j].elevation == st.max;
      assert g[j] in multiset(g);
      assert g[j] in multiset(rows);
      var i :| 0 <= i < |rows| && rows[i] == g[j];
    }
  }

  /** On the filtered rows every type has a maximum of at least the chosen
      minimum, and the mean is taken over exactly the type's count. */
  lemma FilteredStats(rows: seq<Airport>, state: string, kind: string, minElevation: int, k: string)
    requires k in StatsByType(FilterData(rows, state, kind, minElevation))
    ensures var r := FilterData(rows, state, kind, minElevation);
      var st := StatsByType(r)[k];
      && st.max.Some? && st.max.value >= minElevation
      && k in ValueCounts(KindColumn(r))
      && st.present == ValueCounts(KindColumn(r))[k]
  {
    var r := FilterData(rows, state, kind, minElevation);
    var g := OfKind(r, k);
    TableTypesAreChartTypes(r);
    SummarizeMax(g);
    SummarizeCount(g);
    OfKindSize(r, k);
    forall x | x in g ensures HasElevation(x) && x.elevation.value >= minElevation {
      assert x in multiset(g);
      FilterKeepsOnlyMatches(rows, state, kind, minElevation, x);
    }
    AllPresentSelected(g);
    assert g != [] by {
      var a :| a in r && a.kind == k;
      assert a in multiset(r);
      assert a in multiset(g);
    }
    assert HasElevation(g[0]);
  }

  /** When every row has an elevation, none is dropped by the NaN filter. */
  lemma {:induction false} AllPresentSelected(rows: seq<Airport>)
    requires forall x :: x in rows ==> HasElevation(x)
    ensures SelectRows(rows, HasElevation) == rows
  {
    if rows != [] {
      assert rows[0] in rows;
      forall x | x in rows[1..] ensures HasElevation(x) {
        assert x in rows;
      }
      AllPresentSelected(rows[1..]);
    }
  }

  /** The statistics table depends only on which rows there are, not on
      their order: it is the same for the sorted `filter_data` result and
      for the unsorted selection. */
  lemma StatsOrderFree(a: seq<Airport>, b: seq<Airport>)
    requires multiset(a) == multiset(b)
    ensures StatsByType(a) == StatsByType(b)
  {
    assert Kinds(a) == Kinds(b) by {
      forall k ensures k in Kinds(a) <==> k in Kinds(b) {
        if k in Kinds(a) {
          var x :| x in a && x.kind == k;
          assert x in multiset(b);
        }
        if k in Kinds(b) {
          var x :| x in b && x.kind == k;
          assert x in multiset(a);
        }
      }
    }
    forall k | k in Kinds(a) ensures Summarize(OfKind(a, k)) == Summarize(OfKind(b, k)) {
      assert multiset(OfKind(a, k)) == multiset(OfKind(b, k));
      SummarizeOrderFree(OfKind(a, k), OfKind(b, k));
    }
  }

  /** Three small airports, at 100 ft, NaN and 200 ft. */
  function ExampleRows(): seq<Airport> {
    [ Airport(Some("A"), "small_airport", "NH", Some(100), Some("no"), "US-NH"),
      Airport(Some("B"), "small_airport", "NH", None, Some("no"), "US-NH"),
      Airport(Some("C"), "small_airport", "VT", Some(200), Some("no"), "US-VT")]
  }

  lemma ExampleTypes()
    ensures StatsByType(ExampleRows()).Keys == {"small_airport"}
  {
    assert Kinds(ExampleRows()) == {"small_airport"} by {
      assert ExampleRows()[0] in ExampleRows();
    }
  }

  lemma ExampleGroup()
    ensures Summarize(OfKind(ExampleRows(), "small_airport")) == ElevationStats(2, 300, Some(200))
  {
    var rows := ExampleRows();
    var g := OfKind(rows, "small_airport");
    forall x: Airport ensures multiset(g)[x] == multiset(rows)[x] {
      if x.kind != "small_airport" {
        assert x !in rows;
      }
    }
    SummarizeOrderFree(g, rows);
    assert Summarize(rows[2..]) == ElevationStats(1, 200, Some(200));
    assert Summarize(rows[1..]) == ElevationStats(1, 200, Some(200));
  }

  /** The worked example: two small airports at 100 ft and 200 ft and one
      with NaN elevation give mean (100 + 200) / 2 and maximum 200. */
  lemma StatsExample()
    ensures StatsByType(ExampleRows()) == map["small_airport" := ElevationStats(2, 300, Some(200))]
  {
    ExampleTypes();
    ExampleGroup();
    var m := StatsByType(ExampleRows());
    assert m["small_airport"] == Summarize(OfKind(ExampleRows(), "small_airport"));
  }
}
