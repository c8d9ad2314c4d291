/**
 * The airport table and the cleaning the loader applies to it once, right
 * after reading the CSV file.
 */
module Airports {
  import opened Wrappers
  import opened Text

  /** One row of the table. `kind` is the `type` column; an absent
      elevation stands for NaN. `state` is derived by cleaning: whatever a
      row holds there before cleaning is overwritten. */
  datatype Airport = Airport(
    name: Option<string>,
    kind: string,
    state: string,
    elevation: Option<int>,
    scheduledService: Option<string>,
    isoRegion: string)

  /** Separator between country and subdivision in a region code ("US-MA"). */
  const RegionSeparator: char := '-'

  /** Value given to a missing scheduled-service flag. */
  const NoService: string := "no"

  /** The normalised form of a present name: stripped, then title-cased. */
  function CleanName(n: string): (r: string)
    ensures |r| == |Strip(n)| <= |n|
    ensures Stripped(r)
  {
    StripSpec(n);
    TitleKeepsStripped(Strip(n));
    Title(Strip(n))
  }

  /** Character by character, a cleaned name is the name found inside the
      surrounding whitespace, with a letter that follows a letter in lower
      case, any other letter in upper case, and every other character kept. */
  lemma CleanNameCasesWords(n: string, i: nat)
    requires i < |CleanName(n)|
    ensures PaddedAt(n, Strip(n), LeadingSpace(n))
    ensures var s := Strip(n);
      CleanName(n)[i] == if i > 0 && IsLetter(s[i - 1]) then Lower(s[i]) else Upper(s[i])
    ensures var s := Strip(n);
      IsLetter(s[i]) ==> if i > 0 && IsLetter(s[i - 1]) then IsLower(CleanName(n)[i]) else IsUpper(CleanName(n)[i])
    ensures !IsLetter(Strip(n)[i]) ==> CleanName(n)[i] == Strip(n)[i]
  {
    StripSpec(n);
    TitleAt(Strip(n), i);
    TitleCasesWords(Strip(n), i);
  }

  /** The three column rewrites of the loader applied to one row. */
  function CleanRow(row: Airport): (r: Airport)
    ensures r.kind == row.kind && r.elevation == row.elevation
    ensures r.isoRegion == row.isoRegion
    ensures r.name.None? <==> row.name.None?
  {
    var state := LastSegment(row.isoRegion, RegionSeparator);
    var service := Some(row.scheduledService.GetOr(NoService));
    var name := if row.name.None? then None else Some(CleanName(row.name.value));
    Airport(name, row.kind, state, row.elevation, service, row.isoRegion)
  }

  /** What cleaning promises about each rewritten column. */
  lemma CleanRowSpec(row: Airport)
    ensures var r := CleanRow(row);
      && RegionSeparator !in r.state
      && |r.state| <= |r.isoRegion| && r.state == r.isoRegion[|r.isoRegion| - |r.state|..]
      && (|r.state| < |r.isoRegion| ==> r.isoRegion[|r.isoRegion| - |r.state| - 1] == RegionSeparator)
      && (RegionSeparator !in row.isoRegion ==> r.state == row.isoRegion)
      && r.scheduledService.Some?
      && (row.scheduledService.Some? ==> r.scheduledService == row.scheduledService)
      && (row.scheduledService.None? ==> r.scheduledService == Some(NoService))
      && (row.name.Some? ==> r.name == Some(CleanName(row.name.value)))
      && (r.name.Some? ==> Stripped(r.name.value) && |r.name.value| <= |row.name.value|)
  {
    LastSegmentSpec(row.isoRegion, RegionSeparator);
  }

  /** Cleaning is safe to repeat: a clean row is a fixed point. */
  lemma CleanRowIdempotent(row: Airport)
    ensures CleanRow(CleanRow(row)) == CleanRow(row)
  {
    var r := CleanRow(row);
    if row.name.Some? {
      var n := Strip(row.name.value);
      StripSpec(row.name.value);
      TitleKeepsStripped(n);
      StripKeepsStripped(Title(n));
      TitleIdempotent(n);
    }
  }

  /** The whole cleaned table, row by row. */
  function CleanRows(rows: seq<Airport>): seq<Airport> {
    seq(|rows|, i requires 0 <= i < |rows| => CleanRow(rows[i]))
  }

  /** What the cleaned table holds in each row `i`: the state derived from
      the region code, a filled-in service flag, the cleaned name, and the
      other columns as they were. */
  lemma CleanedTableRow(rows: seq<Airport>, i: nat)
    requires i < |rows|
    ensures |CleanRows(rows)| == |rows|
    ensures var r, row := CleanRows(rows)[i], rows[i];
      && r.kind == row.kind && r.elevation == row.elevation && r.isoRegion == row.isoRegion
      && RegionSeparator !in r.state
      && |r.state| <= |r.isoRegion| && r.state == r.isoRegion[|r.isoRegion| - |r.state|..]
      && (|r.state| < |r.isoRegion| ==> r.isoRegion[|r.isoRegion| - |r.state| - 1] == RegionSeparator)
      && (row.scheduledService.Some? ==> r.scheduledService == row.scheduledService)
      && (row.scheduledService.None? ==> r.scheduledService == Some(NoService))
      && (row.name.None? ==> r.name.None?)
      && (row.name.Some? ==> r.name == Some(CleanName(row.name.value)))
  {
    CleanRowSpec(rows[i]);
  }

  /** The loader's in-place cleaning: each column rewrite overwrites the
      column of every row; rows are independent, so the three rewrites are
      done row by row in one pass. */
  method CleanTable(table: array<Airport>)
    modifies table
    ensures table[..] == CleanRows(old(table[..]))
  {
    var i := 0;
    while i < table.Length
      invariant 0 <= i <= table.Length
      invariant forall k :: 0 <= k < i ==> table[k] == CleanRow(old(table[k]))
      invariant forall k :: i <= k < table.Length ==> table[k] == old(table[k])
    {
      table[i] := CleanRow(table[i]);
      i := i + 1;
    }
    assert forall k :: 0 <= k < table.Length ==> table[..][k] == CleanRows(old(table[..]))[k];
  }

  /** "US-MA" belongs to the state "MA". */
  lemma RegionExample()
    ensures LastSegment("US-MA", RegionSeparator) == "MA"
  {
    LastSegmentSpec("US-MA", RegionSeparator);
  }

  lemma StripExample()
    ensures Strip(" boston logan ") == "boston logan"
    ensures Strip("bedford") == "bedford"
  {
    var s := " boston logan ";
    var t := "boston logan";
    assert s[1..1 + |t|] == t && s[..1] == " " && s[1 + |t|..] == " ";
    StripUnique(s, t, 1);
    StripKeepsStripped("bedford");
  }

  lemma TitleExample()
    ensures Title("boston logan") == "Boston Logan"
    ensures Title("bedford") == "Bedford"
  {
    var t := "boston logan";
    forall i | 0 <= i < |t| ensures Title(t)[i] == "Boston Logan"[i] { TitleAt(t, i); }
    var b := "bedford";
    forall i | 0 <= i < |b| ensures Title(b)[i] == "Bedford"[i] { TitleAt(b, i); }
  }

  /** A name is stripped, then each word of it capitalised. */
  lemma NameExample()
    ensures CleanName(" boston logan ") == "Boston Logan"
    ensures CleanName("bedford") == "Bedford"
  {
    assert CleanName(" boston logan ") == Title(Strip(" boston logan "));
    assert CleanName("bedford") == Title(Strip("bedford"));
    StripExample();
    TitleExample();
  }

  /** The worked example: two raw rows from Massachusetts. */
  lemma CleanExample()
    ensures CleanRow(Airport(Some(" boston logan "), "large_airport", "", Some(20), None, "US-MA"))
         == Airport(Some("Boston Logan"), "large_airport", "MA", Some(20), Some("no"), "US-MA")
    ensures CleanRow(Airport(Some("bedford"), "small_airport", "", Some(133), Some("yes"), "US-MA"))
         == Airport(Some("Bedford"), "small_airport", "MA", Some(133), Some("yes"), "US-MA")
  {
    RegionExample();
    NameExample();
  }
}
