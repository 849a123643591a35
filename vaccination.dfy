/** The data transformation of CountryWiseDailyVaccination.py: keep four
    countries, average `total_vaccinations_per_hundred` per (date, location),
    pivot to one row per date and one column per country, forward-fill each
    column, and fix the colour and opacity of each country's line.

    Dates are day numbers (any totally ordered encoding of calendar dates);
    the metric is a real number or missing. */
module Vaccination {
  import opened Tables

  type Date = int

  /** One row of the loaded CSV, restricted to the three columns read. */
  datatype Observation = Observation(date: Date, location: string, perHundred: Option<real>)

  /** The four countries plotted, in the order the script lists them. */
  const Countries: seq<string> := ["United States", "Germany", "United Kingdom", "Israel"]

  // ---------------------------------------------------------------------
  // Country filter: keep the rows of the listed countries
  // ---------------------------------------------------------------------

  function KeepCountries(rows: seq<Observation>, countries: seq<string>): (r: seq<Observation>)
    ensures forall i :: 0 <= i < |r| ==> r[i].location in countries
    ensures forall o :: o in r <==> o in rows && o.location in countries
  {
    Filter(rows, (o: Observation) => o.location in countries)
  }

  /** The filter keeps the input order of the rows it keeps. */
  lemma KeepCountriesAppend(a: seq<Observation>, b: seq<Observation>, countries: seq<string>)
    ensures KeepCountries(a + b, countries) == KeepCountries(a, countries) + KeepCountries(b, countries)
  {
    FilterAppend(a, b, (o: Observation) => o.location in countries);
  }

  // ---------------------------------------------------------------------
  // Group mean per (date, location), nulls skipped
  // ---------------------------------------------------------------------

  function Sum(s: seq<real>): real
  {
    if s == [] then 0.0 else Sum(s[..|s| - 1]) + s[|s| - 1]
  }

  /** Arithmetic mean; missing for an empty group (pandas gives NaN). */
  function Mean(s: seq<real>): Option<real>
  {
    if s == [] then None else Some(Sum(s) / (|s| as real))
  }

  /** The non-null metric values of the rows dated `d` at location `c`, in row order. */
  function GroupValues(rows: seq<Observation>, d: Date, c: string): seq<real>
  {
    if rows == [] then []
    else
      var o := rows[|rows| - 1];
      GroupValues(rows[..|rows| - 1], d, c)
        + (if o.date == d && o.location == c && o.perHundred.Some? then [o.perHundred.value] else [])
  }

  /** Some row dated `d` at location `c` carries a value. */
  predicate Reported(rows: seq<Observation>, d: Date, c: string)
  {
    exists i :: 0 <= i < |rows| && rows[i].date == d && rows[i].location == c && rows[i].perHundred.Some?
  }

  /** Some row dated `d` carries a value. */
  predicate ReportedOn(rows: seq<Observation>, d: Date)
  {
    exists i :: 0 <= i < |rows| && rows[i].date == d && rows[i].perHundred.Some?
  }

  /** Some row at location `c` carries a value. */
  predicate ReportedAt(rows: seq<Observation>, c: string)
  {
    exists i :: 0 <= i < |rows| && rows[i].location == c && rows[i].perHundred.Some?
  }

  /** Running sum and count of one group's non-null values. */
  datatype Acc = Acc(sum: real, count: nat)

  /** One pass over the rows accumulating sum and count per (date, location);
      a group with no non-null value never gets an entry, which is what
      pivot_table's default `dropna=True` leaves of an all-NaN group. */
  function Groups(rows: seq<Observation>): map<(Date, string), Acc>
  {
    if rows == [] then map[]
    else
      var g := Groups(rows[..|rows| - 1]);
      var o := rows[|rows| - 1];
      match o.perHundred
      case None => g
      case Some(v) =>
        var key := (o.date, o.location);
        var prev := if key in g then g[key] else Acc(0.0, 0);
        g[key := Acc(prev.sum + v, prev.count + 1)]
  }

  lemma {:induction false} GroupValuesReported(rows: seq<Observation>, d: Date, c: string)
    ensures GroupValues(rows, d, c) != [] <==> Reported(rows, d, c)
  {
    if rows != [] {
      var init := rows[..|rows| - 1];
      GroupValuesReported(init, d, c);
      if Reported(init, d, c) {
        var i :| 0 <= i < |init| && init[i].date == d && init[i].location == c && init[i].perHundred.Some?;
        assert rows[i] == init[i];
      }
      if Reported(rows, d, c) {
        var i :| 0 <= i < |rows| && rows[i].date == d && rows[i].location == c && rows[i].perHundred.Some?;
        if i < |init| { assert init[i] == rows[i]; }
      }
    }
  }

  /** The accumulated entry of each group is the sum and the number of its non-null values. */
  lemma {:induction false} GroupsAgree(rows: seq<Observation>, d: Date, c: string)
    ensures (d, c) in Groups(rows) <==> GroupValues(rows, d, c) != []
    ensures (d, c) in Groups(rows) ==>
      Groups(rows)[(d, c)] == Acc(Sum(GroupValues(rows, d, c)), |GroupValues(rows, d, c)|)
  {
    if rows != [] {
      var init := rows[..|rows| - 1];
      var o := rows[|rows| - 1];
      GroupsAgree(init, d, c);
      var g := Groups(init);
      var vs := GroupValues(init, d, c);
      match o.perHundred {
        case None =>
          assert Groups(rows) == g;
          assert GroupValues(rows, d, c) == vs;
        case Some(v) =>
          var key := (o.date, o.location);
          var prev := if key in g then g[key] else Acc(0.0, 0);
          assert Groups(rows) == g[key := Acc(prev.sum + v, prev.count + 1)];
          if key == (d, c) {
            var s := vs + [v];
            assert GroupValues(rows, d, c) == s;
            assert s[..|s| - 1] == vs;
          } else {
            assert GroupValues(rows, d, c) == vs;
          }
      }
    }
  }

  // ---------------------------------------------------------------------
  // Pivot: index = sorted dates, one column per location
  // ---------------------------------------------------------------------

  predicate StrictlyAscending(s: seq<Date>)
  {
    forall i, j :: 0 <= i < j < |s| ==> s[i] < s[j]
  }

  /** Adds `x` to a strictly ascending index unless it is already there. */
  function InsertDate(s: seq<Date>, x: Date): (r: seq<Date>)
    requires StrictlyAscending(s)
    ensures StrictlyAscending(r)
    ensures forall y :: y in r <==> y in s || y == x
  {
    if s == [] then [x]
    else if x < s[0] then [x] + s
    else if x == s[0] then s
    else
      var t := InsertDate(s[1..], x);
      assert forall y :: y in s <==> y == s[0] || y in s[1..];
      assert forall k :: 0 <= k < |t| ==> s[0] < t[k] by {
        forall k | 0 <= k < |t| ensures s[0] < t[k] {
          assert t[k] in t;
          if t[k] != x {
            var m :| 0 <= m < |s[1..]| && s[1..][m] == t[k];
            assert s[m + 1] == t[k];
          }
        }
      }
      [s[0]] + t
  }

  /** The pivot's row index: every date on which some row carries a value,
      each once, ascending (a date whose groups are all NaN is dropped). */
  function DateIndex(rows: seq<Observation>): (r: seq<Date>)
    ensures StrictlyAscending(r)
    ensures forall d :: d in r <==> ReportedOn(rows, d)
  {
    if rows == [] then []
    else
      var init := rows[..|rows| - 1];
      var o := rows[|rows| - 1];
      var r := DateIndex(init);
      assert forall i :: 0 <= i < |init| ==> init[i] == rows[i];
      if o.perHundred.Some? then InsertDate(r, o.date) else r
  }

  /** The pivot's columns: every location with at least one value
      (pivot_table drops an all-NaN column). */
  function ReportingLocations(rows: seq<Observation>): set<string>
  {
    set i | 0 <= i < |rows| && rows[i].perHundred.Some? :: rows[i].location
  }

  /** A date-indexed table with one column of cells per location. */
  datatype Pivot = Pivot(dates: seq<Date>, columns: map<string, seq<Option<real>>>)

  /** Every column has one cell per date. */
  predicate WellShaped(p: Pivot)
  {
    forall c :: c in p.columns ==> |p.columns[c]| == |p.dates|
  }

  function Cell(g: map<(Date, string), Acc>, d: Date, c: string): Option<real>
  {
    if (d, c) in g && g[(d, c)].count > 0 then Some(g[(d, c)].sum / (g[(d, c)].count as real)) else None
  }

  /** The pivot: one row per reported date, one column per reporting location,
      each cell the mean of its group. */
  function PivotTable(rows: seq<Observation>): (p: Pivot)
    ensures WellShaped(p)
    ensures StrictlyAscending(p.dates)
    ensures forall d :: d in p.dates <==> ReportedOn(rows, d)
  {
    var g := Groups(rows);
    var dates := DateIndex(rows);
    Pivot(dates, map c | c in ReportingLocations(rows) ::
      seq(|dates|, i requires 0 <= i < |dates| => Cell(g, dates[i], c)))
  }

  /** The pivot has a column exactly for each location that reports some value. */
  lemma PivotColumns(rows: seq<Observation>)
    ensures forall c :: c in PivotTable(rows).columns <==> ReportedAt(rows, c)
  {
    forall c | c in PivotTable(rows).columns ensures ReportedAt(rows, c) {
      assert c in ReportingLocations(rows);
    }
  }

  /** Every cell is the mean of the non-null values of its (date, location)
      group, or null when the group has none. */
  lemma PivotCells(rows: seq<Observation>)
    ensures forall c, i :: c in PivotTable(rows).columns && 0 <= i < |PivotTable(rows).dates| ==>
      PivotTable(rows).columns[c][i] == Mean(GroupValues(rows, PivotTable(rows).dates[i], c))
  {
    var p := PivotTable(rows);
    forall c, i | c in p.columns && 0 <= i < |p.dates|
      ensures p.columns[c][i] == Mean(GroupValues(rows, p.dates[i], c))
    {
      GroupsAgree(rows, p.dates[i], c);
    }
  }

  /** A cell is present exactly when its group reports a value. */
  lemma PivotCellPresent(rows: seq<Observation>, c: string, i: int)
    requires c in PivotTable(rows).columns && 0 <= i < |PivotTable(rows).dates|
    ensures PivotTable(rows).columns[c][i].Some? <==> Reported(rows, PivotTable(rows).dates[i], c)
  {
    PivotCells(rows);
    GroupValuesReported(rows, PivotTable(rows).dates[i], c);
  }

  // ---------------------------------------------------------------------
  // Forward fill of each column
  // ---------------------------------------------------------------------

  /** Replaces each missing cell by the value carried from above, `last`
      being the most recent value seen so far. */
  function FillFrom(col: seq<Option<real>>, last: Option<real>): (r: seq<Option<real>>)
    ensures |r| == |col|
  {
    if col == [] then []
    else
      var v := if col[0].Some? then col[0] else last;
      [v] + FillFrom(col[1..], v)
  }

  /** Forward fill of one column; nothing is carried into the first row. */
  function ForwardFill(col: seq<Option<real>>): (r: seq<Option<real>>)
    ensures |r| == |col|
  {
    FillFrom(col, None)
  }

  /** Reference definition: the last non-null cell of `s`, or null. */
  function LastValue(s: seq<Option<real>>): Option<real>
  {
    if s == [] then None
    else
      var later := LastValue(s[1..]);
      if later.Some? then later else s[0]
  }

  function OrElse(a: Option<real>, b: Option<real>): Option<real>
  {
    if a.Some? then a else b
  }

  /** Each filled cell is the last value at or above it, else the carried value. */
  lemma {:induction false} FillFromAt(col: seq<Option<real>>, last: Option<real>, i: int)
    requires 0 <= i < |col|
    ensures FillFrom(col, last)[i] == OrElse(LastValue(col[..i + 1]), last)
  {
    var v := if col[0].Some? then col[0] else last;
    var pre := col[..i + 1];
    if i == 0 {
      assert pre == [col[0]];
      assert pre[1..] == [];
    } else {
      FillFromAt(col[1..], v, i - 1);
      assert pre[1..] == col[1..][..i];
      assert pre[0] == col[0];
    }
  }

  /** The filled cell at `i` is the most recent non-null cell at or above `i`. */
  lemma FillIsLastValue(col: seq<Option<real>>, i: int)
    requires 0 <= i < |col|
    ensures ForwardFill(col)[i] == LastValue(col[..i + 1])
  {
    FillFromAt(col, None, i);
  }

  lemma {:induction false} LastValueAt(s: seq<Option<real>>, j: int)
    requires 0 <= j < |s| && s[j].Some?
    requires forall k :: j < k < |s| ==> s[k].None?
    ensures LastValue(s) == s[j]
  {
    if j > 0 {
      LastValueAt(s[1..], j - 1);
    } else {
      LastValueNone(s[1..]);
    }
  }

  lemma {:induction false} LastValueNone(s: seq<Option<real>>)
    ensures LastValue(s).None? <==> forall k :: 0 <= k < |s| ==> s[k].None?
  {
    if s != [] {
      LastValueNone(s[1..]);
      assert forall k :: 0 < k < |s| ==> s[k] == s[1..][k - 1];
    }
  }

  /** A cell with a value at row j, followed only by missing cells down to row i,
      fills row i with that value (j == i: a present cell is kept). */
  lemma FillMostRecent(col: seq<Option<real>>, j: int, i: int)
    requires 0 <= j <= i < |col| && col[j].Some?
    requires forall k :: j < k <= i ==> col[k].None?
    ensures ForwardFill(col)[i] == col[j]
  {
    FillIsLastValue(col, i);
    LastValueAt(col[..i + 1], j);
  }

  /** Forward fill never changes a cell that has a value. */
  lemma FillKeepsValues(col: seq<Option<real>>, i: int)
    requires 0 <= i < |col| && col[i].Some?
    ensures ForwardFill(col)[i] == col[i]
  {
    FillMostRecent(col, i, i);
  }

  /** Missing cells above a column's first value stay missing (no back-fill). */
  lemma FillLeadingNulls(col: seq<Option<real>>, i: int)
    requires 0 <= i < |col|
    requires forall k :: 0 <= k <= i ==> col[k].None?
    ensures ForwardFill(col)[i].None?
  {
    FillIsLastValue(col, i);
    LastValueNone(col[..i + 1]);
  }

  /** Once a column has had a value, no later cell is missing after the fill. */
  lemma FillNoGaps(col: seq<Option<real>>, j: int, i: int)
    requires 0 <= j <= i < |col| && col[j].Some?
    ensures ForwardFill(col)[i].Some?
  {
    FillIsLastValue(col, i);
    LastValueNone(col[..i + 1]);
    assert col[..i + 1][j] == col[j];
  }

  lemma {:induction false} FillFromIdempotent(col: seq<Option<real>>, last: Option<real>)
    ensures FillFrom(FillFrom(col, last), last) == FillFrom(col, last)
  {
    if col != [] {
      var v := if col[0].Some? then col[0] else last;
      var r := FillFrom(col, last);
      assert r == [v] + FillFrom(col[1..], v);
      assert r[0] == v && r[1..] == FillFrom(col[1..], v);
      FillFromIdempotent(col[1..], v);
      var w := if r[0].Some? then r[0] else last;
      assert w == v;
    }
  }

  /** Filling an already filled column changes nothing. */
  lemma FillIdempotent(col: seq<Option<real>>)
    ensures ForwardFill(ForwardFill(col)) == ForwardFill(col)
  {
    FillFromIdempotent(col, None);
  }

  /** Forward fill of the whole pivot: each column filled on its own. */
  function FillPivot(p: Pivot): (q: Pivot)
    ensures q.dates == p.dates && q.columns.Keys == p.columns.Keys
    ensures forall c :: c in q.columns ==> |q.columns[c]| == |p.columns[c]|
  {
    Pivot(p.dates, map c | c in p.columns :: ForwardFill(p.columns[c]))
  }

  /** Filling the whole table twice is filling it once. */
  lemma FillPivotIdempotent(p: Pivot)
    ensures FillPivot(FillPivot(p)) == FillPivot(p)
  {
    var q := FillPivot(p);
    forall c | c in q.columns ensures ForwardFill(q.columns[c]) == q.columns[c] {
      FillIdempotent(p.columns[c]);
    }
    assert FillPivot(q).columns == q.columns;
  }

  // ---------------------------------------------------------------------
  // The whole transformation and what the plotting loop needs of it
  // ---------------------------------------------------------------------

  function VaccinationTable(rows: seq<Observation>): Pivot
  {
    FillPivot(PivotTable(KeepCountries(rows, Countries)))
  }

  /** The plotting loop reads `pivot[country]` for every listed country. */
  predicate Plottable(p: Pivot, countries: seq<string>)
  {
    forall c :: c in countries ==> c in p.columns
  }

  /** The filled table has a column exactly for each listed country that
      reports some value, and every column still has one cell per date. */
  lemma VaccinationColumns(rows: seq<Observation>)
    ensures WellShaped(VaccinationTable(rows))
    ensures forall c :: c in VaccinationTable(rows).columns <==> c in Countries && ReportedAt(rows, c)
  {
    var kept := KeepCountries(rows, Countries);
    PivotColumns(kept);
    forall c ensures ReportedAt(kept, c) <==> c in Countries && ReportedAt(rows, c) {
      KeptReportedAt(rows, Countries, c);
    }
  }

  /** After the country filter a location reports a value exactly when it is
      listed and reported one before. */
  lemma KeptReportedAt(rows: seq<Observation>, countries: seq<string>, c: string)
    ensures ReportedAt(KeepCountries(rows, countries), c) <==> c in countries && ReportedAt(rows, c)
  {
    var kept := KeepCountries(rows, countries);
    if ReportedAt(kept, c) {
      var k :| 0 <= k < |kept| && kept[k].location == c && kept[k].perHundred.Some?;
      assert kept[k] in rows;
      var i :| 0 <= i < |rows| && rows[i] == kept[k];
    }
    if c in countries && ReportedAt(rows, c) {
      var i :| 0 <= i < |rows| && rows[i].location == c && rows[i].perHundred.Some?;
      assert rows[i] in kept;
      var k :| 0 <= k < |kept| && kept[k] == rows[i];
    }
  }

  /** The filled table keeps the pivot's strictly ascending dates, and each of
      its cells holds the most recent pivot value at or above it. */
  lemma VaccinationCells(rows: seq<Observation>)
    ensures StrictlyAscending(VaccinationTable(rows).dates)
    ensures forall c, i :: c in VaccinationTable(rows).columns && 0 <= i < |VaccinationTable(rows).dates| ==>
      VaccinationTable(rows).columns[c][i] == LastValue(PivotTable(KeepCountries(rows, Countries)).columns[c][..i + 1])
  {
    var p := PivotTable(KeepCountries(rows, Countries));
    var q := VaccinationTable(rows);
    forall c, i | c in q.columns && 0 <= i < |q.dates|
      ensures q.columns[c][i] == LastValue(p.columns[c][..i + 1])
    {
      FillIsLastValue(p.columns[c], i);
    }
  }

  /** Line 46 reads `pivot[country]` for all four countries: it succeeds
      exactly when each of them reports at least one value. */
  lemma PlottableIff(rows: seq<Observation>)
    ensures Plottable(VaccinationTable(rows), Countries) <==> forall c :: c in Countries ==> ReportedAt(rows, c)
  {
    VaccinationColumns(rows);
  }

  // ---------------------------------------------------------------------
  // Line colours and opacities
  // ---------------------------------------------------------------------

  const Highlighted := "United States"
  const HighlightColor := "#129583"
  const MutedColor := "grey"
  const HighlightAlpha := 1.0
  const MutedAlpha := 0.75

  /** The line colour of each listed country: the highlight colour for the
      highlighted country, the muted colour for every other one. */
  function Colors(countries: seq<string>, highlight: string): (m: map<string, string>)
    ensures m.Keys == set c | c in countries
    ensures highlight in countries ==> m[highlight] == HighlightColor
    ensures forall c :: c in m && c != highlight ==> m[c] == MutedColor
  {
    map c | c in countries :: if c != highlight then MutedColor else HighlightColor
  }

  /** The line opacity of each listed country: full for the highlighted
      country, reduced for every other one. */
  function Alphas(countries: seq<string>, highlight: string): (m: map<string, real>)
    ensures m.Keys == set c | c in countries
    ensures highlight in countries ==> m[highlight] == HighlightAlpha
    ensures forall c :: c in m && c != highlight ==> m[c] == MutedAlpha
  {
    map c | c in countries :: if c != highlight then MutedAlpha else HighlightAlpha
  }

  /** The script's maps: four keys; the United States line stands out. */
  lemma ScriptStyles()
    ensures Colors(Countries, Highlighted).Keys == {"United States", "Germany", "United Kingdom", "Israel"}
    ensures |Colors(Countries, Highlighted).Keys| == 4
    ensures Alphas(Countries, Highlighted).Keys == Colors(Countries, Highlighted).Keys
    ensures Colors(Countries, Highlighted)["United States"] == "#129583"
    ensures Alphas(Countries, Highlighted)["United States"] == 1.0
    ensures forall c :: c in Colors(Countries, Highlighted) && c != "United States" ==>
      Colors(Countries, Highlighted)[c] == "grey" && Alphas(Countries, Highlighted)[c] == 0.75
  {
    var keys := {"United States", "Germany", "United Kingdom", "Israel"};
    assert (set c | c in Countries) == keys by {
      forall c | c in keys ensures c in Countries {
        if c == "United States" { assert Countries[0] == c; }
        else if c == "Germany" { assert Countries[1] == c; }
        else if c == "United Kingdom" { assert Countries[2] == c; }
        else { assert Countries[3] == c; }
      }
    }
    assert |keys| == 4 by {
      assert "United States" != "Germany";
    }
  }

  // ---------------------------------------------------------------------
  // Worked examples
  // ---------------------------------------------------------------------

  /** Germany reports on days 1 and 3 and has a null on day 2. */
  const GapRows := [Observation(1, "Germany", Some(1.0)), Observation(2, "Germany", None),
                    Observation(3, "Germany", Some(3.0))]

  lemma GapRowsKept()
    ensures KeepCountries(GapRows, Countries) == GapRows
  {
  }

  lemma GapRowsDates()
    ensures DateIndex(GapRows) == [1, 3]
  {
    assert GapRows[..1] == [GapRows[0]];
    assert DateIndex(GapRows[..1]) == [1];
    assert GapRows[..2][..1] == GapRows[..1];
    assert DateIndex(GapRows[..2]) == [1];
    assert InsertDate([1], 3) == [1, 3];
  }

  lemma GapRowsGroups()
    ensures Groups(GapRows) == map[(1, "Germany") := Acc(1.0, 1), (3, "Germany") := Acc(3.0, 1)]
  {
    assert Groups(GapRows[..1]) == map[(1, "Germany") := Acc(1.0, 1)];
    assert Groups(GapRows[..2]) == map[(1, "Germany") := Acc(1.0, 1)];
  }

  lemma GapRowsPivot()
    ensures PivotTable(GapRows) == Pivot([1, 3], map["Germany" := [Some(1.0), Some(3.0)]])
  {
    GapRowsDates();
    GapRowsGroups();
    assert ReportingLocations(GapRows) == {"Germany"} by {
      assert GapRows[0].location == "Germany";
    }
    var p := PivotTable(GapRows);
    assert p.columns.Keys == {"Germany"};
    assert p.columns["Germany"] == [Some(1.0), Some(3.0)];
    assert p.columns == map["Germany" := [Some(1.0), Some(3.0)]];
  }

  /** A null reading on a day no other country reports removes that day from
      the index altogether, so there is no row left for the fill to complete. */
  lemma GapDayDropped()
    ensures VaccinationTable(GapRows) == Pivot([1, 3], map["Germany" := [Some(1.0), Some(3.0)]])
  {
    GapRowsKept();
    GapRowsPivot();
    GapPivotFilled();
  }

  lemma GapPivotFilled()
    ensures FillPivot(Pivot([1, 3], map["Germany" := [Some(1.0), Some(3.0)]]))
         == Pivot([1, 3], map["Germany" := [Some(1.0), Some(3.0)]])
  {
    var col := [Some(1.0), Some(3.0)];
    FillKeepsValues(col, 0);
    FillKeepsValues(col, 1);
    assert ForwardFill(col) == col;
  }

  /** The same readings with Israel reporting on day 2. */
  const BridgedRows := [Observation(1, "Germany", Some(1.0)), Observation(2, "Germany", None),
                        Observation(2, "Israel", Some(2.0)), Observation(3, "Germany", Some(3.0))]

  lemma BridgedRowsKept()
    ensures KeepCountries(BridgedRows, Countries) == BridgedRows
  {
  }

  lemma BridgedRowsDates()
    ensures DateIndex(BridgedRows) == [1, 2, 3]
  {
    BridgedRowsEarlyDates();
    assert BridgedRows[..|BridgedRows| - 1] == BridgedRows[..3];
    assert InsertDate([2], 3) == [2, 3];
    assert InsertDate([1, 2], 3) == [1, 2, 3];
  }

  lemma BridgedRowsEarlyDates()
    ensures DateIndex(BridgedRows[..3]) == [1, 2]
  {
    assert BridgedRows[..1] == [BridgedRows[0]];
    assert DateIndex(BridgedRows[..1]) == [1];
    assert BridgedRows[..2][..1] == BridgedRows[..1];
    assert DateIndex(BridgedRows[..2]) == [1];
    assert BridgedRows[..3][..2] == BridgedRows[..2];
    assert InsertDate([1], 2) == [1, 2];
  }

  lemma BridgedRowsGroups()
    ensures Groups(BridgedRows) ==
      map[(1, "Germany") := Acc(1.0, 1), (2, "Israel") := Acc(2.0, 1), (3, "Germany") := Acc(3.0, 1)]
  {
    assert BridgedRows[..2][..1] == BridgedRows[..1];
    assert BridgedRows[..3][..2] == BridgedRows[..2];
    assert Groups(BridgedRows[..1]) == map[(1, "Germany") := Acc(1.0, 1)];
    assert Groups(BridgedRows[..2]) == map[(1, "Germany") := Acc(1.0, 1)];
    assert Groups(BridgedRows[..3]) == map[(1, "Germany") := Acc(1.0, 1), (2, "Israel") := Acc(2.0, 1)];
  }

  lemma BridgedRowsPivot()
    ensures "Germany" in PivotTable(BridgedRows).columns
    ensures PivotTable(BridgedRows).columns["Germany"] == [Some(1.0), None, Some(3.0)]
  {
    BridgedRowsDates();
    BridgedRowsGroups();
    assert "Germany" in ReportingLocations(BridgedRows) by {
      assert BridgedRows[0].location == "Germany";
    }
    var g := Groups(BridgedRows);
    assert Cell(g, 1, "Germany") == Some(1.0);
    assert Cell(g, 2, "Germany") == None;
    assert Cell(g, 3, "Germany") == Some(3.0);
  }

  /** When another country reports on the gap day, the day stays in the index
      and the fill carries Germany's day-1 value into it. */
  lemma GapDayFilled()
    ensures VaccinationTable(BridgedRows).columns["Germany"] == [Some(1.0), Some(1.0), Some(3.0)]
  {
    BridgedRowsKept();
    BridgedRowsPivot();
    var p := PivotTable(BridgedRows);
    assert VaccinationTable(BridgedRows) == FillPivot(p);
    assert FillPivot(p).columns["Germany"] == ForwardFill([Some(1.0), None, Some(3.0)]);
    BridgedColumnFilled();
  }

  lemma BridgedColumnFilled()
    ensures ForwardFill([Some(1.0), None, Some(3.0)]) == [Some(1.0), Some(1.0), Some(3.0)]
  {
  }
}
