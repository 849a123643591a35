/** The data transformation of plagiarism1.py: select the 2007 rows of Asia
    from the gapminder table, relabel every country under two million people
    as "Other countries" in place, and let the pie chart sum `pop` per country label. */
module Population {
  import opened Tables

  /** One gapminder row, restricted to the columns the script uses. */
  datatype Row = Row(country: string, continent: string, year: int, pop: nat)

  const Year := 2007
  const Continent := "Asia"
  /** Two million; populations are whole numbers, so the float comparison is this integer one. */
  const Threshold := 2000000
  const OtherLabel := "Other countries"

  // ---------------------------------------------------------------------
  // Selection of the rows of one year, then of one continent
  // ---------------------------------------------------------------------

  function SelectYear(rows: seq<Row>, year: int): (r: seq<Row>)
    ensures forall i :: 0 <= i < |r| ==> r[i].year == year
    ensures forall x :: x in r <==> x in rows && x.year == year
  {
    Filter(rows, (x: Row) => x.year == year)
  }

  function SelectContinent(rows: seq<Row>, continent: string): (r: seq<Row>)
    ensures forall i :: 0 <= i < |r| ==> r[i].continent == continent
    ensures forall x :: x in r <==> x in rows && x.continent == continent
  {
    Filter(rows, (x: Row) => x.continent == continent)
  }

  function Asia2007(rows: seq<Row>): (r: seq<Row>)
    ensures forall i :: 0 <= i < |r| ==> r[i].year == Year && r[i].continent == Continent
    ensures forall x :: x in r <==> x in rows && x.year == Year && x.continent == Continent
  {
    SelectContinent(SelectYear(rows, Year), Continent)
  }

  /** The two chained queries are one selection that keeps row order. */
  lemma Asia2007InOrder(a: seq<Row>, b: seq<Row>)
    ensures Asia2007(a) == Filter(a, (x: Row) => x.year == Year && x.continent == Continent)
    ensures Asia2007(a + b) == Asia2007(a) + Asia2007(b)
  {
    var py := (x: Row) => x.year == Year;
    var pc := (x: Row) => x.continent == Continent;
    var both := (x: Row) => x.year == Year && x.continent == Continent;
    FilterFilter(a, py, pc, both);
    FilterFilter(b, py, pc, both);
    FilterFilter(a + b, py, pc, both);
    FilterAppend(a, b, both);
  }

  // ---------------------------------------------------------------------
  // Relabelling of the countries under the population threshold
  // ---------------------------------------------------------------------

  function Relabel(x: Row): Row
  {
    if x.pop < Threshold then x.(country := OtherLabel) else x
  }

  /** The table after the masked assignment: row i is row i of `s` relabelled.
      Only the country of small rows changes; count, order, pop, year and
      continent are kept. */
  function Relabeled(s: seq<Row>): (r: seq<Row>)
    ensures |r| == |s|
    ensures forall i :: 0 <= i < |s| ==>
      r[i].pop == s[i].pop && r[i].year == s[i].year && r[i].continent == s[i].continent
    ensures forall i :: 0 <= i < |s| && s[i].pop < Threshold ==> r[i].country == OtherLabel
    ensures forall i :: 0 <= i < |s| && s[i].pop >= Threshold ==> r[i] == s[i]
  {
    seq(|s|, i requires 0 <= i < |s| => Relabel(s[i]))
  }

  /** Relabelling an already relabelled table changes nothing. */
  lemma RelabelIdempotent(s: seq<Row>)
    ensures Relabeled(Relabeled(s)) == Relabeled(s)
  {
  }

  /** The in-place masked assignment: the mask is read from the rows as they
      were, then every masked row gets the new country. */
  method RelabelSmall(a: array<Row>)
    modifies a
    ensures a[..] == Relabeled(old(a[..]))
    ensures forall i :: 0 <= i < a.Length ==>
      a[i].pop == old(a[i].pop) && a[i].year == old(a[i].year) && a[i].continent == old(a[i].continent)
    ensures forall i :: 0 <= i < a.Length ==>
      a[i].country == (if old(a[i].pop) < Threshold then OtherLabel else old(a[i].country))
  {
    forall i | 0 <= i < a.Length && a[i].pop < Threshold {
      a[i] := a[i].(country := OtherLabel);
    }
    assert forall i :: 0 <= i < a.Length ==> a[i] == Relabel(old(a[i]));
  }

  // ---------------------------------------------------------------------
  // The pie: one slice per country label, sized by summed population
  // ---------------------------------------------------------------------

  /** One pie slice: a label and the summed pop of its rows. */
  datatype Slice = Slice(name: string, total: int)

  function TotalPop(rows: seq<Row>): int
  {
    if rows == [] then 0 else TotalPop(rows[..|rows| - 1]) + rows[|rows| - 1].pop
  }

  /** Summed pop of the rows whose country is `name`. */
  function LabelPop(rows: seq<Row>, name: string): int
  {
    if rows == [] then 0
    else LabelPop(rows[..|rows| - 1], name) + (if rows[|rows| - 1].country == name then rows[|rows| - 1].pop else 0)
  }

  function SliceSum(sl: seq<Slice>): int
  {
    if sl == [] then 0 else sl[0].total + SliceSum(sl[1..])
  }

  /** Sum of the totals of the slices called `name` (at most one, see Distinct). */
  function SliceTotal(sl: seq<Slice>, name: string): int
  {
    if sl == [] then 0 else (if sl[0].name == name then sl[0].total else 0) + SliceTotal(sl[1..], name)
  }

  /** The names of the slices. */
  function Names(sl: seq<Slice>): set<string>
  {
    set i | 0 <= i < |sl| :: sl[i].name
  }

  /** The country labels that occur in the rows. */
  function Labels(rows: seq<Row>): set<string>
  {
    set i | 0 <= i < |rows| :: rows[i].country
  }

  predicate Distinct(sl: seq<Slice>)
  {
    forall i, j :: 0 <= i < j < |sl| ==> sl[i].name != sl[j].name
  }

  /** Adds `pop` to the slice called `name`, opening a slice at the end if there is none. */
  function AddTo(sl: seq<Slice>, name: string, pop: int): seq<Slice>
  {
    if sl == [] then [Slice(name, pop)]
    else if sl[0].name == name then [Slice(name, sl[0].total + pop)] + sl[1..]
    else [sl[0]] + AddTo(sl[1..], name, pop)
  }

  lemma NamesCons(sl: seq<Slice>)
    requires sl != []
    ensures Names(sl) == {sl[0].name} + Names(sl[1..])
  {
  }

  lemma DistinctCons(sl: seq<Slice>)
    requires sl != []
    ensures Distinct(sl) <==> sl[0].name !in Names(sl[1..]) && Distinct(sl[1..])
  {
  }

  /** Adding to the slices keeps one slice per name, adds `name` to the names,
      and adds `pop` to the whole and to exactly the slice called `name`. */
  lemma {:induction false} AddToSpec(sl: seq<Slice>, name: string, pop: int)
    requires Distinct(sl)
    ensures Distinct(AddTo(sl, name, pop))
    ensures Names(AddTo(sl, name, pop)) == Names(sl) + {name}
    ensures SliceSum(AddTo(sl, name, pop)) == SliceSum(sl) + pop
    ensures forall l :: SliceTotal(AddTo(sl, name, pop), l) == SliceTotal(sl, l) + (if l == name then pop else 0)
  {
    var r := AddTo(sl, name, pop);
    if sl == [] {
      assert Names(r) == {name} by { NamesCons(r); }
    } else {
      DistinctCons(sl);
      NamesCons(sl);
      NamesCons(r);
      if sl[0].name == name {
        assert r[0] == Slice(name, sl[0].total + pop) && r[1..] == sl[1..];
        DistinctCons(r);
      } else {
        AddToSpec(sl[1..], name, pop);
        assert r[0] == sl[0] && r[1..] == AddTo(sl[1..], name, pop);
        DistinctCons(r);
      }
    }
  }

  /** The slices of the pie, in order of each label's first row. */
  function Slices(rows: seq<Row>): seq<Slice>
  {
    if rows == [] then []
    else
      var x := rows[|rows| - 1];
      AddTo(Slices(rows[..|rows| - 1]), x.country, x.pop)
  }

  lemma LabelsSnoc(rows: seq<Row>)
    requires rows != []
    ensures Labels(rows) == Labels(rows[..|rows| - 1]) + {rows[|rows| - 1].country}
  {
  }

  /** One slice per label present, each holding that label's summed pop; the
      slices together hold the whole population. */
  lemma {:induction false} SlicesSpec(rows: seq<Row>)
    ensures Distinct(Slices(rows))
    ensures Names(Slices(rows)) == Labels(rows)
    ensures forall l :: SliceTotal(Slices(rows), l) == LabelPop(rows, l)
    ensures SliceSum(Slices(rows)) == TotalPop(rows)
  {
    if rows != [] {
      var init := rows[..|rows| - 1];
      var x := rows[|rows| - 1];
      SlicesSpec(init);
      AddToSpec(Slices(init), x.country, x.pop);
      LabelsSnoc(rows);
    }
  }

  /** With distinct labels, a slice's total is the summed pop of that label. */
  lemma {:induction false} SliceTotalAt(sl: seq<Slice>, i: int)
    requires Distinct(sl) && 0 <= i < |sl|
    ensures SliceTotal(sl, sl[i].name) == sl[i].total
  {
    if i == 0 {
      SliceTotalAbsent(sl[1..], sl[0].name);
    } else {
      SliceTotalAt(sl[1..], i - 1);
    }
  }

  lemma {:induction false} SliceTotalAbsent(sl: seq<Slice>, l: string)
    requires forall i :: 0 <= i < |sl| ==> sl[i].name != l
    ensures SliceTotal(sl, l) == 0
  {
    if sl != [] {
      SliceTotalAbsent(sl[1..], l);
    }
  }

  /** Every slice of the relabelled table holds the summed pop of its label. */
  lemma SliceIsLabelPop(rows: seq<Row>, i: int)
    requires 0 <= i < |Slices(rows)|
    ensures Slices(rows)[i].total == LabelPop(rows, Slices(rows)[i].name)
  {
    SlicesSpec(rows);
    SliceTotalAt(Slices(rows), i);
  }

  /** Summed pop of the rows that end up in the "Other countries" slice:
      the small ones, and any row already carrying that label. */
  function OtherPop(rows: seq<Row>): int
  {
    if rows == [] then 0
    else
      var x := rows[|rows| - 1];
      OtherPop(rows[..|rows| - 1]) + (if x.pop < Threshold || x.country == OtherLabel then x.pop else 0)
  }

  /** Summed pop of the rows of country `name` that are not small. */
  function LargePop(rows: seq<Row>, name: string): int
  {
    if rows == [] then 0
    else
      var x := rows[|rows| - 1];
      LargePop(rows[..|rows| - 1], name) + (if x.pop >= Threshold && x.country == name then x.pop else 0)
  }

  lemma {:induction false} RelabeledPrefix(rows: seq<Row>)
    requires rows != []
    ensures Relabeled(rows)[..|rows| - 1] == Relabeled(rows[..|rows| - 1])
    ensures Relabeled(rows)[|rows| - 1] == Relabel(rows[|rows| - 1])
  {
  }

  /** After the relabel, the label "Other countries" carries the pop of the
      small rows (plus any row so named already), and every other label the
      pop of its own rows of at least two million. */
  lemma {:induction false} RelabeledLabelPop(rows: seq<Row>, l: string)
    ensures LabelPop(Relabeled(rows), l) == (if l == OtherLabel then OtherPop(rows) else LargePop(rows, l))
  {
    if rows != [] {
      RelabeledPrefix(rows);
      RelabeledLabelPop(rows[..|rows| - 1], l);
      var r := Relabeled(rows);
      assert r[..|r| - 1] == Relabeled(rows[..|rows| - 1]);
    }
  }

  lemma {:induction false} TotalPopRelabeled(rows: seq<Row>)
    ensures TotalPop(Relabeled(rows)) == TotalPop(rows)
  {
    if rows != [] {
      RelabeledPrefix(rows);
      TotalPopRelabeled(rows[..|rows| - 1]);
    }
  }

  /** The pie of the relabelled rows: slices sum to the total population, the
      "Other countries" slice holds the small rows' pop, each named slice the
      pop of its country's rows of at least two million. */
  lemma PieOfRelabeled(rows: seq<Row>)
    ensures SliceSum(Slices(Relabeled(rows))) == TotalPop(rows)
    ensures SliceTotal(Slices(Relabeled(rows)), OtherLabel) == OtherPop(rows)
    ensures forall l :: l != OtherLabel ==> SliceTotal(Slices(Relabeled(rows)), l) == LargePop(rows, l)
  {
    SlicesSpec(Relabeled(rows));
    TotalPopRelabeled(rows);
    RelabeledLabelPop(rows, OtherLabel);
    forall l | l != OtherLabel ensures SliceTotal(Slices(Relabeled(rows)), l) == LargePop(rows, l) {
      RelabeledLabelPop(rows, l);
    }
  }

  /** When every row is small the pie is one "Other countries" slice holding
      the whole population. */
  lemma {:induction false} AllSmall(rows: seq<Row>)
    requires rows != []
    requires forall i :: 0 <= i < |rows| ==> rows[i].pop < Threshold
    ensures Slices(Relabeled(rows)) == [Slice(OtherLabel, TotalPop(rows))]
  {
    var init := rows[..|rows| - 1];
    RelabeledPrefix(rows);
    if init == [] {
      assert Relabeled(rows)[..0] == [];
    } else {
      AllSmall(init);
    }
  }

  // ---------------------------------------------------------------------
  // The script
  // ---------------------------------------------------------------------

  /** Some 2007 row of Asia names `country` and has at least two million people. */
  predicate LargeAsian2007(gapminder: seq<Row>, country: string)
  {
    exists x :: x in gapminder && x.year == Year && x.continent == Continent &&
      x.pop >= Threshold && x.country == country
  }

  /** Lines 2-4: select, copy into a table, relabel in place, slice the pie. */
  method PopulationPie(gapminder: seq<Row>) returns (slices: seq<Slice>)
    ensures Distinct(slices)
    ensures SliceSum(slices) == TotalPop(Asia2007(gapminder))
    ensures SliceTotal(slices, OtherLabel) == OtherPop(Asia2007(gapminder))
    ensures forall l :: l != OtherLabel ==> SliceTotal(slices, l) == LargePop(Asia2007(gapminder), l)
    ensures forall i :: 0 <= i < |slices| && slices[i].name != OtherLabel ==> LargeAsian2007(gapminder, slices[i].name)
  {
    var selected := Asia2007(gapminder);
    var df := new Row[|selected|](i requires 0 <= i < |selected| => selected[i]);
    assert df[..] == selected;
    RelabelSmall(df);
    slices := Slices(df[..]);
    PieOfRelabeled(selected);
    SlicesSpec(df[..]);
    forall i | 0 <= i < |slices| && slices[i].name != OtherLabel
      ensures LargeAsian2007(gapminder, slices[i].name)
    {
      assert slices[i].name in Names(slices);
      var k :| 0 <= k < |df[..]| && df[..][k].country == slices[i].name;
      assert selected[k] in gapminder;
    }
  }

  // ---------------------------------------------------------------------
  // Worked example
  // ---------------------------------------------------------------------

  /** China stays a slice of its own; Bhutan goes to "Other countries". */
  lemma ChinaBhutan()
    ensures Slices(Relabeled([Row("China", "Asia", 2007, 1300000000), Row("Bhutan", "Asia", 2007, 700000)]))
         == [Slice("China", 1300000000), Slice(OtherLabel, 700000)]
  {
    var rows := [Row("China", "Asia", 2007, 1300000000), Row("Bhutan", "Asia", 2007, 700000)];
    var r := Relabeled(rows);
    assert r == [Row("China", "Asia", 2007, 1300000000), Row(OtherLabel, "Asia", 2007, 700000)];
    assert r[..1] == [r[0]];
    assert Slices(r[..1]) == [Slice("China", 1300000000)];
    assert AddTo([Slice("China", 1300000000)], OtherLabel, 700000)
        == [Slice("China", 1300000000), Slice(OtherLabel, 700000)];
  }
}
