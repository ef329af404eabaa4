/** The global-analysis tab (app.py line 104):
    `df.groupby('Año')[['Analfabetas', 'Total_Hombres', 'Total_Mujeres']].mean()`.
    pandas groups by year, sorts the groups by year and averages each
    column over its non-NaN values only; a group with no value in a column
    gets NaN there. */
module Aggregates {
  import opened Records

  /** The three averaged columns. */
  datatype Field = Illiterate | Men | Women

  function FieldOf(r: Record, f: Field): Option<real> {
    match f
    case Illiterate => r.illiterate
    case Men => r.men
    case Women => r.women
  }

  // ---------------------------------------------------------------------
  // Means that skip missing values

  /** Sum of the present values. */
  function Sum(vs: seq<Option<real>>): real {
    if vs == [] then 0.0 else (if vs[0].Some? then vs[0].value else 0.0) + Sum(vs[1..])
  }

  /** Number of present values. */
  function Present(vs: seq<Option<real>>): nat {
    if vs == [] then 0 else (if vs[0].Some? then 1 else 0) + Present(vs[1..])
  }

  /** pandas' `mean()` with its default `skipna=True`. */
  function Mean(vs: seq<Option<real>>): (r: Option<real>)
    ensures r.None? <==> Present(vs) == 0
    ensures r.Some? ==> r.value * Present(vs) as real == Sum(vs)
  {
    if Present(vs) == 0 then None else Some(Sum(vs) / Present(vs) as real)
  }

  lemma {:induction false} SumPresentAppend(a: seq<Option<real>>, b: seq<Option<real>>)
    ensures Sum(a + b) == Sum(a) + Sum(b)
    ensures Present(a + b) == Present(a) + Present(b)
  {
    if a == [] {
      assert a + b == b;
    } else {
      assert (a + b)[1..] == a[1..] + b;
      SumPresentAppend(a[1..], b);
    }
  }

  /** A field's mean is missing exactly when every value is missing; it is
      never 0 for lack of data. */
  lemma {:induction false} MeanMissingIff(vs: seq<Option<real>>)
    ensures Mean(vs).None? <==> forall i :: 0 <= i < |vs| ==> vs[i].None?
  {
    if vs != [] {
      MeanMissingIff(vs[1..]);
      assert forall i :: 1 <= i < |vs| ==> vs[i] == vs[1..][i - 1];
    }
  }

  /** A missing value anywhere counts in neither the numerator nor the
      denominator: dropping it leaves the mean unchanged. */
  lemma {:induction false} MeanSkipsMissing(a: seq<Option<real>>, b: seq<Option<real>>)
    ensures Mean(a + [None] + b) == Mean(a + b)
  {
    SumPresentAppend(a, [None]);
    SumPresentAppend(a + [None], b);
    SumPresentAppend(a, b);
  }

  lemma {:induction false} SumBounds(vs: seq<Option<real>>, lo: real, hi: real)
    requires forall i :: 0 <= i < |vs| && vs[i].Some? ==> lo <= vs[i].value <= hi
    ensures lo * Present(vs) as real <= Sum(vs) <= hi * Present(vs) as real
  {
    if vs != [] {
      SumBounds(vs[1..], lo, hi);
    }
  }

  /** The mean lies between the least and the greatest present value. */
  lemma {:induction false} MeanBounds(vs: seq<Option<real>>, lo: real, hi: real)
    requires forall i :: 0 <= i < |vs| && vs[i].Some? ==> lo <= vs[i].value <= hi
    ensures Mean(vs).Some? ==> lo <= Mean(vs).value <= hi
  {
    SumBounds(vs, lo, hi);
    if Present(vs) > 0 {
      QuotientBounds(Sum(vs), Present(vs) as real, lo, hi);
    }
  }

  lemma QuotientBounds(s: real, n: real, lo: real, hi: real)
    requires n > 0.0 && lo * n <= s <= hi * n
    ensures lo <= s / n <= hi
  {
    var m := s / n;
    assert m * n == s;
    assert (m - lo) * n >= 0.0;
    assert (hi - m) * n >= 0.0;
  }

  // ---------------------------------------------------------------------
  // Reference definition: the values of one year's group

  /** The values of field f in the rows of year y, in row order. */
  function Values(rows: seq<Record>, y: int, f: Field): seq<Option<real>> {
    if rows == [] then []
    else (if rows[0].year == y then [FieldOf(rows[0], f)] else []) + Values(rows[1..], y, f)
  }

  /** True when some row has year y. */
  predicate HasYear(rows: seq<Record>, y: int) {
    exists i :: 0 <= i < |rows| && rows[i].year == y
  }

  lemma {:induction false} HasYearTail(rows: seq<Record>, y: int)
    requires rows != []
    ensures HasYear(rows, y) <==> rows[0].year == y || HasYear(rows[1..], y)
  {
    if HasYear(rows[1..], y) {
      var i :| 0 <= i < |rows[1..]| && rows[1..][i].year == y;
      assert rows[i + 1].year == y;
    }
    if HasYear(rows, y) && rows[0].year != y {
      var i :| 0 <= i < |rows| && rows[i].year == y;
      assert rows[1..][i - 1].year == y;
    }
  }

  // ---------------------------------------------------------------------
  // The group-by: one pass over the rows, a running (sum, count) per year

  datatype Tally = Tally(sum: real, count: nat)

  datatype Group = Group(illiterate: Tally, men: Tally, women: Tally)

  function TallyOf(g: Group, f: Field): Tally {
    match f
    case Illiterate => g.illiterate
    case Men => g.men
    case Women => g.women
  }

  function AddValue(t: Tally, v: Option<real>): Tally {
    if v.Some? then Tally(t.sum + v.value, t.count + 1) else t
  }

  function AddRow(g: Group, r: Record): Group {
    Group(AddValue(g.illiterate, r.illiterate), AddValue(g.men, r.men), AddValue(g.women, r.women))
  }

  const EmptyGroup := Group(Tally(0.0, 0), Tally(0.0, 0), Tally(0.0, 0))

  /** The running tallies, keyed by year. */
  function Tallies(rows: seq<Record>): map<int, Group> {
    if rows == [] then map[]
    else
      var m := Tallies(rows[1..]);
      var y := rows[0].year;
      m[y := AddRow(if y in m then m[y] else EmptyGroup, rows[0])]
  }

  /** Each year's tally holds the sum and the count of exactly that year's
      present values, and there is a tally for exactly the years that
      occur. */
  lemma {:induction false} TalliesCorrect(rows: seq<Record>, y: int, f: Field)
    ensures y in Tallies(rows) <==> HasYear(rows, y)
    ensures y in Tallies(rows) ==>
      TallyOf(Tallies(rows)[y], f) == Tally(Sum(Values(rows, y, f)), Present(Values(rows, y, f)))
    ensures y !in Tallies(rows) ==> Values(rows, y, f) == []
  {
    if rows != [] {
      TalliesCorrect(rows[1..], y, f);
      HasYearTail(rows, y);
      var head := if rows[0].year == y then [FieldOf(rows[0], f)] else [];
      SumPresentAppend(head, Values(rows[1..], y, f));
    }
  }

  // ---------------------------------------------------------------------
  // The sorted group keys

  predicate Ascending(ys: seq<int>) {
    forall i, j :: 0 <= i < j < |ys| ==> ys[i] < ys[j]
  }

  /** Puts y into an ascending list of distinct years. */
  function InsertYear(y: int, ys: seq<int>): (r: seq<int>)
    requires Ascending(ys)
    ensures Ascending(r)
    ensures forall z :: z in r <==> z == y || z in ys
  {
    if ys == [] then [y]
    else if y < ys[0] then [y] + ys
    else if y == ys[0] then ys
    else
      var rest := InsertYear(y, ys[1..]);
      assert forall k :: 0 <= k < |rest| ==> ys[0] < rest[k] by {
        forall k | 0 <= k < |rest| ensures ys[0] < rest[k] {
          assert rest[k] in rest;
          if rest[k] != y {
            var j :| 0 <= j < |ys[1..]| && ys[1..][j] == rest[k];
            assert ys[j + 1] == rest[k];
          }
        }
      }
      [ys[0]] + rest
  }

  /** The distinct years of the rows, ascending. */
  function SortedYears(rows: seq<Record>): (r: seq<int>)
    ensures Ascending(r)
    ensures forall y :: y in r <==> HasYear(rows, y)
  {
    if rows == [] then []
    else
      var rest := SortedYears(rows[1..]);
      HasYearTailAll(rows);
      InsertYear(rows[0].year, rest)
  }

  lemma HasYearTailAll(rows: seq<Record>)
    requires rows != []
    ensures forall y :: HasYear(rows, y) <==> rows[0].year == y || HasYear(rows[1..], y)
  {
    forall y ensures HasYear(rows, y) <==> rows[0].year == y || HasYear(rows[1..], y) {
      HasYearTail(rows, y);
    }
  }

  // ---------------------------------------------------------------------
  // The result table

  /** One line of the summary: a year and the three means (None is NaN). */
  datatype YearMean = YearMean(year: int, illiterate: Option<real>, men: Option<real>, women: Option<real>)

  function Average(t: Tally): Option<real> {
    if t.count == 0 then None else Some(t.sum / t.count as real)
  }

  function MeanOf(r: YearMean, f: Field): Option<real> {
    match f
    case Illiterate => r.illiterate
    case Men => r.men
    case Women => r.women
  }

  /** `groupby('Año')[...].mean().reset_index()`: one line per distinct
      year, in ascending year order, and each mean taken over the
      non-missing values of that year's rows only. */
  function YearlyMeans(rows: seq<Record>): (r: seq<YearMean>)
    ensures forall i, j :: 0 <= i < j < |r| ==> r[i].year < r[j].year
    ensures forall y :: HasYear(rows, y) <==> exists i :: 0 <= i < |r| && r[i].year == y
    ensures forall i, f :: 0 <= i < |r| ==> MeanOf(r[i], f) == Mean(Values(rows, r[i].year, f))
  {
    var ys := SortedYears(rows);
    YearsHaveTallies(rows, ys);
    var r := seq(|ys|, i requires 0 <= i < |ys| => Summarise(rows, ys[i]));
    assert forall y :: HasYear(rows, y) ==> exists i :: 0 <= i < |r| && r[i].year == y by {
      forall y | HasYear(rows, y) ensures exists i :: 0 <= i < |r| && r[i].year == y {
        var i :| 0 <= i < |ys| && ys[i] == y;
        assert r[i].year == y;
      }
    }
    r
  }

  /** The summary line of one year, read off its tally. */
  function Summarise(rows: seq<Record>, y: int): (r: YearMean)
    requires y in Tallies(rows)
    ensures r.year == y
    ensures forall f :: MeanOf(r, f) == Mean(Values(rows, y, f))
  {
    var g := Tallies(rows)[y];
    TalliesAll(rows, y);
    YearMean(y, Average(g.illiterate), Average(g.men), Average(g.women))
  }

  lemma TalliesAll(rows: seq<Record>, y: int)
    requires y in Tallies(rows)
    ensures forall f :: Average(TallyOf(Tallies(rows)[y], f)) == Mean(Values(rows, y, f))
  {
    forall f ensures Average(TallyOf(Tallies(rows)[y], f)) == Mean(Values(rows, y, f)) {
      TalliesCorrect(rows, y, f);
    }
  }

  lemma YearsHaveTallies(rows: seq<Record>, ys: seq<int>)
    requires forall y :: y in ys <==> HasYear(rows, y)
    ensures forall i :: 0 <= i < |ys| ==> ys[i] in Tallies(rows)
  {
    forall i | 0 <= i < |ys| ensures ys[i] in Tallies(rows) {
      TalliesCorrect(rows, ys[i], Illiterate);
    }
  }
}
