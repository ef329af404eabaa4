/** The three chart callbacks that read the table (app.py lines 200-262):
    the per-country series, the top five countries of a year and the
    literate/illiterate share of one country in one year. Plot building is
    outside the model; each callback here returns the data it plots. */
module Queries {
  import opened Records

  // ---------------------------------------------------------------------
  // actualizar_grafico_pais (lines 200-206)

  /** `df[df['País'] == pais]`: that country's rows, in row order. */
  function CountryRows(rows: seq<Record>, country: string): (r: seq<Record>)
    ensures forall x :: x in r <==> x in rows && x.country == country
  {
    SelectMembers(rows, (r: Record) => r.country == country);
    Select(rows, (r: Record) => r.country == country)
  }

  /** The country chart's data: no update for an empty or missing
      selection, otherwise exactly the rows of that country, in the order
      of the table (the callback does not sort them by year). */
  function CountrySeries(rows: seq<Record>, pais: Option<string>): (r: Update<seq<Record>>)
    ensures r.Prevent? <==> !TruthyText(pais)
    ensures r.Emit? ==> r.value == CountryRows(rows, pais.value)
    ensures r.Emit? ==> forall x :: x in r.value <==> x in rows && x.country == pais.value
    ensures r.Emit? ==> (r.value == [] <==> forall i :: 0 <= i < |rows| ==> rows[i].country != pais.value)
  {
    if !TruthyText(pais) then Prevent
    else
      SelectEmptyIff(rows, (r: Record) => r.country == pais.value);
      SelectMembers(rows, (r: Record) => r.country == pais.value);
      Emit(CountryRows(rows, pais.value))
  }

  /** The country series keeps table order: the rows taken from a block
      of the table come before those taken from the block after it. */
  lemma CountryRowsAppend(a: seq<Record>, b: seq<Record>, country: string)
    ensures CountryRows(a + b, country) == CountryRows(a, country) + CountryRows(b, country)
  {
    SelectAppend(a, b, (r: Record) => r.country == country);
  }

  // ---------------------------------------------------------------------
  // actualizar_grafico_top5 (lines 214-222): nlargest(5, 'Analfabetas')

  /** The ranking key of a row; only rows with a present count are ranked. */
  function Count(r: Record): real {
    if r.illiterate.Some? then r.illiterate.value else 0.0
  }

  predicate NonIncreasing(s: seq<Record>) {
    forall i, j :: 0 <= i < j < |s| ==> Count(s[j]) <= Count(s[i])
  }

  /** The rows of year y whose count `nlargest` ranks: those with a present
      count, in row order. */
  function Eligible(rows: seq<Record>, y: int): (r: seq<Record>)
    ensures forall x :: x in r <==> x in rows && x.year == y && x.illiterate.Some?
  {
    SelectMembers(rows, (r: Record) => r.year == y && r.illiterate.Some?);
    Select(rows, (r: Record) => r.year == y && r.illiterate.Some?)
  }

  /** The counted rows keep table order: those of a block of the table
      come before those of the block after it. */
  lemma EligibleAppend(a: seq<Record>, b: seq<Record>, y: int)
    ensures Eligible(a + b, y) == Eligible(a, y) + Eligible(b, y)
  {
    SelectAppend(a, b, (r: Record) => r.year == y && r.illiterate.Some?);
  }

  /** Places x in a non-increasing list before the first element whose
      count does not exceed x's. */
  function InsertDesc(x: Record, s: seq<Record>): (r: seq<Record>)
    requires NonIncreasing(s)
    ensures |r| == |s| + 1
    ensures NonIncreasing(r)
    ensures r[0] == x || (s != [] && r[0] == s[0])
  {
    if s == [] || Count(s[0]) <= Count(x) then [x] + s
    else
      var rest := InsertDesc(x, s[1..]);
      assert Count(rest[0]) <= Count(s[0]);
      [s[0]] + rest
  }

  lemma {:induction false} InsertDescPerm(x: Record, s: seq<Record>)
    requires NonIncreasing(s)
    ensures multiset(InsertDesc(x, s)) == multiset(s) + multiset{x}
  {
    if s != [] && Count(s[0]) > Count(x) {
      InsertDescPerm(x, s[1..]);
      assert s == [s[0]] + s[1..];
    }
  }

  /** Stable sort by count, largest first: the order `nlargest` with
      `keep='first'` lists its rows in. */
  function SortDesc(s: seq<Record>): (r: seq<Record>)
    ensures |r| == |s|
    ensures NonIncreasing(r)
  {
    if s == [] then [] else InsertDesc(s[0], SortDesc(s[1..]))
  }

  /** The sort only reorders: it returns the same rows, each as often. */
  lemma {:induction false} SortDescPerm(s: seq<Record>)
    ensures multiset(SortDesc(s)) == multiset(s)
  {
    if s != [] {
      var t := SortDesc(s[1..]);
      calc {
        multiset(SortDesc(s));
        multiset(InsertDesc(s[0], t));
        { InsertDescPerm(s[0], t); }
        multiset(t) + multiset{s[0]};
        { SortDescPerm(s[1..]); }
        multiset(s[1..]) + multiset{s[0]};
        { assert s == [s[0]] + s[1..]; }
        multiset(s);
      }
    }
  }

  /** `nlargest(n, ...)` over already eligible rows. */
  function NLargest(n: nat, s: seq<Record>): (r: seq<Record>)
    ensures |r| == if n < |s| then n else |s|
    ensures NonIncreasing(r)
  {
    var t := SortDesc(s);
    t[..if n < |t| then n else |t|]
  }

  /** The rows of year y with a missing count, in row order: `nlargest`
      does not rank them but places them after the ranked rows. */
  function Missing(rows: seq<Record>, y: int): (r: seq<Record>)
    ensures forall x :: x in r <==> x in rows && x.year == y && x.illiterate.None?
  {
    SelectMembers(rows, (r: Record) => r.year == y && r.illiterate.None?);
    Select(rows, (r: Record) => r.year == y && r.illiterate.None?)
  }

  /** The missing-count rows keep table order too. */
  lemma MissingAppend(a: seq<Record>, b: seq<Record>, y: int)
    ensures Missing(a + b, y) == Missing(a, y) + Missing(b, y)
  {
    SelectAppend(a, b, (r: Record) => r.year == y && r.illiterate.None?);
  }

  /** `df[df['Año'] == y]`. */
  function YearRows(rows: seq<Record>, y: int): seq<Record> {
    Select(rows, (r: Record) => r.year == y)
  }

  /** Every row of year y has its count either present or missing. */
  lemma {:induction false} YearRowsSplit(rows: seq<Record>, y: int)
    ensures |Eligible(rows, y)| + |Missing(rows, y)| == |YearRows(rows, y)|
  {
    if rows != [] {
      YearRowsSplit(rows[1..], y);
    }
  }

  /** `df_anio.nlargest(5, 'Analfabetas')` with `keep='first'`: the ranked
      rows, largest count first, then the rows of that year with a missing
      count in table order, cut at five rows. */
  function TopN(n: nat, rows: seq<Record>, y: int): (r: seq<Record>)
    ensures |r| <= n
    ensures |r| == if n < |Eligible(rows, y)| + |Missing(rows, y)| then n else |Eligible(rows, y)| + |Missing(rows, y)|
  {
    var t := NLargest(n, Eligible(rows, y)) + Missing(rows, y);
    t[..if n < |t| then n else |t|]
  }

  /** The top-five chart's data: no update for a falsy year (None or 0),
      otherwise five rows of that year (all of them when there are fewer):
      rows with a count come first, largest first, and rows with a missing
      count fill up only when fewer than five counts are present. */
  function Top5(rows: seq<Record>, anio: Option<int>): (r: Update<seq<Record>>)
    ensures r.Prevent? <==> !TruthyInt(anio)
    ensures r.Emit? ==> forall x :: x in r.value ==> x in rows && x.year == anio.value
    ensures r.Emit? ==>
      |r.value| == if |YearRows(rows, anio.value)| < 5 then |YearRows(rows, anio.value)| else 5
    ensures r.Emit? ==> forall i, j :: 0 <= i < j < |r.value| && r.value[j].illiterate.Some? ==>
      r.value[i].illiterate.Some? && Count(r.value[j]) <= Count(r.value[i])
    ensures r.Emit? ==> forall i :: 0 <= i < |r.value| && r.value[i].illiterate.None? ==>
      |Eligible(rows, anio.value)| <= i
    ensures r.Emit? ==>
      var e := Eligible(rows, anio.value);
      var k := if |e| < 5 then |e| else 5;
      k <= |r.value| <= k + |Missing(rows, anio.value)| && r.value[..k] == NLargest(5, e) &&
      r.value[k..] == Missing(rows, anio.value)[..|r.value| - k]
  {
    if !TruthyInt(anio) then Prevent
    else
      TopNParts(5, rows, anio.value);
      TopNShape(5, rows, anio.value);
      Emit(TopN(5, rows, anio.value))
  }

  /** `nlargest(n)` over a year's rows is the ranked rows followed by the
      rows with a missing count, n rows in all when the year has that many. */
  lemma TopNParts(n: nat, rows: seq<Record>, y: int)
    ensures var r, e, m := TopN(n, rows, y), Eligible(rows, y), Missing(rows, y);
      var k := if |e| < n then |e| else n;
      |r| == (if |YearRows(rows, y)| < n then |YearRows(rows, y)| else n) &&
      k <= |r| <= k + |m| && r[..k] == NLargest(n, e) && r[k..] == m[..|r| - k]
  {
    var e, m := Eligible(rows, y), Missing(rows, y);
    var top := NLargest(n, e);
    YearRowsSplit(rows, y);
    var r := TopN(n, rows, y);
    var k := |top|;
    assert k == if |e| < n then |e| else n;
    assert r == (top + m)[..|r|];
    assert r[..k] == top;
    assert r[k..] == m[..|r| - k];
  }

  /** Rows of the year only; rows with a count first, largest first; a row
      with a missing count only after every ranked row. */
  lemma TopNShape(n: nat, rows: seq<Record>, y: int)
    ensures var r, e := TopN(n, rows, y), Eligible(rows, y);
      (forall x :: x in r ==> x in rows && x.year == y) &&
      (forall i, j :: 0 <= i < j < |r| && r[j].illiterate.Some? ==>
        r[i].illiterate.Some? && Count(r[j]) <= Count(r[i])) &&
      (forall i :: 0 <= i < |r| && r[i].illiterate.None? ==> |e| <= i)
  {
    var e, m := Eligible(rows, y), Missing(rows, y);
    var top := NLargest(n, e);
    var r := TopN(n, rows, y);
    TopNParts(n, rows, y);
    NLargestBasics(n, e);
    var k := |top|;
    forall i | 0 <= i < k ensures r[i] == top[i] && r[i] in rows && r[i].year == y && r[i].illiterate.Some? {
      assert top[i] in top;
    }
    forall i | k <= i < |r| ensures r[i] in rows && r[i].year == y && r[i].illiterate.None? {
      assert r[k..][i - k] == m[i - k];
    }
  }

  lemma NLargestBasics(n: nat, s: seq<Record>)
    ensures |NLargest(n, s)| == if n < |s| then n else |s|
    ensures NonIncreasing(NLargest(n, s))
    ensures multiset(NLargest(n, s)) <= multiset(s)
    ensures forall x :: x in NLargest(n, s) ==> x in s
  {
    var t := SortDesc(s);
    var k := if n < |t| then n else |t|;
    var r := t[..k];
    NLargestRest(n, s);
    forall x | x in r ensures x in s {
      assert x in multiset(r);
    }
  }

  /** No row left out of the ranking counts more than the last row in it:
      everything eligible but not returned is at most the n-th count. */
  lemma NLargestOmittedAreSmaller(n: nat, s: seq<Record>)
    requires n > 0
    ensures var r := NLargest(n, s);
      forall x :: x in multiset(s) - multiset(r) ==> |r| > 0 && Count(x) <= Count(r[|r| - 1])
  {
    var t := SortDesc(s);
    var k := if n < |t| then n else |t|;
    NLargestRest(n, s);
    forall x | x in multiset(s) - multiset(NLargest(n, s))
      ensures |NLargest(n, s)| > 0 && Count(x) <= Count(NLargest(n, s)[|NLargest(n, s)| - 1])
    {
      assert x in multiset(t[k..]);
      BelowCut(t, k, x);
    }
  }

  /** The rows nlargest leaves out are the tail of the sorted rows. */
  lemma NLargestRest(n: nat, s: seq<Record>)
    ensures var t := SortDesc(s);
      var k := if n < |t| then n else |t|;
      NLargest(n, s) == t[..k] && multiset(t[..k]) <= multiset(s) &&
      multiset(s) - multiset(t[..k]) == multiset(t[k..])
  {
    var t := SortDesc(s);
    var k := if n < |t| then n else |t|;
    SortDescPerm(s);
    assert t == t[..k] + t[k..];
    assert multiset(t) == multiset(t[..k]) + multiset(t[k..]);
  }

  lemma BelowCut(t: seq<Record>, k: nat, x: Record)
    requires NonIncreasing(t) && k <= |t| && x in t[k..]
    ensures k > 0 ==> Count(x) <= Count(t[k - 1])
  {
    var j :| k <= j < |t| && t[j] == x;
  }

  /** The rows of s with count v, in order. */
  function Ties(s: seq<Record>, v: real): seq<Record> {
    Select(s, (x: Record) => Count(x) == v)
  }

  lemma TiesAppend(a: seq<Record>, b: seq<Record>, v: real)
    ensures Ties(a + b, v) == Ties(a, v) + Ties(b, v)
  {
    SelectAppend(a, b, (x: Record) => Count(x) == v);
  }

  lemma TiesSingle(x: Record, v: real)
    ensures Ties([x], v) == if Count(x) == v then [x] else []
  {
    assert [x][1..] == [];
  }

  lemma {:induction false} InsertDescTies(x: Record, s: seq<Record>, v: real)
    requires NonIncreasing(s)
    ensures Ties(InsertDesc(x, s), v) == (if Count(x) == v then [x] else []) + Ties(s, v)
  {
    TiesSingle(x, v);
    if s == [] || Count(s[0]) <= Count(x) {
      TiesAppend([x], s, v);
    } else {
      var rest := InsertDesc(x, s[1..]);
      assert InsertDesc(x, s) == [s[0]] + rest;
      InsertDescTies(x, s[1..], v);
      TiesSingle(s[0], v);
      TiesAppend([s[0]], rest, v);
      assert s == [s[0]] + s[1..];
      TiesAppend([s[0]], s[1..], v);
    }
  }

  /** The sort is stable: among rows with equal counts, the original row
      order is kept. */
  lemma {:induction false} SortDescStable(s: seq<Record>, v: real)
    ensures Ties(SortDesc(s), v) == Ties(s, v)
  {
    if s != [] {
      SortDescStable(s[1..], v);
      InsertDescTies(s[0], SortDesc(s[1..]), v);
      TiesAppend([s[0]], s[1..], v);
      assert s == [s[0]] + s[1..];
    }
  }

  /** Ties keep the first rows: the returned rows of any one count are the
      first rows of that count in table order. */
  lemma NLargestKeepsFirst(n: nat, s: seq<Record>, v: real)
    ensures var r := NLargest(n, s);
      |Ties(r, v)| <= |Ties(s, v)| && Ties(r, v) == Ties(s, v)[..|Ties(r, v)|]
  {
    var t := SortDesc(s);
    var k := if n < |t| then n else |t|;
    assert t == t[..k] + t[k..];
    TiesAppend(t[..k], t[k..], v);
    SortDescStable(s, v);
  }

  /** A year with one count and one missing count: both rows are charted,
      the counted one first and the other one as a bar without height. */
  lemma MissingCountCharted(a: Record, b: Record)
    requires a.year == 2020 && a.illiterate == Some(10.0)
    requires b.year == 2020 && b.illiterate.None?
    ensures Top5([a, b], Some(2020)) == Emit([a, b])
  {
    assert [a, b][1..] == [b] && [b][1..] == [];
    assert Eligible([a, b], 2020) == [a] + Eligible([b], 2020) == [a];
    assert Missing([a, b], 2020) == [] + Missing([b], 2020) == [b];
    assert SortDesc([a]) == [a];
    assert NLargest(5, [a]) == [a];
    assert TopN(5, [a, b], 2020) == ([a] + [b])[..2] == [a, b];
  }

  // ---------------------------------------------------------------------
  // actualizar_grafico_pastel (lines 231-262)

  /** The outcome of the pie chart: which of the four figures is drawn. */
  datatype Share =
    | NoData                                      // "Sin datos"
    | Invalid                                     // "Dato inválido"
    | Empty                                       // "Datos vacíos"
    | Shares(illiteratePct: real, literatePct: real)

  /** The tests of lines 241-248 on one row, in the source's order. */
  function Classify(r: Record): (s: Share)
    ensures s.Invalid? <==>
      r.illiterate.None? || r.literate.None? || r.illiterate.value < 0.0 || r.literate.value < 0.0
    ensures s.Empty? ==> r.illiterate == Some(0.0) && r.literate == Some(0.0)
    ensures s.Shares? ==>
      0.0 <= s.illiteratePct <= 100.0 && 0.0 <= s.literatePct <= 100.0 &&
      s.illiteratePct + s.literatePct == 100.0 &&
      s.illiteratePct * r.literate.value == s.literatePct * r.illiterate.value
    ensures !s.NoData?
  {
    if r.illiterate.None? || r.literate.None? || r.illiterate.value < 0.0 || r.literate.value < 0.0 then Invalid
    else
      var a, b := r.illiterate.value, r.literate.value;
      var total := a + b;
      if total == 0.0 then Empty
      else
        var p, q := a / total * 100.0, b / total * 100.0;
        assert p + q == (a + b) / total * 100.0;
        assert a <= total && b <= total;
        assert a / total <= 1.0 && b / total <= 1.0;
        assert p * b == a * b / total * 100.0 == q * a;
        Shares(p, q)
  }

  /** `df[(df['País'] == pais) & (df['Año'] == anio)]`. */
  function Matches(rows: seq<Record>, country: string, y: int): (r: seq<Record>)
    ensures forall x :: x in r <==> x in rows && x.country == country && x.year == y
  {
    SelectMembers(rows, (r: Record) => r.country == country && r.year == y);
    Select(rows, (r: Record) => r.country == country && r.year == y)
  }

  /** The pie chart's data: no update for a falsy country or year; NoData
      when no row has that country and year; otherwise the first such row,
      classified. */
  function LiteracyShare(rows: seq<Record>, pais: Option<string>, anio: Option<int>): (r: Update<Share>)
    ensures r.Prevent? <==> !TruthyText(pais) || !TruthyInt(anio)
    ensures r.Emit? ==> (r.value.NoData? <==>
      forall i :: 0 <= i < |rows| ==> !(rows[i].country == pais.value && rows[i].year == anio.value))
  {
    if !TruthyText(pais) || !TruthyInt(anio) then Prevent
    else
      var sel := Matches(rows, pais.value, anio.value);
      SelectEmptyIff(rows, (r: Record) => r.country == pais.value && r.year == anio.value);
      if sel == [] then Emit(NoData)
      else
        Emit(Classify(sel[0]))
  }

  /** Only the first matching row decides the chart: later rows for the
      same country and year are never looked at, even when the first one
      is invalid and a later one is not. */
  lemma LiteracyShareFirstRow(rows: seq<Record>, country: string, y: int, i: nat)
    requires country != "" && y != 0
    requires i < |rows| && rows[i].country == country && rows[i].year == y
    requires forall j :: 0 <= j < i ==> !(rows[j].country == country && rows[j].year == y)
    ensures LiteracyShare(rows, Some(country), Some(y)) == Emit(Classify(rows[i]))
  {
    SelectFirst(rows, (r: Record) => r.country == country && r.year == y, i);
  }

  /** The validity test comes before the zero-sum test: counts of -5 and 5
      sum to zero but are reported as invalid, not as empty. */
  lemma InvalidBeforeEmpty(r: Record)
    requires r.illiterate == Some(-5.0) && r.literate == Some(5.0)
    ensures Classify(r) == Invalid
  {
  }

  /** Shares are drawn exactly when both counts are present, neither is
      negative and they do not both vanish. */
  lemma SharesIff(r: Record)
    ensures Classify(r).Shares? <==>
      r.illiterate.Some? && r.literate.Some? && r.illiterate.value >= 0.0 && r.literate.value >= 0.0 &&
      r.illiterate.value + r.literate.value != 0.0
  {
  }

  /** A table with one row for country "X" in 2020, 10 illiterate and 90
      literate: the pie shows 10% and 90%, and the top five of 2020 is that
      row alone. */
  lemma SingleRowScenario(x: Record)
    requires x.country == "X" && x.year == 2020
    requires x.illiterate == Some(10.0) && x.literate == Some(90.0)
    ensures LiteracyShare([x], Some("X"), Some(2020)) == Emit(Shares(10.0, 90.0))
    ensures Top5([x], Some(2020)) == Emit([x])
  {
    LiteracyShareFirstRow([x], "X", 2020, 0);
    assert Eligible([x], 2020) == [x];
    assert SortDesc([x]) == [x];
  }
}
