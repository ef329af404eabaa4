/** Load-time clean-up of the spreadsheet (app.py lines 11-16): the four
    numeric columns are run through `pd.to_numeric(..., errors='coerce')`
    and the two age-bracket columns are coerced the same way, or filled with
    0 when the sheet has no such column. */
module Coercion {
  import opened Records

  /** A cell as the spreadsheet reader delivers it: a number, some text,
      or nothing (an empty cell, already NaN). */
  datatype Cell = Num(v: real) | Text(s: string) | Blank

  /** The string-to-number parse `pd.to_numeric` performs on a text cell;
      the parser itself is outside the model, so it is a parameter. */
  type Parser = string -> Option<real>

  /** `to_numeric` with `errors='coerce'` on one cell: numbers stay,
      text that parses becomes its number, anything else becomes NaN. */
  function ToNumeric(parse: Parser, c: Cell): (r: Cell)
    ensures r.Num? || r.Blank?
    ensures c.Num? ==> r == c
    ensures c.Text? ==> r == (if parse(c.s).Some? then Num(parse(c.s).value) else Blank)
    ensures c.Blank? ==> r == Blank
  {
    match c
    case Num(_) => c
    case Blank => Blank
    case Text(s) =>
      match parse(s)
      case Some(x) => Num(x)
      case None => Blank
  }

  /** A column that holds only numbers and NaN. */
  predicate Numeric(col: seq<Cell>) {
    forall i :: 0 <= i < |col| ==> !col[i].Text?
  }

  /** `pd.to_numeric(column, errors='coerce')`, cell by cell. */
  function CoerceColumn(parse: Parser, col: seq<Cell>): (r: seq<Cell>)
    ensures |r| == |col|
    ensures Numeric(r)
    ensures forall i :: 0 <= i < |col| ==> r[i] == ToNumeric(parse, col[i])
  {
    seq(|col|, i requires 0 <= i < |col| => ToNumeric(parse, col[i]))
  }

  /** The column `df.get(name, 0)` broadcasts when the sheet lacks `name`. */
  function Zeros(n: nat): (r: seq<Cell>)
    ensures |r| == n && Numeric(r)
    ensures forall i :: 0 <= i < n ==> r[i] == Num(0.0)
  {
    seq(n, i => Num(0.0))
  }

  /** Coercing is idempotent: a coerced column comes back unchanged, so
      loading a table twice yields the same contents. */
  lemma CoerceColumnIdempotent(parse: Parser, col: seq<Cell>)
    ensures CoerceColumn(parse, CoerceColumn(parse, col)) == CoerceColumn(parse, col)
  {
    var once := CoerceColumn(parse, col);
    var twice := CoerceColumn(parse, once);
    forall i | 0 <= i < |col| ensures twice[i] == once[i] {
      assert once[i].Num? || once[i].Blank?;
    }
  }

  /** A column holding only numbers and NaN comes back unchanged: this
      covers both a coerced column and the zeros that stand for an absent
      age column. */
  lemma NumericUnchanged(parse: Parser, col: seq<Cell>)
    requires Numeric(col)
    ensures CoerceColumn(parse, col) == col
  {
    forall i | 0 <= i < |col| ensures CoerceColumn(parse, col)[i] == col[i] {
      assert !col[i].Text?;
    }
  }

  /** The value a callback reads from a coerced cell. */
  function Value(c: Cell): (r: Option<real>)
    requires !c.Text?
    ensures r.Some? <==> c.Num?
    ensures c.Num? ==> r.value == c.v
  {
    if c.Num? then Some(c.v) else None
  }

  /** The data frame `df` as the callbacks share it: one sequence per
      column, all of one length. The age columns are None while the sheet
      has no such column. */
  class DataFrame {
    var country: seq<string>
    var year: seq<int>
    var illiterate: seq<Cell>
    var literate: seq<Cell>
    var men: seq<Cell>
    var women: seq<Cell>
    var age5to9: Option<seq<Cell>>
    var age10to15: Option<seq<Cell>>

    /** Every column has one cell per row. */
    ghost predicate Valid()
      reads this
    {
      |year| == |country| && |illiterate| == |country| && |literate| == |country| &&
      |men| == |country| && |women| == |country| &&
      (age5to9.Some? ==> |age5to9.value| == |country|) &&
      (age10to15.Some? ==> |age10to15.value| == |country|)
    }

    /** The state after lines 11-16: every numeric column present and
        holding only numbers and NaN. */
    ghost predicate Coerced()
      reads this
    {
      Valid() && Numeric(illiterate) && Numeric(literate) && Numeric(men) &&
      Numeric(women) && age5to9.Some? && Numeric(age5to9.value) &&
      age10to15.Some? && Numeric(age10to15.value)
    }

    /** The frame `pd.read_excel` yields; reading the file is outside the
        model, so the columns come in as arguments. */
    constructor (country: seq<string>, year: seq<int>, illiterate: seq<Cell>,
                 literate: seq<Cell>, men: seq<Cell>, women: seq<Cell>,
                 age5to9: Option<seq<Cell>>, age10to15: Option<seq<Cell>>)
      requires |year| == |country| && |illiterate| == |country| && |literate| == |country|
      requires |men| == |country| && |women| == |country|
      requires age5to9.Some? ==> |age5to9.value| == |country|
      requires age10to15.Some? ==> |age10to15.value| == |country|
      ensures Valid()
      ensures this.country == country && this.year == year
      ensures this.illiterate == illiterate && this.literate == literate
      ensures this.men == men && this.women == women
      ensures this.age5to9 == age5to9 && this.age10to15 == age10to15
    {
      this.country, this.year := country, year;
      this.illiterate, this.literate := illiterate, literate;
      this.men, this.women := men, women;
      this.age5to9, this.age10to15 := age5to9, age10to15;
    }

    /** Lines 11-16, in order: each numeric column is replaced by its
        coerced copy; an absent age column becomes all zeros. The row count,
        the countries and the years stay as they were. */
    method Coerce(parse: Parser)
      requires Valid()
      modifies this
      ensures Coerced()
      ensures country == old(country) && year == old(year)
      ensures illiterate == CoerceColumn(parse, old(illiterate))
      ensures literate == CoerceColumn(parse, old(literate))
      ensures men == CoerceColumn(parse, old(men))
      ensures women == CoerceColumn(parse, old(women))
      ensures age5to9 == Some(if old(age5to9).Some? then CoerceColumn(parse, old(age5to9).value) else Zeros(|country|))
      ensures age10to15 == Some(if old(age10to15).Some? then CoerceColumn(parse, old(age10to15).value) else Zeros(|country|))
      ensures old(Coerced()) ==>
        illiterate == old(illiterate) && literate == old(literate) && men == old(men) &&
        women == old(women) && age5to9 == old(age5to9) && age10to15 == old(age10to15)
    {
      if Coerced() {
        NumericUnchanged(parse, illiterate);
        NumericUnchanged(parse, literate);
        NumericUnchanged(parse, men);
        NumericUnchanged(parse, women);
        NumericUnchanged(parse, age5to9.value);
        NumericUnchanged(parse, age10to15.value);
      }
      illiterate := CoerceColumn(parse, illiterate);
      literate := CoerceColumn(parse, literate);
      men := CoerceColumn(parse, men);
      women := CoerceColumn(parse, women);
      age5to9 := Some(if age5to9.Some? then CoerceColumn(parse, age5to9.value) else Zeros(|country|));
      age10to15 := Some(if age10to15.Some? then CoerceColumn(parse, age10to15.value) else Zeros(|country|));
    }

    /** The rows `df` holds once coerced, as the callbacks read them: one
        record per row, in row order. */
    function Rows(): (r: seq<Record>)
      reads this
      requires Coerced()
      ensures |r| == |country|
      ensures forall i :: 0 <= i < |r| ==>
        r[i].country == country[i] && r[i].year == year[i] &&
        r[i].illiterate == Value(illiterate[i]) && r[i].literate == Value(literate[i]) &&
        r[i].men == Value(men[i]) && r[i].women == Value(women[i]) &&
        r[i].age5to9 == Value(age5to9.value[i]) && r[i].age10to15 == Value(age10to15.value[i])
    {
      var c, y, il, li, m, w := country, year, illiterate, literate, men, women;
      var a, b := age5to9.value, age10to15.value;
      seq(|c|, i requires 0 <= i < |c| =>
        Record(c[i], y[i], Value(il[i]), Value(li[i]), Value(m[i]), Value(w[i]),
               Value(a[i]), Value(b[i])))
    }
  }

  /** After coercion a text cell that the parser rejects reads as missing,
      never as a number and never as an error. */
  lemma {:induction false} UnparsableIsMissing(parse: Parser, col: seq<Cell>, i: nat)
    requires i < |col| && col[i].Text? && parse(col[i].s).None?
    ensures Value(CoerceColumn(parse, col)[i]) == None
  {
  }
}
