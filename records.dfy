/** The row type of the illiteracy table and the small value types every
    callback of the dashboard shares. */
module Records {

  /** A numeric cell after coercion: None stands for pandas' NaN. */
  datatype Option<T> = None | Some(value: T)

  /** What a Dash callback hands back: Prevent is `raise PreventUpdate`
      (the output keeps whatever it showed before), Emit a new value. */
  datatype Update<T> = Prevent | Emit(value: T)

  /** One row of the table: country ('País'), year ('Año'), the illiterate
      and literate counts ('Analfabetas', 'Alfabetas'), the totals for men
      and women ('Total_Hombres', 'Total_Mujeres') and the two age brackets
      ('5-9_Total', '10-15_Total'). */
  datatype Record = Record(
    country: string,
    year: int,
    illiterate: Option<real>,
    literate: Option<real>,
    men: Option<real>,
    women: Option<real>,
    age5to9: Option<real>,
    age10to15: Option<real>)

  /** Python truthiness of a dropdown value: None and "" are falsy. */
  predicate TruthyText(v: Option<string>) {
    v.Some? && v.value != ""
  }

  /** Python truthiness of a slider value: None and 0 are falsy. */
  predicate TruthyInt(v: Option<int>) {
    v.Some? && v.value != 0
  }

  /** Boolean-mask indexing `df[mask]`: the elements that satisfy p, in
      their original order. */
  function Select<T(!new)>(s: seq<T>, p: T -> bool): (r: seq<T>)
    ensures |r| <= |s|
  {
    if s == [] then [] else (if p(s[0]) then [s[0]] else []) + Select(s[1..], p)
  }

  /** Exactly the elements that satisfy p are kept. */
  lemma {:induction false} SelectMembers<T(!new)>(s: seq<T>, p: T -> bool)
    ensures forall x :: x in Select(s, p) <==> x in s && p(x)
  {
    if s != [] {
      SelectMembers(s[1..], p);
      assert s == [s[0]] + s[1..];
    }
  }

  /** Selecting distributes over concatenation: the kept elements of a
      prefix come before the kept elements of the rest, so the relative
      order of the input is kept. */
  lemma {:induction false} SelectAppend<T(!new)>(a: seq<T>, b: seq<T>, p: T -> bool)
    ensures Select(a + b, p) == Select(a, p) + Select(b, p)
  {
    if a == [] {
      assert a + b == b;
    } else {
      var head := if p(a[0]) then [a[0]] else [];
      assert (a + b)[0] == a[0];
      assert (a + b)[1..] == a[1..] + b;
      calc {
        Select(a + b, p);
        head + Select(a[1..] + b, p);
        { SelectAppend(a[1..], b, p); }
        head + (Select(a[1..], p) + Select(b, p));
        (head + Select(a[1..], p)) + Select(b, p);
        Select(a, p) + Select(b, p);
      }
    }
  }

  /** The position of the first element that satisfies p, when one does. */
  lemma {:induction false} SelectFirst<T(!new)>(s: seq<T>, p: T -> bool, i: nat)
    requires i < |s| && p(s[i])
    requires forall j :: 0 <= j < i ==> !p(s[j])
    ensures Select(s, p) != [] && Select(s, p)[0] == s[i]
  {
    if i > 0 {
      SelectFirst(s[1..], p, i - 1);
    }
  }

  /** Nothing is selected exactly when no element satisfies p. */
  lemma {:induction false} SelectEmptyIff<T(!new)>(s: seq<T>, p: T -> bool)
    ensures Select(s, p) == [] <==> forall i :: 0 <= i < |s| ==> !p(s[i])
  {
    if s != [] {
      SelectEmptyIff(s[1..], p);
      assert forall i :: 1 <= i < |s| ==> s[i] == s[1..][i - 1];
    }
  }
}
