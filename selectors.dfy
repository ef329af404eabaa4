/** The country dropdown and the year slider that tabs 4 and 6 build from
    the table (app.py lines 118-136 and 152-168). */
module Selectors {
  import opened Records

  // ---------------------------------------------------------------------
  // df['País'].unique()

  /** Position of the first occurrence of x in s. */
  function IndexOf(s: seq<string>, x: string): (k: nat)
    requires x in s
    ensures k < |s| && s[k] == x
  {
    if s[0] == x then 0 else 1 + IndexOf(s[1..], x)
  }

  /** No earlier position holds x. */
  lemma {:induction false} IndexOfIsFirst(s: seq<string>, x: string, j: nat)
    requires x in s && j < IndexOf(s, x)
    ensures s[j] != x
  {
    if j > 0 {
      IndexOfIsFirst(s[1..], x, j - 1);
    }
  }

  /** The values of s not in seen, each once, in order of first appearance. */
  function UniqueFrom(s: seq<string>, seen: set<string>): (r: seq<string>)
    ensures forall i :: 0 <= i < |r| ==> r[i] in s && r[i] !in seen
    ensures forall x :: x in s && x !in seen ==> x in r
    ensures forall i, j :: 0 <= i < j < |r| ==> r[i] != r[j]
  {
    if s == [] then []
    else
      var rest := UniqueFrom(s[1..], seen + {s[0]});
      assert forall i :: 0 <= i < |rest| ==> rest[i] in s;
      if s[0] in seen then rest else [s[0]] + rest
  }

  /** Values of the tail other than the head keep their relative order
      when looked up in the whole sequence, and all come after the head. */
  lemma ShiftOrder(s: seq<string>, rest: seq<string>)
    requires s != []
    requires forall k :: 0 <= k < |rest| ==> rest[k] in s[1..] && rest[k] != s[0]
    requires forall i, j :: 0 <= i < j < |rest| ==> IndexOf(s[1..], rest[i]) < IndexOf(s[1..], rest[j])
    ensures forall k :: 0 <= k < |rest| ==> rest[k] in s && 0 < IndexOf(s, rest[k])
    ensures forall i, j :: 0 <= i < j < |rest| ==> IndexOf(s, rest[i]) < IndexOf(s, rest[j])
  {
    assert forall k :: 0 <= k < |rest| ==> rest[k] in s && IndexOf(s, rest[k]) == 1 + IndexOf(s[1..], rest[k]);
  }

  /** UniqueFrom lists its values in order of first appearance in s. */
  lemma {:induction false} UniqueFromOrder(s: seq<string>, seen: set<string>)
    ensures forall i, j :: 0 <= i < j < |UniqueFrom(s, seen)| ==>
      IndexOf(s, UniqueFrom(s, seen)[i]) < IndexOf(s, UniqueFrom(s, seen)[j])
  {
    if s != [] {
      var seen' := seen + {s[0]};
      var rest := UniqueFrom(s[1..], seen');
      UniqueFromOrder(s[1..], seen');
      ShiftOrder(s, rest);
      var r := UniqueFrom(s, seen);
      if s[0] !in seen {
        assert r == [s[0]] + rest;
        assert IndexOf(s, s[0]) == 0;
        forall i, j | 0 <= i < j < |r| ensures IndexOf(s, r[i]) < IndexOf(s, r[j]) {
          assert r[j] == rest[j - 1];
          if i > 0 {
            assert r[i] == rest[i - 1];
          }
        }
      } else {
        assert r == rest;
      }
    }
  }

  /** pandas' `Series.unique()`: every country once, in order of first
      appearance in the table. */
  function Unique(s: seq<string>): (r: seq<string>)
    ensures forall x :: x in r <==> x in s
    ensures forall i, j :: 0 <= i < j < |r| ==> r[i] != r[j]
    ensures forall i, j :: 0 <= i < j < |r| ==> IndexOf(s, r[i]) < IndexOf(s, r[j])
  {
    var r := UniqueFrom(s, {});
    UniqueFromOrder(s, {});
    assert forall x :: x in r ==> x in s by {
      forall x | x in r ensures x in s {
        var i :| 0 <= i < |r| && r[i] == x;
      }
    }
    r
  }

  /** The 'País' column. */
  function Countries(rows: seq<Record>): (r: seq<string>)
    ensures |r| == |rows|
    ensures forall i :: 0 <= i < |rows| ==> r[i] == rows[i].country
  {
    seq(|rows|, i requires 0 <= i < |rows| => rows[i].country)
  }

  /** The dropdown's options. */
  function CountryOptions(rows: seq<Record>): (r: seq<string>)
    ensures forall x :: x in r <==> exists i :: 0 <= i < |rows| && rows[i].country == x
    ensures forall i, j :: 0 <= i < j < |r| ==> r[i] != r[j]
    ensures forall x :: x in r ==> x in Countries(rows)
    ensures forall i, j :: 0 <= i < j < |r| ==>
      IndexOf(Countries(rows), r[i]) < IndexOf(Countries(rows), r[j])
  {
    var cs := Countries(rows);
    assert forall x :: x in cs <==> exists i :: 0 <= i < |rows| && rows[i].country == x by {
      forall x | x in cs ensures exists i :: 0 <= i < |rows| && rows[i].country == x {
        var i :| 0 <= i < |cs| && cs[i] == x;
        assert rows[i].country == x;
      }
    }
    Unique(cs)
  }

  // ---------------------------------------------------------------------
  // df['Año'].min(), df['Año'].max()

  function MinYear(rows: seq<Record>): (m: int)
    requires rows != []
    ensures exists i :: 0 <= i < |rows| && rows[i].year == m
    ensures forall i :: 0 <= i < |rows| ==> m <= rows[i].year
  {
    if |rows| == 1 then rows[0].year
    else
      var m := MinYear(rows[1..]);
      assert forall i :: 1 <= i < |rows| ==> rows[i] == rows[1..][i - 1];
      if rows[0].year <= m then rows[0].year else m
  }

  function MaxYear(rows: seq<Record>): (m: int)
    requires rows != []
    ensures exists i :: 0 <= i < |rows| && rows[i].year == m
    ensures forall i :: 0 <= i < |rows| ==> rows[i].year <= m
  {
    if |rows| == 1 then rows[0].year
    else
      var m := MaxYear(rows[1..]);
      assert forall i :: 1 <= i < |rows| ==> rows[i] == rows[1..][i - 1];
      if rows[0].year >= m then rows[0].year else m
  }

  // ---------------------------------------------------------------------
  // range(min, max + 1, 5)

  /** The slider marks: lo, lo + 5, ... up to hi. */
  function Marks(lo: int, hi: int): (r: seq<int>)
    ensures forall i :: 0 <= i < |r| ==> lo <= r[i] <= hi
    decreases if lo <= hi then hi - lo + 1 else 0
  {
    if lo > hi then [] else [lo] + Marks(lo + 5, hi)
  }

  /** A year is marked exactly when it lies in [lo, hi] and is a whole
      number of five-year steps from lo. */
  lemma {:induction false} MarksMembers(lo: int, hi: int, x: int)
    ensures x in Marks(lo, hi) <==> lo <= x <= hi && (x - lo) % 5 == 0
    decreases if lo <= hi then hi - lo + 1 else 0
  {
    if lo <= hi {
      MarksMembers(lo + 5, hi, x);
      assert lo < x && (x - lo) % 5 == 0 ==> x >= lo + 5;
      assert (x - (lo + 5)) % 5 == (x - lo) % 5;
    }
  }

  /** The marks climb in steps of exactly five from lo, and their number
      is the count of five-year steps that fit in [lo, hi]. */
  lemma {:induction false} MarksShape(lo: int, hi: int)
    ensures var m := Marks(lo, hi);
      |m| == (if lo > hi then 0 else (hi - lo) / 5 + 1) &&
      (forall i :: 0 <= i < |m| ==> m[i] == lo + 5 * i)
    decreases if lo <= hi then hi - lo + 1 else 0
  {
    if lo <= hi {
      MarksShape(lo + 5, hi);
      var m := Marks(lo, hi);
      assert forall i :: 1 <= i < |m| ==> m[i] == Marks(lo + 5, hi)[i - 1];
    }
  }

  // ---------------------------------------------------------------------
  // The slider

  datatype Slider = Slider(min: int, max: int, step: int, value: int, marks: seq<int>)

  /** The year slider of tabs 4 and 6: from the earliest to the latest
      year, step 1, starting at the earliest, a mark every five years.
      None when the table is empty: `min()` of an empty column is NaN and
      `range()` then raises. */
  function YearSlider(rows: seq<Record>): (r: Option<Slider>)
    ensures r.None? <==> rows == []
    ensures r.Some? ==> r.value.min <= r.value.value <= r.value.max && r.value.step == 1
    ensures r.Some? ==> r.value.value == r.value.min
    ensures r.Some? ==> forall i :: 0 <= i < |rows| ==> r.value.min <= rows[i].year <= r.value.max
    ensures r.Some? ==> (exists i :: 0 <= i < |rows| && rows[i].year == r.value.min) &&
                        (exists i :: 0 <= i < |rows| && rows[i].year == r.value.max)
    ensures r.Some? ==> r.value.marks != [] && r.value.marks[0] == r.value.min
    ensures r.Some? ==> forall x :: x in r.value.marks <==>
      r.value.min <= x <= r.value.max && (x - r.value.min) % 5 == 0
  {
    if rows == [] then None
    else
      var lo, hi := MinYear(rows), MaxYear(rows);
      assert lo <= rows[0].year <= hi;
      forall x ensures x in Marks(lo, hi) <==> lo <= x <= hi && (x - lo) % 5 == 0 {
        MarksMembers(lo, hi, x);
      }
      Some(Slider(lo, hi, 1, lo, Marks(lo, hi)))
  }
}
