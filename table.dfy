/** The data table of tab 2 and its callback `actualizar_tabla`
    (app.py lines 76-101 and 173-192). The callback reads the table's own
    `page_current` and `page_size` and writes them back together with the
    shown rows and `page_action`, so the table and the callback form a small
    state machine over (rows shown, page size, page cursor, page action). */
module Table {
  import opened Records

  // ---------------------------------------------------------------------
  // Python slicing, as `df.iloc[start:end]` does it

  /** A slice bound as Python resolves it against a length n: a negative
      bound counts from the end, and the result is clamped into [0, n]. */
  function Clamp(b: int, n: nat): (r: nat)
    ensures r <= n
    ensures 0 <= b <= n ==> r == b
    ensures b > n ==> r == n
  {
    if b < 0 then (if b + n < 0 then 0 else b + n) else if b > n then n else b
  }

  /** `s[start:stop]` with step 1: never an error, empty when the resolved
      start is not before the resolved stop. */
  function PySlice<T>(s: seq<T>, start: int, stop: int): (r: seq<T>)
    ensures |r| <= |s|
  {
    var lo, hi := Clamp(start, |s|), Clamp(stop, |s|);
    if lo < hi then s[lo..hi] else []
  }

  // ---------------------------------------------------------------------
  // The callback

  /** `page_action`: 'custom' (the callback pages) or 'none' (no pager). */
  datatype PageAction = Custom | NoPaging

  /** The four outputs: data, page_size, page_current, page_action. */
  datatype TableOutput = TableOutput(data: seq<Record>, pageSize: int, pageCurrent: int, action: PageAction)

  /** The mode radio items start in. */
  const InitialMode := "paginado"

  /** The table as tab 2 creates it: every row, cursor 0, 10 rows per
      page, custom paging. */
  function Initial(rows: seq<Record>): TableOutput {
    TableOutput(rows, 10, 0, Custom)
  }

  /** The rows of page p at s rows per page. */
  function Page(rows: seq<Record>, p: int, s: int): (r: seq<Record>)
    ensures |r| <= |rows|
    ensures p >= 0 && s >= 0 ==> |r| <= s
  {
    var m := p * s;
    assert p >= 0 && s >= 0 ==> m >= 0;
    PySlice(rows, m, m + s)
  }

  /** `actualizar_tabla(modo, pagina_actual, tamano_pagina)`: no update
      while the mode is unset; in 'todo' mode every row on one unpaged page;
      in any other mode the requested page, with cursor and size echoed. */
  function TableCallback(rows: seq<Record>, modo: Option<string>, pageCurrent: int, pageSize: int): (r: Update<TableOutput>)
    ensures r.Prevent? <==> modo.None?
    ensures modo == Some("todo") ==> r == Emit(TableOutput(rows, |rows|, 0, NoPaging))
    ensures modo.Some? && modo != Some("todo") ==>
      r.Emit? && r.value.pageSize == pageSize && r.value.pageCurrent == pageCurrent &&
      r.value.action == Custom && r.value.data == Page(rows, pageCurrent, pageSize) &&
      |r.value.data| <= |rows|
  {
    if modo.None? then Prevent
    else if modo.value == "todo" then Emit(TableOutput(rows, |rows|, 0, NoPaging))
    else Emit(TableOutput(Page(rows, pageCurrent, pageSize), pageSize, pageCurrent, Custom))
  }

  /** The s rows from position m on, cut at the end of the table. */
  lemma SliceWindow(rows: seq<Record>, m: nat, s: nat)
    ensures var n := |rows|;
      var lo := if m < n then m else n;
      var hi := if m + s < n then m + s else n;
      PySlice(rows, m, m + s) == rows[lo..hi] &&
      |PySlice(rows, m, m + s)| <= s &&
      (PySlice(rows, m, m + s) == [] <==> s == 0 || m >= n)
  {
  }

  /** For a cursor and size the pager can produce (neither negative), the
      page is exactly the rows from p*s up to p*s+s, cut at the end of the
      table: at most s rows, and no rows (and no error) once p*s reaches
      the row count. */
  lemma PagedWindow(rows: seq<Record>, p: nat, s: nat)
    ensures var n := |rows|;
      var lo := if p * s < n then p * s else n;
      var hi := if p * s + s < n then p * s + s else n;
      Page(rows, p, s) == rows[lo..hi] &&
      |Page(rows, p, s)| <= s &&
      (Page(rows, p, s) == [] <==> s == 0 || p * s >= n)
  {
    var m := p * s;
    assert m >= 0;
    SliceWindow(rows, m, s);
  }

  /** Paging loses and repeats nothing: the first k pages, one after the
      other, are exactly the first k*s rows of the table (or all of it). */
  lemma {:induction false} PagesCover(rows: seq<Record>, s: nat, k: nat)
    ensures Pages(rows, s, k) == rows[..if k * s < |rows| then k * s else |rows|]
  {
    if k > 0 {
      var p := k - 1;
      assert p * s >= 0;
      var m: nat := p * s;
      assert k * s == m + s;
      PagesCover(rows, s, p);
      SliceWindow(rows, m, s);
      var a := if m < |rows| then m else |rows|;
      var b := if m + s < |rows| then m + s else |rows|;
      assert Page(rows, p, s) == rows[a..b];
      assert rows[..a] + rows[a..b] == rows[..b];
    }
  }

  /** Pages 0 to k-1 in a row. */
  function Pages(rows: seq<Record>, s: nat, k: nat): seq<Record> {
    if k == 0 then [] else Pages(rows, s, k - 1) + Page(rows, k - 1, s)
  }

  /** Switching to 'todo' and back: the paged table keeps the size that
      'todo' wrote (the row count, not 10) and the cursor 0, so its one page
      is the whole table. */
  lemma ShowAllThenPaged(rows: seq<Record>, p: int, s: int, other: string)
    requires other != "todo"
    ensures var o1 := TableCallback(rows, Some("todo"), p, s).value;
      var o2 := TableCallback(rows, Some(other), o1.pageCurrent, o1.pageSize).value;
      o2.pageSize == |rows| && o2.pageCurrent == 0 && o2.action == Custom && o2.data == rows
  {
    assert rows[0..|rows|] == rows;
  }

  // ---------------------------------------------------------------------
  // The table widget and its feedback loop

  /** The DataTable of tab 2 together with the mode radio items above it;
      `rows` is the whole data frame, which the table never changes. */
  class DataTable {
    const rows: seq<Record>
    var mode: Option<string>
    var data: seq<Record>
    var pageSize: int
    var pageCurrent: int
    var pageAction: PageAction

    /** The state `renderizar_contenido('tab2')` creates: mode 'paginado',
        cursor 0, size 10, custom paging, and every row as data. The
        callback is not run on creation (prevent_initial_call), so the
        whole table is what shows until the first event. */
    constructor (rows: seq<Record>)
      ensures this.rows == rows && mode == Some("paginado")
      ensures data == rows && pageSize == 10 && pageCurrent == 0 && pageAction == Custom
    {
      this.rows := rows;
      mode := Some(InitialMode);
      var o := Initial(rows);
      data, pageSize, pageCurrent, pageAction := o.data, o.pageSize, o.pageCurrent, o.action;
    }

    /** Runs the callback on the current mode and pager state and writes
        its four outputs back into the table; on PreventUpdate nothing
        changes. */
    method Refresh()
      modifies this
      ensures mode == old(mode)
      ensures match TableCallback(rows, old(mode), old(pageCurrent), old(pageSize))
        case Prevent =>
          data == old(data) && pageSize == old(pageSize) &&
          pageCurrent == old(pageCurrent) && pageAction == old(pageAction)
        case Emit(o) =>
          data == o.data && pageSize == o.pageSize && pageCurrent == o.pageCurrent && pageAction == o.action
    {
      var r := TableCallback(rows, mode, pageCurrent, pageSize);
      if r.Emit? {
        data, pageSize, pageCurrent, pageAction := r.value.data, r.value.pageSize, r.value.pageCurrent, r.value.action;
      }
    }

    /** The user picks a mode in the radio items. 'todo' shows every row
        unpaged whatever the pager said; any other mode shows the current
        page at the current size. */
    method SelectMode(m: Option<string>)
      modifies this
      ensures mode == m
      ensures m == Some("todo") ==>
        data == rows && pageSize == |rows| && pageCurrent == 0 && pageAction == NoPaging
      ensures m.Some? && m != Some("todo") ==>
        data == Page(rows, old(pageCurrent), old(pageSize)) &&
        pageSize == old(pageSize) && pageCurrent == old(pageCurrent) && pageAction == Custom
      ensures m.None? ==>
        data == old(data) && pageSize == old(pageSize) &&
        pageCurrent == old(pageCurrent) && pageAction == old(pageAction)
    {
      mode := m;
      Refresh();
    }

    /** The user moves the pager to page p (only possible while the pager
        is shown, that is, with custom paging). */
    method GoToPage(p: nat)
      requires pageAction == Custom
      modifies this
      ensures mode == old(mode)
      ensures mode.Some? && mode != Some("todo") ==>
        data == Page(rows, p, old(pageSize)) && pageSize == old(pageSize) &&
        pageCurrent == p && pageAction == Custom
      ensures mode == Some("todo") ==>
        data == rows && pageSize == |rows| && pageCurrent == 0 && pageAction == NoPaging
      ensures mode.None? ==>
        data == old(data) && pageSize == old(pageSize) && pageCurrent == p && pageAction == old(pageAction)
    {
      pageCurrent := p;
      Refresh();
    }
  }

  /** A session on tab 2: 'todo', then back to 'paginado'. The table ends
      on one page holding every row, with size equal to the row count. */
  method ShowAllThenBack(rows: seq<Record>) returns (t: DataTable)
    ensures fresh(t) && t.rows == rows
    ensures t.mode == Some("paginado")
    ensures t.data == rows && t.pageSize == |rows| && t.pageCurrent == 0 && t.pageAction == Custom
  {
    t := new DataTable(rows);
    t.SelectMode(Some("todo"));
    t.SelectMode(Some("paginado"));
    assert rows[0..|rows|] == rows;
  }
}
