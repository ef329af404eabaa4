/** `renderizar_contenido` (app.py lines 43-170): what each tab shows,
    reduced to the data each view is built from. Markup, text and figures
    are outside the model. */
module Dashboard {
  import opened Records
  import Aggregates
  import Selectors
  import Table

  /** The content of the page below the tabs. */
  datatype View =
    | Intro                                                  // tab1: static text and image
    | Database(mode: string, table: Table.TableOutput)       // tab2: radio items and table
    | GlobalAnalysis(summary: seq<Aggregates.YearMean>)      // tab3: three line charts
    | CountryInfo(options: seq<string>, slider: Selectors.Slider)      // tab4
    | Advanced(rows: seq<Record>)                            // tab5: scatter, histogram, box
    | AgeDistribution(options: seq<string>, slider: Selectors.Slider)  // tab6
    | RenderError      // tab4 or tab6 over an empty table: range() over NaN raises
    | Nothing          // any other tab value: the function returns None

  /** The tab callback. Tab 2 starts in 'paginado' mode with cursor 0,
      size 10 and custom paging, holding every row. */
  function RenderTab(rows: seq<Record>, tab: string): (v: View)
    ensures v.Nothing? <==> tab !in ["tab1", "tab2", "tab3", "tab4", "tab5", "tab6"]
    ensures v.RenderError? <==> rows == [] && (tab == "tab4" || tab == "tab6")
    ensures tab == "tab2" ==>
      v == Database("paginado", Table.TableOutput(rows, 10, 0, Table.Custom))
    ensures tab == "tab3" ==>
      v == GlobalAnalysis(Aggregates.YearlyMeans(rows)) &&
      (forall i, j :: 0 <= i < j < |v.summary| ==> v.summary[i].year < v.summary[j].year) &&
      (forall y :: Aggregates.HasYear(rows, y) <==> exists i :: 0 <= i < |v.summary| && v.summary[i].year == y)
    ensures tab == "tab1" ==> v == Intro
    ensures tab == "tab5" ==> v == Advanced(rows)
    ensures tab == "tab4" && rows != [] ==>
      v == CountryInfo(Selectors.CountryOptions(rows), Selectors.YearSlider(rows).value)
    ensures tab == "tab6" && rows != [] ==>
      v == AgeDistribution(Selectors.CountryOptions(rows), Selectors.YearSlider(rows).value)
    ensures (tab == "tab4" || tab == "tab6") && rows != [] ==>
      (forall x :: x in v.options <==> exists i :: 0 <= i < |rows| && rows[i].country == x) &&
      v.slider.value == v.slider.min &&
      (forall i :: 0 <= i < |rows| ==> v.slider.min <= rows[i].year <= v.slider.max)
  {
    if tab == "tab1" then Intro
    else if tab == "tab2" then Database(Table.InitialMode, Table.Initial(rows))
    else if tab == "tab3" then GlobalAnalysis(Aggregates.YearlyMeans(rows))
    else if tab == "tab4" then
      match Selectors.YearSlider(rows)
      case None => RenderError
      case Some(s) => CountryInfo(Selectors.CountryOptions(rows), s)
    else if tab == "tab5" then Advanced(rows)
    else if tab == "tab6" then
      match Selectors.YearSlider(rows)
      case None => RenderError
      case Some(s) => AgeDistribution(Selectors.CountryOptions(rows), s)
    else Nothing
  }

  /** Tabs 4 and 6 offer the same countries and the same year slider. */
  lemma SameSelectorsOnTabs4And6(rows: seq<Record>)
    requires rows != []
    ensures var a, b := RenderTab(rows, "tab4"), RenderTab(rows, "tab6");
      a.options == b.options && a.slider == b.slider
  {
  }
}
