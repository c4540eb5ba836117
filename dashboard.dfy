/**
 * One run of the dashboard: the filter applied to the full data, then the
 * views over the filtered rows.  As written, the desk ranking raises when no
 * row passes the filter (`TopDesksAsWritten`); with the ranking corrected to
 * show no desks, as `TopDesks` does, every view tolerates an empty selection.
 */
module Dashboard {
  import opened Order
  import opened Readings
  import opened Groups
  import opened Filters
  import opened Views
  import opened Ranking

  /**
   * With no rows, the tiles read 0 and every chart is empty, the desk ranking
   * taken as corrected: the source as written raises at the ranking instead.
   */
  lemma NoRowsEmptyViews()
    ensures UniqueSensorCount([]) == 0 && UniqueBuildingCount([]) == 0 && TotalPeopleCount([]) == 0
    ensures AverageByFloor([]) == [] && PeakByFloor([]) == []
    ensures DepartmentTotals([]) == [] && DailyTotals([]) == []
    ensures TopDesks([]) == []
    ensures HeatmapOf([]).dayNames == [] && HeatmapOf([]).hours == [] && HeatmapOf([]).cells == []
  {
    assert Column([], FloorOf) == [] && Column([], DepartmentOf) == [] && Column([], DayOf) == [];
    assert Column([], DeskOf) == [] && Column([], DayNameOf) == [] && Column([], HourOf) == [];
  }

  /**
   * An inverted date range empties every view, the desk ranking taken as
   * corrected; as written, the run stops at the ranking (`InvertedRangeRaisesAtRanking`).
   */
  lemma InvertedRangeEmptiesViews(data: seq<Reading>, sel: Selection)
    requires sel.startDay > sel.endDay
    ensures TotalPeopleCount(Filtered(data, sel)) == 0
    ensures UniqueSensorCount(Filtered(data, sel)) == 0
    ensures TopDesks(Filtered(data, sel)) == []
    ensures DailyTotals(Filtered(data, sel)) == []
  {
    InvertedRangeSelectsNothing(data, sel);
    NoRowsEmptyViews();
  }

  /**
   * The ranking as written: `groupby("name").apply(...)` over no rows yields an
   * empty frame rather than a series, and its `nlargest(5)` then raises for
   * want of the `columns` argument, ending the run.  `None` is that raise;
   * with rows present the result is the ranking.
   */
  function TopDesksAsWritten(rows: seq<Reading>): (r: Option<seq<DeskRate>>)
    ensures r == None <==> rows == []
    ensures r != None ==> r.value == TopDesks(rows)
  {
    if rows == [] then None else Some(TopDesks(rows))
  }

  /** An inverted date range, which the date widget accepts, reaches the raise. */
  lemma InvertedRangeRaisesAtRanking(data: seq<Reading>, sel: Selection)
    requires sel.startDay > sel.endDay
    ensures TopDesksAsWritten(Filtered(data, sel)) == None
  {
    InvertedRangeSelectsNothing(data, sel);
  }

  /** Two readings on floor "1" counting 3 and 7 people: average 5, peak 7. */
  lemma FloorAverageExample()
    ensures var rows := [Reading("1", 0, 9, "A", "HQ", "D1", "Sales", 3, 10),
                         Reading("1", 0, 9, "B", "HQ", "D2", "Sales", 7, 10)];
      AverageByFloor(rows) == [("1", 5.0)] && PeakByFloor(rows) == [("1", 7)]
  {
    var rows := [Reading("1", 0, 9, "A", "HQ", "D1", "Sales", 3, 10),
                 Reading("1", 0, 9, "B", "HQ", "D2", "Sales", 7, 10)];
    var c := Column(rows, FloorOf);
    assert |c| == 2 && c[0] == FloorOf(rows[0]) == "1" && c[1] == FloorOf(rows[1]) == "1";
    assert forall f :: f in c <==> f == "1";
    StringLessIsStrictTotal();
    AscendingUnique(Floors(rows), ["1"], StringLess);
    WhereKeepsAll(rows, KeyIs(FloorOf, "1"));
    assert Group(rows, FloorOf, "1") == rows;
    assert SumPeople(rows) == 10 by {
      assert rows[1..][1..] == [];
    }
    assert Peak(rows) == 7 by {
      assert |rows[1..]| == 1;
    }
  }

  /** A desk counting 50 people over 100 seats in all has an occupancy rate of 50. */
  lemma DeskRateExample()
    ensures var rows := [Reading("1", 0, 9, "A", "HQ", "D1", "Sales", 20, 40),
                         Reading("1", 1, 9, "A", "HQ", "D1", "Sales", 30, 60)];
      DeskRates(rows) == [DeskRate("D1", 50.0)]
  {
    var rows := [Reading("1", 0, 9, "A", "HQ", "D1", "Sales", 20, 40),
                 Reading("1", 1, 9, "A", "HQ", "D1", "Sales", 30, 60)];
    var c := Column(rows, DeskOf);
    assert |c| == 2 && c[0] == DeskOf(rows[0]) == "D1" && c[1] == DeskOf(rows[1]) == "D1";
    assert forall d :: d in c <==> d == "D1";
    StringLessIsStrictTotal();
    AscendingUnique(Keys(rows, DeskOf, StringLess), ["D1"], StringLess);
    WhereKeepsAll(rows, KeyIs(DeskOf, "D1"));
    assert Group(rows, DeskOf, "D1") == rows;
    assert SumPeople(rows) == 50 && SumCapacity(rows) == 100 by {
      assert rows[1..][1..] == [];
    }
  }
}
