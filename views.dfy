/**
 * The aggregate views the dashboard computes from the filtered readings: the
 * three summary tiles, the average and peak count per floor, the total per
 * department, the total per day and the weekday-by-hour heatmap of means.
 */
module Views {
  import opened Order
  import opened Readings
  import opened Groups

  datatype Option<T> = None | Some(value: T)

  // ---------------------------------------------------------- summary tiles

  /** `f_df["sensorId"].nunique()`: at most one per row, and 0 only when there are no rows. */
  function UniqueSensorCount(rows: seq<Reading>): (n: nat)
    ensures n <= |rows|
    ensures n == 0 <==> rows == []
    ensures n == |set r | r in rows :: r.sensorId|
    ensures forall r :: r in rows ==> r.sensorId in Unique(rows, SensorOf)
  {
    assert forall r :: r in rows ==> SensorOf(r) in Column(rows, SensorOf) by {
      forall r | r in rows ensures SensorOf(r) in Column(rows, SensorOf) {
        InColumn(rows, SensorOf, r);
      }
    }
    assert Unique(rows, SensorOf) == set r | r in rows :: r.sensorId by {
      forall v | v in Unique(rows, SensorOf) ensures v in set r | r in rows :: r.sensorId {
        var i :| 0 <= i < |rows| && Column(rows, SensorOf)[i] == v;
        assert rows[i] in rows;
      }
    }
    |Unique(rows, SensorOf)|
  }

  /** `int(f_df["peopleCount"].sum())`: 0 exactly when no row counts anyone, and at least every row's count. */
  function TotalPeopleCount(rows: seq<Reading>): (total: nat)
    ensures total == 0 <==> forall r :: r in rows ==> r.peopleCount == 0
    ensures forall r :: r in rows ==> r.peopleCount <= total
  {
    SumPeople(rows)
  }

  /** `f_df["building"].nunique()`: at most one per row, and 0 only when there are no rows. */
  function UniqueBuildingCount(rows: seq<Reading>): (n: nat)
    ensures n <= |rows|
    ensures n == 0 <==> rows == []
    ensures n == |set r | r in rows :: r.building|
    ensures forall r :: r in rows ==> r.building in Unique(rows, BuildingOf)
  {
    assert forall r :: r in rows ==> BuildingOf(r) in Column(rows, BuildingOf) by {
      forall r | r in rows ensures BuildingOf(r) in Column(rows, BuildingOf) {
        InColumn(rows, BuildingOf, r);
      }
    }
    assert Unique(rows, BuildingOf) == set r | r in rows :: r.building by {
      forall v | v in Unique(rows, BuildingOf) ensures v in set r | r in rows :: r.building {
        var i :| 0 <= i < |rows| && Column(rows, BuildingOf)[i] == v;
        assert rows[i] in rows;
      }
    }
    |Unique(rows, BuildingOf)|
  }

  // ------------------------------------------------------ per-floor series

  /** The floors in the order `groupby("floor")` yields them. */
  function Floors(rows: seq<Reading>): (fs: seq<string>)
    ensures StrictlyAscending(fs, StringLess)
    ensures forall f :: f in fs <==> f in Column(rows, FloorOf)
  {
    StringLessIsStrictTotal();
    Keys(rows, FloorOf, StringLess)
  }

  /** `groupby("floor")["peopleCount"].mean()`: one entry per floor present, ascending. */
  function AverageByFloor(rows: seq<Reading>): (t: seq<(string, real)>)
    ensures KeysOf(t) == Floors(rows)
    ensures forall i :: 0 <= i < |t| ==>
      Group(rows, FloorOf, t[i].0) != [] && t[i].1 == Mean(Group(rows, FloorOf, t[i].0))
  {
    Means(rows, FloorOf, Floors(rows))
  }

  /**
   * `groupby("floor")["peopleCount"].max()`: for each floor present, in
   * ascending order, a count no reading on that floor exceeds and some reading
   * on it reaches.
   */
  function PeakByFloor(rows: seq<Reading>): (t: seq<(string, nat)>)
    ensures KeysOf(t) == Floors(rows)
    ensures forall i :: 0 <= i < |t| ==> PeakOfGroup(rows, t[i].0, t[i].1)
  {
    var fs := Floors(rows);
    var t := Peaks(rows, FloorOf, fs);
    assert forall i :: 0 <= i < |t| ==> PeakOfGroup(rows, t[i].0, t[i].1) by {
      forall i | 0 <= i < |t| ensures PeakOfGroup(rows, t[i].0, t[i].1) {
        assert fs[i] in fs;
        var g := Group(rows, FloorOf, fs[i]);
        var w :| w in g && w.peopleCount == Peak(g);
        assert w in rows && w.floor == t[i].0;
      }
    }
    t
  }

  /** `peak` is the largest count on `floor`: no reading there exceeds it and one reaches it. */
  ghost predicate PeakOfGroup(rows: seq<Reading>, floor: string, peak: nat) {
    && (forall r :: r in rows && r.floor == floor ==> r.peopleCount <= peak)
    && (exists r :: r in rows && r.floor == floor && r.peopleCount == peak)
  }

  /** On every floor the average lies between 0 and the peak. */
  lemma AverageAtMostPeak(rows: seq<Reading>, i: nat)
    requires i < |Floors(rows)|
    ensures |AverageByFloor(rows)| == |PeakByFloor(rows)| == |Floors(rows)|
    ensures AverageByFloor(rows)[i].0 == PeakByFloor(rows)[i].0
    ensures 0.0 <= AverageByFloor(rows)[i].1 <= PeakByFloor(rows)[i].1 as real
  {
    var fs := Floors(rows);
    assert fs[i] in fs;
    MeanAtMostPeak(Group(rows, FloorOf, fs[i]));
  }

  // --------------------------------------------------------------- totals

  /**
   * `groupby("department")["peopleCount"].sum()`: one total per department
   * present, ascending by department, each the sum over that department's
   * readings; together they add up to the total people count.
   */
  function DepartmentTotals(rows: seq<Reading>): (t: seq<(string, nat)>)
    ensures StrictlyAscending(KeysOf(t), StringLess)
    ensures forall d :: d in KeysOf(t) <==> d in Column(rows, DepartmentOf)
    ensures forall i :: 0 <= i < |t| ==> t[i].1 == SumPeople(Group(rows, DepartmentOf, t[i].0))
    ensures SumTotals(t) == TotalPeopleCount(rows)
  {
    StringLessIsStrictTotal();
    KeyTotalsAddUp(rows, DepartmentOf, StringLess);
    Totals(rows, DepartmentOf, Keys(rows, DepartmentOf, StringLess))
  }

  /**
   * The daily trend, `groupby(Datetime.strftime("%Y-%m-%d %a"))["peopleCount"].sum()`:
   * one total per day present, in calendar order, each the sum over that
   * day's readings; together they add up to the total people count.
   */
  function DailyTotals(rows: seq<Reading>): (t: seq<(int, nat)>)
    ensures StrictlyAscending(KeysOf(t), IntLess)
    ensures forall d :: d in KeysOf(t) <==> d in Column(rows, DayOf)
    ensures forall i :: 0 <= i < |t| ==> t[i].1 == SumPeople(Group(rows, DayOf, t[i].0))
    ensures SumTotals(t) == TotalPeopleCount(rows)
  {
    IntLessIsStrictTotal();
    KeyTotalsAddUp(rows, DayOf, IntLess);
    Totals(rows, DayOf, Keys(rows, DayOf, IntLess))
  }

  // -------------------------------------------------------------- heatmap

  /** The heatmap's rows are weekday names, its columns hours, its cells means or blanks. */
  datatype Heatmap = Heatmap(dayNames: seq<string>, hours: seq<int>, cells: seq<seq<Option<real>>>)

  function SlotOf(r: Reading): (string, int) {
    (DayNameOf(r), r.hour)
  }

  /** The mean count at one (weekday, hour) slot, or a blank when no reading falls in it. */
  function Cell(rows: seq<Reading>, dayName: string, hour: int): (c: Option<real>)
    ensures c == None <==> forall r :: r in rows ==> SlotOf(r) != (dayName, hour)
    ensures c != None ==> c.value == Mean(Group(rows, SlotOf, (dayName, hour)))
  {
    var g := Group(rows, SlotOf, (dayName, hour));
    assert g == [] <==> forall r :: r in rows ==> SlotOf(r) != (dayName, hour) by {
      if g != [] {
        assert g[0] in g;
      }
    }
    if g == [] then None else Some(Mean(g))
  }

  /**
   * `groupby([day_name(), hour])["peopleCount"].mean().unstack()`: rows are
   * the weekday names present, in alphabetical order; columns the hours
   * present, ascending; each cell is the mean at that slot, blank when no
   * reading falls in it.
   */
  function HeatmapOf(rows: seq<Reading>): (h: Heatmap)
    ensures StrictlyAscending(h.dayNames, StringLess)
    ensures forall d :: d in h.dayNames <==> d in Column(rows, DayNameOf)
    ensures StrictlyAscending(h.hours, IntLess)
    ensures forall x :: x in h.hours <==> x in Column(rows, HourOf)
    ensures |h.cells| == |h.dayNames|
    ensures forall i :: 0 <= i < |h.cells| ==> |h.cells[i]| == |h.hours|
    ensures forall i, j :: 0 <= i < |h.dayNames| && 0 <= j < |h.hours| ==>
      h.cells[i][j] == Cell(rows, h.dayNames[i], h.hours[j])
  {
    StringLessIsStrictTotal();
    IntLessIsStrictTotal();
    var names := Keys(rows, DayNameOf, StringLess);
    var hours := Keys(rows, HourOf, IntLess);
    Heatmap(names, hours,
      seq(|names|, i requires 0 <= i < |names| =>
        seq(|hours|, j requires 0 <= j < |hours| => Cell(rows, names[i], hours[j]))))
  }

  /** A filled cell lies between 0 and the largest count at its slot. */
  lemma CellAtMostSlotPeak(rows: seq<Reading>, dayName: string, hour: int)
    requires Cell(rows, dayName, hour) != None
    ensures Group(rows, SlotOf, (dayName, hour)) != []
    ensures 0.0 <= Cell(rows, dayName, hour).value <= Peak(Group(rows, SlotOf, (dayName, hour))) as real
  {
    MeanAtMostPeak(Group(rows, SlotOf, (dayName, hour)));
  }
}
