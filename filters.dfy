/**
 * The sidebar of the dashboard: the option lists offered by its widgets, the
 * default date range, and the filter chain that narrows the readings to the
 * current selection.
 */
module Filters {
  import opened Order
  import opened Readings
  import opened Groups

  /** The first entry of the floor list; selecting it leaves the floor unrestricted. */
  const BothFloors: string := "Both Floors"

  /**
   * The widget values of one run: a floor (or `BothFloors`), an inclusive
   * range of day numbers, and the three multiselects (empty = unrestricted).
   */
  datatype Selection = Selection(
    floor: string,
    startDay: int,
    endDay: int,
    sensors: seq<string>,
    buildings: seq<string>,
    desks: seq<string>)

  // ---------------------------------------------------------------- options

  /** `sorted(df[column].unique())` for a text column. */
  function Options(data: seq<Reading>, key: Reading -> string): (opts: seq<string>)
    ensures StrictlyAscending(opts, StringLess)
    ensures forall v :: v in opts <==> v in Column(data, key)
  {
    StringLessIsStrictTotal();
    Keys(data, key, StringLess)
  }

  /** `["Both Floors"] + sorted(floor.unique())`. */
  function FloorOptions(data: seq<Reading>): (opts: seq<string>)
    ensures |opts| >= 1 && opts[0] == BothFloors
    ensures StrictlyAscending(opts[1..], StringLess)
    ensures forall f :: f in opts[1..] <==> f in Column(data, FloorOf)
  {
    var floors := Options(data, FloorOf);
    assert ([BothFloors] + floors)[1..] == floors;
    [BothFloors] + floors
  }

  function SensorOptions(data: seq<Reading>): (opts: seq<string>)
    ensures StrictlyAscending(opts, StringLess)
    ensures forall v :: v in opts <==> v in Column(data, SensorOf)
  {
    Options(data, SensorOf)
  }

  function BuildingOptions(data: seq<Reading>): (opts: seq<string>)
    ensures StrictlyAscending(opts, StringLess)
    ensures forall v :: v in opts <==> v in Column(data, BuildingOf)
  {
    Options(data, BuildingOf)
  }

  function DeskOptions(data: seq<Reading>): (opts: seq<string>)
    ensures StrictlyAscending(opts, StringLess)
    ensures forall v :: v in opts <==> v in Column(data, DeskOf)
  {
    Options(data, DeskOf)
  }

  /** `Datetime.min().date()`: the earliest day, attained by some reading. */
  function FirstDay(data: seq<Reading>): (d: int)
    requires data != []
    ensures forall r :: r in data ==> d <= r.day
    ensures exists r :: r in data && r.day == d
  {
    if |data| == 1 then data[0].day
    else
      var rest := FirstDay(data[1..]);
      assert data[1..][0] in data;
      assert forall r :: r in data ==> r == data[0] || r in data[1..];
      if data[0].day <= rest then data[0].day else rest
  }

  /** `Datetime.max().date()`: the latest day, attained by some reading. */
  function LastDay(data: seq<Reading>): (d: int)
    requires data != []
    ensures forall r :: r in data ==> r.day <= d
    ensures exists r :: r in data && r.day == d
  {
    if |data| == 1 then data[0].day
    else
      var rest := LastDay(data[1..]);
      assert data[1..][0] in data;
      assert forall r :: r in data ==> r == data[0] || r in data[1..];
      if data[0].day >= rest then data[0].day else rest
  }

  /** The widgets' initial state: both floors, exactly the earliest to the latest day, nothing picked. */
  function DefaultSelection(data: seq<Reading>): (sel: Selection)
    requires data != []
    ensures sel.startDay <= sel.endDay
    ensures forall r :: r in data ==> sel.startDay <= r.day <= sel.endDay
    ensures exists r :: r in data && r.day == sel.startDay
    ensures exists r :: r in data && r.day == sel.endDay
    ensures sel.floor == BothFloors && sel.sensors == [] && sel.buildings == [] && sel.desks == []
  {
    Selection(BothFloors, FirstDay(data), LastDay(data), [], [], [])
  }

  // --------------------------------------------------------------- criteria

  predicate FloorOk(sel: Selection, r: Reading) {
    sel.floor == BothFloors || r.floor == sel.floor
  }

  predicate DatesOk(sel: Selection, r: Reading) {
    sel.startDay <= r.day && r.day <= sel.endDay
  }

  predicate SensorOk(sel: Selection, r: Reading) {
    sel.sensors == [] || r.sensorId in sel.sensors
  }

  predicate BuildingOk(sel: Selection, r: Reading) {
    sel.buildings == [] || r.building in sel.buildings
  }

  predicate DeskOk(sel: Selection, r: Reading) {
    sel.desks == [] || r.name in sel.desks
  }

  /** A reading passes the filter exactly when it meets every criterion. */
  predicate Matches(sel: Selection, r: Reading) {
    FloorOk(sel, r) && DatesOk(sel, r) && SensorOk(sel, r) && BuildingOk(sel, r) && DeskOk(sel, r)
  }

  function Matcher(sel: Selection): Reading -> bool {
    r => Matches(sel, r)
  }

  /** The filtered view: the readings that match the selection, in their original order. */
  function Filtered(data: seq<Reading>, sel: Selection): seq<Reading> {
    Where(data, Matcher(sel))
  }

  // ------------------------------------------------------ the masks applied

  function FloorIs(floor: string): Reading -> bool {
    (r: Reading) => r.floor == floor
  }

  function DayBetween(first: int, last: int): Reading -> bool {
    (r: Reading) => first <= r.day && r.day <= last
  }

  function SensorIn(ids: seq<string>): Reading -> bool {
    (r: Reading) => r.sensorId in ids
  }

  function BuildingIn(buildings: seq<string>): Reading -> bool {
    (r: Reading) => r.building in buildings
  }

  function DeskIn(desks: seq<string>): Reading -> bool {
    (r: Reading) => r.name in desks
  }

  /**
   * The filter block: starting from the full data, each active criterion
   * narrows the current rows in turn.  The result is the single filter by the
   * conjunction of all criteria.
   */
  method ApplyFilters(data: seq<Reading>, sel: Selection) returns (f: seq<Reading>)
    ensures f == Filtered(data, sel)
  {
    f := data;
    ghost var passed: Reading -> bool := r => FloorOk(sel, r);
    if sel.floor != BothFloors {
      f := Where(f, FloorIs(sel.floor));
      WhereExtensional(data, FloorIs(sel.floor), passed);
    } else {
      WhereKeepsAll(data, passed);
    }
    assert f == Where(data, passed);

    f := Where(f, DayBetween(sel.startDay, sel.endDay));
    ghost var next: Reading -> bool := r => FloorOk(sel, r) && DatesOk(sel, r);
    WhereThen(data, passed, DayBetween(sel.startDay, sel.endDay), next);
    passed := next;

    next := r => FloorOk(sel, r) && DatesOk(sel, r) && SensorOk(sel, r);
    if sel.sensors != [] {
      f := Where(f, SensorIn(sel.sensors));
      WhereThen(data, passed, SensorIn(sel.sensors), next);
    } else {
      WhereExtensional(data, passed, next);
    }
    passed := next;

    next := r => FloorOk(sel, r) && DatesOk(sel, r) && SensorOk(sel, r) && BuildingOk(sel, r);
    if sel.buildings != [] {
      f := Where(f, BuildingIn(sel.buildings));
      WhereThen(data, passed, BuildingIn(sel.buildings), next);
    } else {
      WhereExtensional(data, passed, next);
    }
    passed := next;

    if sel.desks != [] {
      f := Where(f, DeskIn(sel.desks));
      WhereThen(data, passed, DeskIn(sel.desks), Matcher(sel));
    } else {
      WhereExtensional(data, passed, Matcher(sel));
    }
  }

  // ------------------------------------------------------------- properties

  /** No reading is fabricated or altered, and the original order is kept. */
  lemma FilteredIsSubsequence(data: seq<Reading>, sel: Selection)
    ensures IsSubsequence(Filtered(data, sel), data)
  {
    WhereIsSubsequence(data, Matcher(sel));
  }

  /**
   * A reading is kept exactly when it meets every criterion, and then every
   * copy of it is kept.
   */
  lemma FilteredKeepsExactlyTheMatches(data: seq<Reading>, sel: Selection, r: Reading)
    ensures r in Filtered(data, sel) <==> r in data && Matches(sel, r)
    ensures multiset(Filtered(data, sel))[r] == if Matches(sel, r) then multiset(data)[r] else 0
  {
    WhereMultiplicity(data, Matcher(sel), r);
  }

  /**
   * "Both Floors" leaves the floor unrestricted: narrowing its result to one
   * floor is the same as selecting that floor in the first place.
   */
  lemma BothFloorsIsUnrestricted(data: seq<Reading>, sel: Selection, floor: string)
    requires sel.floor == BothFloors && floor != BothFloors
    ensures Where(Filtered(data, sel), FloorIs(floor)) == Filtered(data, sel.(floor := floor))
  {
    var both := Matcher(sel);
    var one := Matcher(sel.(floor := floor));
    WhereThen(data, both, FloorIs(floor), one);
  }

  /** An empty sensor selection keeps the same rows as selecting every sensor offered. */
  lemma NoSensorsIsEverySensor(data: seq<Reading>, sel: Selection)
    requires sel.sensors == []
    ensures Filtered(data, sel) == Filtered(data, sel.(sensors := SensorOptions(data)))
  {
    forall r | r in data ensures Matches(sel, r) == Matches(sel.(sensors := SensorOptions(data)), r) {
      InColumn(data, SensorOf, r);
    }
    WhereExtensional(data, Matcher(sel), Matcher(sel.(sensors := SensorOptions(data))));
  }

  /** An empty building selection keeps the same rows as selecting every building offered. */
  lemma NoBuildingsIsEveryBuilding(data: seq<Reading>, sel: Selection)
    requires sel.buildings == []
    ensures Filtered(data, sel) == Filtered(data, sel.(buildings := BuildingOptions(data)))
  {
    forall r | r in data ensures Matches(sel, r) == Matches(sel.(buildings := BuildingOptions(data)), r) {
      InColumn(data, BuildingOf, r);
    }
    WhereExtensional(data, Matcher(sel), Matcher(sel.(buildings := BuildingOptions(data))));
  }

  /** An empty desk selection keeps the same rows as selecting every desk offered. */
  lemma NoDesksIsEveryDesk(data: seq<Reading>, sel: Selection)
    requires sel.desks == []
    ensures Filtered(data, sel) == Filtered(data, sel.(desks := DeskOptions(data)))
  {
    forall r | r in data ensures Matches(sel, r) == Matches(sel.(desks := DeskOptions(data)), r) {
      InColumn(data, DeskOf, r);
    }
    WhereExtensional(data, Matcher(sel), Matcher(sel.(desks := DeskOptions(data))));
  }

  /** Both ends of the date range are kept: a matching reading on either end day passes. */
  lemma DateRangeIsInclusive(data: seq<Reading>, sel: Selection, r: Reading)
    requires r in data && sel.startDay <= sel.endDay
    requires r.day == sel.startDay || r.day == sel.endDay
    requires FloorOk(sel, r) && SensorOk(sel, r) && BuildingOk(sel, r) && DeskOk(sel, r)
    ensures r in Filtered(data, sel)
  {
  }

  /** An inverted date range is accepted and selects nothing. */
  lemma InvertedRangeSelectsNothing(data: seq<Reading>, sel: Selection)
    requires sel.startDay > sel.endDay
    ensures Filtered(data, sel) == []
  {
    WhereKeepsNone(data, Matcher(sel));
  }

  /** With the widgets untouched, the filter keeps every reading. */
  lemma DefaultSelectionKeepsAll(data: seq<Reading>)
    requires data != []
    ensures Filtered(data, DefaultSelection(data)) == data
  {
    WhereKeepsAll(data, Matcher(DefaultSelection(data)));
  }
}
