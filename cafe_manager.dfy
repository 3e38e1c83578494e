/** `CafeManager`: the fleet of tables with ids 1..tableCount, the fixed
    price per minute and the running total of earnings. The pure functions
    at the top give the manager's behaviour on values; the class below
    holds the table objects and is proved against them. */
module Manager {
  import opened Clock
  import opened Tables

  /** A value snapshot of the manager. */
  datatype Cafe = Cafe(tables: seq<TableState>, pricePerMinute: real, totalEarnings: real)

  /** The new manager state and the boolean the operation returns. */
  datatype Outcome = Outcome(cafe: Cafe, ok: bool)

  /** The number of tables the constructor's loop `for (i = 1; i <= n; i++)`
      creates. */
  function TableCount(n: int): nat
  {
    if n < 0 then 0 else n
  }

  /** The ids of the tables, in list order. */
  function Ids(ts: seq<TableState>): seq<int>
  {
    seq(|ts|, i requires 0 <= i < |ts| => ts[i].id)
  }

  /** `findTableById`: the position of the first entry equal to `id`, or
      None when no entry is. */
  function FindIndex(ids: seq<int>, id: int): (r: Option<nat>)
    ensures r.Some? ==> r.value < |ids| && ids[r.value] == id
    ensures r.Some? ==> forall j :: 0 <= j < r.value ==> ids[j] != id
    ensures r.None? ==> forall j :: 0 <= j < |ids| ==> ids[j] != id
  {
    if ids == [] then None
    else if ids[0] == id then Some(0)
    else match FindIndex(ids[1..], id)
      case None => None
      case Some(k) => Some(k + 1)
  }

  /** Table ids are 1..n in list order, as the constructor makes them. */
  predicate DenseIds(ts: seq<TableState>)
  {
    forall i :: 0 <= i < |ts| ==> ts[i].id == i + 1
  }

  predicate AllConsistent(ts: seq<TableState>)
  {
    forall i :: 0 <= i < |ts| ==> Consistent(ts[i])
  }

  predicate WellFormed(c: Cafe)
  {
    DenseIds(c.tables) && AllConsistent(c.tables)
  }

  /** With ids 1..n, a table is found exactly when 1 <= id <= n, and it is
      the one at list index id - 1. */
  lemma FindIndexDense(ts: seq<TableState>, id: int)
    requires DenseIds(ts)
    ensures FindIndex(Ids(ts), id) == if 1 <= id <= |ts| then Some(id - 1) else None
  {
    var ids := Ids(ts);
    if 1 <= id <= |ts| {
      assert ids[id - 1] == id;
    }
  }

  /** `new CafeManager(tableCount, pricePerMinute)`. */
  function NewCafe(tableCount: int, price: real): (c: Cafe)
    ensures WellFormed(c)
    ensures |c.tables| == TableCount(tableCount)
    ensures forall i :: 0 <= i < |c.tables| ==>
      && !c.tables[i].occupied
      && c.tables[i].startTime == None
      && c.tables[i].minutesOccupied == 0
      && c.tables[i].earnings == 0.0
      && c.tables[i].occupancyCount == 0
    ensures c.pricePerMinute == price && c.totalEarnings == 0.0
  {
    Cafe(seq(TableCount(tableCount), i => NewTableState(i + 1)), price, 0.0)
  }

  /** `occupyTable(id)`: succeeds when the table exists and is free. */
  function OccupyStep(c: Cafe, id: int, now: int): Outcome
  {
    match FindIndex(Ids(c.tables), id)
    case None => Outcome(c, false)
    case Some(k) =>
      if c.tables[k].occupied then Outcome(c, false)
      else Outcome(c.(tables := c.tables[k := Occupy(c.tables[k], now)]), true)
  }

  /** `freeTable(id)`, as written: releases the table and then adds the
      table's LIFETIME earnings (`table.getTotalEarnings()`) to the
      manager's total. */
  function FreeStep(c: Cafe, id: int, now: int): Outcome
    requires AllConsistent(c.tables)
  {
    match FindIndex(Ids(c.tables), id)
    case None => Outcome(c, false)
    case Some(k) =>
      if !c.tables[k].occupied then Outcome(c, false)
      else
        var t := Release(c.tables[k], c.pricePerMinute, now);
        Outcome(c.(tables := c.tables[k := t], totalEarnings := c.totalEarnings + t.earnings), true)
  }

  /** `occupyTable(id)` returns true exactly when table `id` exists and is
      free; then only that table changes, to occupied from `now`.
      Otherwise nothing changes. */
  lemma OccupyStepSpec(c: Cafe, id: int, now: int)
    requires WellFormed(c)
    ensures var o := OccupyStep(c, id, now);
      && WellFormed(o.cafe)
      && (o.ok <==> 1 <= id <= |c.tables| && !c.tables[id - 1].occupied)
      && (o.ok ==>
            && o.cafe.tables == c.tables[id - 1 := Occupy(c.tables[id - 1], now)]
            && o.cafe.tables[id - 1].occupied
            && o.cafe.tables[id - 1].startTime == Some(now)
            && o.cafe.pricePerMinute == c.pricePerMinute
            && o.cafe.totalEarnings == c.totalEarnings)
      && (!o.ok ==> o.cafe == c)
  {
    FindIndexDense(c.tables, id);
  }

  /** `freeTable(id)` returns true exactly when table `id` exists and is
      occupied. Then that table is free, has one more use, the session's
      whole minutes and their charge added, and the manager's total grows
      by the table's new lifetime earnings; no other table changes.
      Otherwise nothing changes. */
  lemma FreeStepSpec(c: Cafe, id: int, now: int)
    requires WellFormed(c)
    ensures var o := FreeStep(c, id, now);
      && WellFormed(o.cafe)
      && (o.ok <==> 1 <= id <= |c.tables| && c.tables[id - 1].occupied)
      && (o.ok ==>
            var t, t' := c.tables[id - 1], o.cafe.tables[id - 1];
            && o.cafe.tables == c.tables[id - 1 := t']
            && !t'.occupied && t'.startTime == None
            && t'.occupancyCount == t.occupancyCount + 1
            && t'.minutesOccupied == t.minutesOccupied + ElapsedMinutes(t.startTime.value, now)
            && t'.earnings == t.earnings + ElapsedMinutes(t.startTime.value, now) as real * c.pricePerMinute
            && o.cafe.pricePerMinute == c.pricePerMinute
            && o.cafe.totalEarnings == c.totalEarnings + t'.earnings)
      && (!o.ok ==> o.cafe == c)
  {
    FindIndexDense(c.tables, id);
  }

  predicate AllNonNegative(ts: seq<TableState>)
  {
    forall i :: 0 <= i < |ts| ==> NonNegative(ts[i])
  }

  predicate AllStartedBy(ts: seq<TableState>, now: int)
  {
    forall i :: 0 <= i < |ts| ==> StartedBy(ts[i], now)
  }

  /** With a non-negative price and a clock that does not run backwards,
      a successful `freeTable` never lowers the manager's total or any
      table's counters. */
  lemma FreeStepMonotone(c: Cafe, id: int, now: int)
    requires WellFormed(c) && c.pricePerMinute >= 0.0
    requires AllNonNegative(c.tables) && AllStartedBy(c.tables, now)
    ensures var o := FreeStep(c, id, now);
      && AllNonNegative(o.cafe.tables)
      && o.cafe.totalEarnings >= c.totalEarnings
  {
  }

  /** Sum of the tables' lifetime earnings. */
  function SumEarnings(ts: seq<TableState>): real
  {
    if ts == [] then 0.0 else SumEarnings(ts[..|ts| - 1]) + ts[|ts| - 1].earnings
  }

  /** Replacing one table changes the sum by the difference in that
      table's earnings. */
  lemma {:induction false} SumEarningsUpdate(ts: seq<TableState>, k: nat, t: TableState)
    requires k < |ts|
    ensures SumEarnings(ts[k := t]) == SumEarnings(ts) - ts[k].earnings + t.earnings
  {
    var n := |ts| - 1;
    if k < n {
      assert ts[k := t][..n] == ts[..n][k := t];
      SumEarningsUpdate(ts[..n], k, t);
    } else {
      assert ts[k := t][..n] == ts[..n];
    }
  }

  /** The manager's total agrees with the tables' own totals. */
  predicate Balanced(c: Cafe)
  {
    c.totalEarnings == SumEarnings(c.tables)
  }

  /** Occupying a table changes no earnings at all. */
  lemma OccupyStepKeepsBalance(c: Cafe, id: int, now: int)
    requires WellFormed(c)
    ensures var o := OccupyStep(c, id, now);
      SumEarnings(o.cafe.tables) == SumEarnings(c.tables) && (Balanced(c) ==> Balanced(o.cafe))
  {
    OccupyStepSpec(c, id, now);
    if 1 <= id <= |c.tables| && !c.tables[id - 1].occupied {
      SumEarningsUpdate(c.tables, id - 1, Occupy(c.tables[id - 1], now));
    }
  }

  /** The code as written: each successful `freeTable` moves the manager's
      total away from the sum of the tables' totals by the earnings the
      table had BEFORE this session. Balance survives only while every
      freed table had earned nothing before. */
  lemma FreeStepDrift(c: Cafe, id: int, now: int)
    requires WellFormed(c)
    ensures var o := FreeStep(c, id, now);
      o.ok ==> o.cafe.totalEarnings - SumEarnings(o.cafe.tables)
               == c.totalEarnings - SumEarnings(c.tables) + c.tables[id - 1].earnings
  {
    FreeStepSpec(c, id, now);
    var o := FreeStep(c, id, now);
    if o.ok {
      SumEarningsUpdate(c.tables, id - 1, o.cafe.tables[id - 1]);
    }
  }

  /** Concretely: one table at 5.0 a minute, two sessions of 3 minutes.
      The table has earned 30.0, but the manager's total reads 45.0. */
  lemma DoubleCountExample()
    ensures var c0 := NewCafe(1, 5.0);
      var c1 := OccupyStep(c0, 1, 0).cafe;
      var c2 := FreeStep(c1, 1, 180).cafe;
      var c3 := OccupyStep(c2, 1, 200).cafe;
      var c4 := FreeStep(c3, 1, 380).cafe;
      && Balanced(c2) && c2.totalEarnings == 15.0
      && c4.tables[0].earnings == 30.0
      && c4.totalEarnings == 45.0
      && !Balanced(c4)
  {
  }

  /** `freeTable(id)` as evidently intended: the manager's total grows by
      the charge just earned, not by the table's lifetime earnings. */
  function FreeStepCharged(c: Cafe, id: int, now: int): Outcome
    requires AllConsistent(c.tables)
  {
    match FindIndex(Ids(c.tables), id)
    case None => Outcome(c, false)
    case Some(k) =>
      if !c.tables[k].occupied then Outcome(c, false)
      else
        var charge := Owed(c.tables[k], c.pricePerMinute, now);
        var t := Release(c.tables[k], c.pricePerMinute, now);
        Outcome(c.(tables := c.tables[k := t], totalEarnings := c.totalEarnings + charge), true)
  }

  /** The corrected release keeps the manager's total equal to the sum of
      the tables' totals, whatever the tables earned before. */
  lemma FreeStepChargedKeepsBalance(c: Cafe, id: int, now: int)
    requires WellFormed(c) && Balanced(c)
    ensures var o := FreeStepCharged(c, id, now);
      && Balanced(o.cafe)
      && (o.ok <==> FreeStep(c, id, now).ok)
      && o.cafe.tables == FreeStep(c, id, now).cafe.tables
  {
    FindIndexDense(c.tables, id);
    var o := FreeStepCharged(c, id, now);
    if o.ok {
      SumEarningsUpdate(c.tables, id - 1, o.cafe.tables[id - 1]);
    }
  }

  /** Three tables at 2.0 a minute: occupying table 1 succeeds, occupying
      it again fails, freeing it at once succeeds with a use count of 1 and
      nothing charged; freeing table 99 fails and changes nothing. */
  lemma ScenarioOccupyTwiceFreeAtOnce(now: int)
    ensures var c0 := NewCafe(3, 2.0);
      var o1 := OccupyStep(c0, 1, now);
      var o2 := OccupyStep(o1.cafe, 1, now);
      var o3 := FreeStep(o2.cafe, 1, now);
      && o1.ok && !o2.ok && o3.ok
      && o3.cafe.tables[0].occupancyCount == 1
      && o3.cafe.tables[0].earnings == 0.0
      && !FreeStep(c0, 99, now).ok && FreeStep(c0, 99, now).cafe == c0
  {
  }

  /** One table at 5.0 a minute, occupied for 3 minutes: it earns 15.0
      over 3 minutes, and so does the manager. */
  lemma ScenarioThreeMinutes(start: int)
    ensures var c0 := NewCafe(1, 5.0);
      var c1 := OccupyStep(c0, 1, start).cafe;
      var o := FreeStep(c1, 1, start + 180);
      && o.ok
      && o.cafe.tables[0].earnings == 15.0
      && o.cafe.tables[0].minutesOccupied == 3
      && o.cafe.totalEarnings == 15.0
  {
  }

  /** The manager object. `getTables`, `getPricePerMinute` and
      `getTotalEarnings` are reads of the fields below. */
  class CafeManager {
    const tables: seq<Table>
    const pricePerMinute: real
    var totalEarnings: real

    /** The tables' snapshots, in list order. */
    function Snapshots(): seq<TableState>
      reads tables
    {
      seq(|tables|, i requires 0 <= i < |tables| reads tables => tables[i].Snapshot())
    }

    function State(): Cafe
      reads this, tables
    {
      Cafe(Snapshots(), pricePerMinute, totalEarnings)
    }

    /** The tables' ids, in list order. */
    function TableIds(): (ids: seq<int>)
      ensures ids == Ids(Snapshots())
    {
      seq(|tables|, i requires 0 <= i < |tables| => tables[i].id)
    }

    /** Ids 1..n in list order and every table consistent. Distinct ids
        also make the table objects distinct. */
    ghost predicate Valid()
      reads this, tables
      ensures Valid() ==> WellFormed(State())
    {
      && (forall i :: 0 <= i < |tables| ==> tables[i].id == i + 1)
      && (forall i :: 0 <= i < |tables| ==> tables[i].Valid())
    }

    /** `findTableById(id)`: the first table whose id is `id`, if any. */
    function FindTableById(id: int): (r: Option<Table>)
      ensures r.Some? ==> exists k :: 0 <= k < |tables| && tables[k] == r.value && r.value.id == id &&
                            forall j :: 0 <= j < k ==> tables[j].id != id
      ensures r.None? ==> forall i :: 0 <= i < |tables| ==> tables[i].id != id
    {
      match FindIndex(TableIds(), id)
      case None =>
        assert forall i :: 0 <= i < |tables| ==> TableIds()[i] == tables[i].id;
        None
      case Some(k) =>
        assert forall j :: 0 <= j < k ==> TableIds()[j] == tables[j].id;
        Some(tables[k])
    }

    /** `new CafeManager(tableCount, pricePerMinute)`: tables 1..tableCount,
        none when tableCount <= 0, all free, total 0. */
    constructor (tableCount: int, pricePerMinute: real)
      ensures Valid() && State() == NewCafe(tableCount, pricePerMinute)
      ensures forall t :: t in tables ==> fresh(t)
    {
      var ts: seq<Table> := [];
      var i := 1;
      while i <= tableCount
        invariant 1 <= i <= TableCount(tableCount) + 1
        invariant |ts| == i - 1
        invariant forall j :: 0 <= j < |ts| ==> fresh(ts[j])
        invariant forall j :: 0 <= j < |ts| ==> ts[j].Valid() && ts[j].Snapshot() == NewTableState(j + 1)
      {
        var t := new Table(i);
        ts := ts + [t];
        i := i + 1;
      }
      tables := ts;
      this.pricePerMinute := pricePerMinute;
      totalEarnings := 0.0;
      new;
      assert Snapshots() == NewCafe(tableCount, pricePerMinute).tables;
    }

    /** `occupyTable(id)`. */
    method OccupyTable(id: int, now: int) returns (ok: bool)
      requires Valid()
      modifies tables
      ensures Valid()
      ensures ok == OccupyStep(old(State()), id, now).ok
      ensures State() == OccupyStep(old(State()), id, now).cafe
    {
      ghost var k := FindIndex(TableIds(), id);
      var found := FindTableById(id);
      if found.Some? && !found.value.occupied {
        found.value.OccupyTable(now);
        ok := true;
        assert Snapshots() == old(Snapshots())[k.value := found.value.Snapshot()];
      } else {
        ok := false;
      }
    }

    /** `freeTable(id)`. */
    method FreeTable(id: int, now: int) returns (ok: bool)
      requires Valid()
      modifies this`totalEarnings, tables
      ensures Valid()
      ensures ok == FreeStep(old(State()), id, now).ok
      ensures State() == FreeStep(old(State()), id, now).cafe
    {
      ghost var k := FindIndex(TableIds(), id);
      var found := FindTableById(id);
      if found.Some? && found.value.occupied {
        var table := found.value;
        table.FreeTable(pricePerMinute, now);
        totalEarnings := totalEarnings + table.totalEarnings;
        ok := true;
        assert Snapshots() == old(Snapshots())[k.value := table.Snapshot()];
      } else {
        ok := false;
      }
    }
  }
}
