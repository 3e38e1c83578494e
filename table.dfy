/** One table of the anti-cafe: its occupancy state machine (FREE,
    OCCUPIED) and its lifetime counters. The Java class `Table` is rebuilt
    from the calls `CafeManager`, `CafeManagerApp` and `TableTest` make on it. */
module Tables {
  import opened Clock

  datatype Option<T> = None | Some(value: T)

  /** A value snapshot of one table: what its getters return. */
  datatype TableState = TableState(
    id: int,
    occupied: bool,
    startTime: Option<int>,
    minutesOccupied: int,
    earnings: real,
    occupancyCount: int)

  /** The table's own invariant: a start time is recorded exactly while
      the table is occupied. */
  predicate Consistent(t: TableState)
  {
    t.occupied <==> t.startTime.Some?
  }

  /** A freshly constructed table. */
  function NewTableState(id: int): TableState
  {
    TableState(id, false, None, 0, 0.0, 0)
  }

  /** `occupyTable()`: from FREE, occupied from `now` on; already OCCUPIED
      is a no-op that keeps the running start time. */
  function Occupy(t: TableState, now: int): (r: TableState)
    ensures Consistent(t) ==> Consistent(r)
    ensures r.occupied
    ensures t.occupied ==> r == t
    ensures !t.occupied ==> r.startTime == Some(now)
    ensures r.id == t.id && r.minutesOccupied == t.minutesOccupied
    ensures r.earnings == t.earnings && r.occupancyCount == t.occupancyCount
  {
    if t.occupied then t else t.(occupied := true, startTime := Some(now))
  }

  /** Charge for a session of `minutes` whole minutes. */
  function Charge(minutes: int, price: real): real
  {
    minutes as real * price
  }

  /** What an occupied table owes at `now` if the guest left then; a free
      table owes nothing. */
  function Owed(t: TableState, price: real, now: int): (r: real)
    requires Consistent(t)
    ensures !t.occupied ==> r == 0.0
    ensures t.occupied && price >= 0.0 && now >= t.startTime.value ==> r >= 0.0
  {
    if t.occupied then Charge(ElapsedMinutes(t.startTime.value, now), price) else 0.0
  }

  /** `freeTable(price)`: from OCCUPIED, ends the session at `now`, adds
      its whole minutes, adds their charge and counts one more use; from
      FREE it is a no-op. */
  function Release(t: TableState, price: real, now: int): (r: TableState)
    requires Consistent(t)
    ensures Consistent(r) && !r.occupied && r.startTime == None
    ensures !t.occupied ==> r == t
    ensures t.occupied ==>
      && r.id == t.id
      && r.minutesOccupied == t.minutesOccupied + ElapsedMinutes(t.startTime.value, now)
      && r.earnings == t.earnings + Owed(t, price, now)
      && r.occupancyCount == t.occupancyCount + 1
  {
    if !t.occupied then t
    else
      var minutes := ElapsedMinutes(t.startTime.value, now);
      t.(occupied := false, startTime := None,
         minutesOccupied := t.minutesOccupied + minutes,
         earnings := t.earnings + Charge(minutes, price),
         occupancyCount := t.occupancyCount + 1)
  }

  /** Counters that have not gone below zero. */
  predicate NonNegative(t: TableState)
  {
    t.minutesOccupied >= 0 && t.earnings >= 0.0 && t.occupancyCount >= 0
  }

  /** The clock has not gone back before the running session's start. */
  predicate StartedBy(t: TableState, now: int)
  {
    t.startTime.Some? ==> t.startTime.value <= now
  }

  /** With a non-negative price and a clock that does not run backwards,
      releasing never decreases a counter, so counters stay non-negative. */
  lemma ReleaseMonotone(t: TableState, price: real, now: int)
    requires Consistent(t) && price >= 0.0 && StartedBy(t, now)
    ensures var r := Release(t, price, now);
      && r.minutesOccupied >= t.minutesOccupied
      && r.earnings >= t.earnings
      && r.occupancyCount >= t.occupancyCount
      && (NonNegative(t) ==> NonNegative(r))
  {
  }

  /** The table object. `getId`, `isOccupied`, `getStartTime`,
      `getTotalMinutesOccupied`, `getTotalEarnings` and
      `getTotalOccupancyCount` are reads of the fields below. */
  class Table {
    const id: int
    var occupied: bool
    var startTime: Option<int>
    var totalMinutesOccupied: int
    var totalEarnings: real
    var totalOccupancyCount: int

    /** The values the getters return. */
    function Snapshot(): TableState
      reads this
    {
      TableState(id, occupied, startTime, totalMinutesOccupied, totalEarnings, totalOccupancyCount)
    }

    ghost predicate Valid()
      reads this
    {
      Consistent(Snapshot())
    }

    /** `new Table(id)`: free, no start time, all counters zero. */
    constructor (id: int)
      ensures Valid() && Snapshot() == NewTableState(id)
      ensures this.id == id && !occupied && startTime == None
      ensures totalMinutesOccupied == 0 && totalEarnings == 0.0 && totalOccupancyCount == 0
    {
      this.id := id;
      occupied := false;
      startTime := None;
      totalMinutesOccupied := 0;
      totalEarnings := 0.0;
      totalOccupancyCount := 0;
    }

    /** `occupyTable()`, with the clock reading passed in. */
    method OccupyTable(now: int)
      requires Valid()
      modifies this
      ensures Valid() && Snapshot() == Occupy(old(Snapshot()), now)
    {
      if !occupied {
        occupied := true;
        startTime := Some(now);
      }
    }

    /** `freeTable(price)`, with the clock reading passed in. */
    method FreeTable(price: real, now: int)
      requires Valid()
      modifies this
      ensures Valid() && Snapshot() == Release(old(Snapshot()), price, now)
    {
      if occupied {
        var minutes := ElapsedMinutes(startTime.value, now);
        totalMinutesOccupied := totalMinutesOccupied + minutes;
        totalEarnings := totalEarnings + Charge(minutes, price);
        totalOccupancyCount := totalOccupancyCount + 1;
        occupied := false;
        startTime := None;
      }
    }
  }
}
