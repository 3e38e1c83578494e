/** The computations behind `CafeManagerApp`'s two reports and its table
    button: the values the reports print, not the text itself. */
module Reports {
  import opened Clock
  import opened Tables
  import opened Manager

  /** One line of the current report: an occupied table with its minutes so
      far and what it owes, or a free table (0 minutes, nothing owed). */
  datatype CurrentLine = CurrentLine(id: int, occupied: bool, minutes: int, owed: real)

  datatype CurrentReport = CurrentReport(lines: seq<CurrentLine>, totalOwed: real)

  /** One line of the archive report. */
  datatype ArchiveLine = ArchiveLine(id: int, minutesOccupied: int, earnings: real)

  function ArchiveLineOf(t: TableState): ArchiveLine
  {
    ArchiveLine(t.id, t.minutesOccupied, t.earnings)
  }

  datatype ArchiveReport = ArchiveReport(
    lines: seq<ArchiveLine>,
    mostPopularId: Option<int>,
    highestEarningId: Option<int>,
    grandTotal: real)

  function CurrentLineOf(t: TableState, price: real, now: int): CurrentLine
    requires Consistent(t)
  {
    if t.occupied then CurrentLine(t.id, true, ElapsedMinutes(t.startTime.value, now), Owed(t, price, now))
    else CurrentLine(t.id, false, 0, 0.0)
  }

  /** What all guests would pay if they left at `now`. */
  function TotalOwed(ts: seq<TableState>, price: real, now: int): real
    requires AllConsistent(ts)
  {
    if ts == [] then 0.0
    else TotalOwed(ts[..|ts| - 1], price, now) + Owed(ts[|ts| - 1], price, now)
  }

  /** Every table released at `now`. */
  function ReleaseAll(ts: seq<TableState>, price: real, now: int): (r: seq<TableState>)
    requires AllConsistent(ts)
    ensures |r| == |ts|
  {
    seq(|ts|, i requires 0 <= i < |ts| => Release(ts[i], price, now))
  }

  /** The current report's total is exactly what the tables' earnings would
      grow by if every guest left at `now`, each table charged as
      `freeTable` charges it. */
  lemma {:induction false} TotalOwedIsReleaseCharge(ts: seq<TableState>, price: real, now: int)
    requires AllConsistent(ts)
    ensures SumEarnings(ReleaseAll(ts, price, now)) == SumEarnings(ts) + TotalOwed(ts, price, now)
  {
    if ts != [] {
      var n := |ts| - 1;
      assert ReleaseAll(ts, price, now)[..n] == ReleaseAll(ts[..n], price, now);
      TotalOwedIsReleaseCharge(ts[..n], price, now);
    }
  }

  /** With no table occupied, nobody owes anything. */
  lemma {:induction false} TotalOwedAllFree(ts: seq<TableState>, price: real, now: int)
    requires AllConsistent(ts)
    requires forall i :: 0 <= i < |ts| ==> !ts[i].occupied
    ensures TotalOwed(ts, price, now) == 0.0
  {
    if ts != [] {
      TotalOwedAllFree(ts[..|ts| - 1], price, now);
    }
  }

  /** With a non-negative price and a clock not before any start time,
      the total owed is non-negative. */
  lemma {:induction false} TotalOwedNonNegative(ts: seq<TableState>, price: real, now: int)
    requires AllConsistent(ts) && price >= 0.0 && AllStartedBy(ts, now)
    ensures TotalOwed(ts, price, now) >= 0.0
  {
    if ts != [] {
      TotalOwedNonNegative(ts[..|ts| - 1], price, now);
    }
  }

  /** The position of the first strictly greatest value, scanning in order
      and replacing the best only on a strictly greater value; None for an
      empty list. */
  function FirstMaxIndex(xs: seq<real>): (r: Option<nat>)
    ensures r.None? <==> xs == []
    ensures r.Some? ==> r.value < |xs|
    ensures r.Some? ==> forall j :: 0 <= j < |xs| ==> xs[j] <= xs[r.value]
    ensures r.Some? ==> forall j :: 0 <= j < r.value ==> xs[j] < xs[r.value]
  {
    if xs == [] then None
    else
      var best := FirstMaxIndex(xs[..|xs| - 1]);
      if best.None? || xs[|xs| - 1] > xs[best.value] then Some(|xs| - 1) else best
  }

  /** One step of the scan: the value at `i` replaces the best so far
      only when it is strictly greater than the best value. */
  lemma FirstMaxIndexStep(xs: seq<real>, i: nat, best: Option<nat>, x: real, bestX: real)
    requires i < |xs| && best == FirstMaxIndex(xs[..i]) && x == xs[i]
    requires best.Some? ==> best.value < |xs| && bestX == xs[best.value]
    ensures FirstMaxIndex(xs[..i + 1]) == if best.None? || x > bestX then Some(i) else best
  {
    assert xs[..i + 1][..i] == xs[..i];
  }

  /** The first maximum is the only position that is maximal and beaten by
      nothing before it: ties go to the earliest position. */
  lemma FirstMaxIndexUnique(xs: seq<real>, k: nat)
    requires k < |xs|
    requires forall j :: 0 <= j < |xs| ==> xs[j] <= xs[k]
    requires forall j :: 0 <= j < k ==> xs[j] < xs[k]
    ensures FirstMaxIndex(xs) == Some(k)
  {
  }

  /** Occupancy counts in list order. */
  function Counts(ts: seq<TableState>): seq<real>
  {
    seq(|ts|, i requires 0 <= i < |ts| => ts[i].occupancyCount as real)
  }

  /** Lifetime earnings in list order. */
  function Earnings(ts: seq<TableState>): seq<real>
  {
    seq(|ts|, i requires 0 <= i < |ts| => ts[i].earnings)
  }

  function IdAt(ts: seq<TableState>, k: Option<nat>): Option<int>
  {
    if k.Some? && k.value < |ts| then Some(ts[k.value].id) else None
  }

  /** The most popular table: the one with the most completed uses, the
      lowest id among ties. */
  function MostPopular(ts: seq<TableState>): Option<int>
  {
    IdAt(ts, FirstMaxIndex(Counts(ts)))
  }

  /** The highest-earning table, the lowest id among ties. */
  function HighestEarning(ts: seq<TableState>): Option<int>
  {
    IdAt(ts, FirstMaxIndex(Earnings(ts)))
  }

  /** On tables with ids 1..n, the reported most popular table has the
      greatest use count, every table before it has fewer uses, and there
      is none exactly when there are no tables; likewise for earnings. */
  lemma ArchiveWinners(ts: seq<TableState>)
    requires DenseIds(ts)
    ensures MostPopular(ts).None? <==> ts == []
    ensures HighestEarning(ts).None? <==> ts == []
    ensures MostPopular(ts).Some? ==>
      var k := MostPopular(ts).value - 1;
      && 0 <= k < |ts|
      && (forall j :: 0 <= j < |ts| ==> ts[j].occupancyCount <= ts[k].occupancyCount)
      && (forall j :: 0 <= j < k ==> ts[j].occupancyCount < ts[k].occupancyCount)
    ensures HighestEarning(ts).Some? ==>
      var k := HighestEarning(ts).value - 1;
      && 0 <= k < |ts|
      && (forall j :: 0 <= j < |ts| ==> ts[j].earnings <= ts[k].earnings)
      && (forall j :: 0 <= j < k ==> ts[j].earnings < ts[k].earnings)
  {
    var counts, earnings := Counts(ts), Earnings(ts);
    var p, h := FirstMaxIndex(counts), FirstMaxIndex(earnings);
    assert forall j :: 0 <= j < |ts| ==> counts[j] == ts[j].occupancyCount as real;
    assert forall j :: 0 <= j < |ts| ==> earnings[j] == ts[j].earnings;
  }

  /** `getCurrentStats`: one line per table in list order, and the total
      owed by occupied tables. Reads the manager and changes nothing. */
  method CurrentStats(m: CafeManager, now: int) returns (report: CurrentReport)
    requires m.Valid()
    ensures |report.lines| == |m.tables|
    ensures forall i :: 0 <= i < |m.tables| ==>
      report.lines[i] == CurrentLineOf(m.Snapshots()[i], m.pricePerMinute, now)
    ensures report.totalOwed == TotalOwed(m.Snapshots(), m.pricePerMinute, now)
  {
    ghost var snaps := m.Snapshots();
    var lines: seq<CurrentLine> := [];
    var totalCurrentCost := 0.0;
    for i := 0 to |m.tables|
      invariant |lines| == i
      invariant forall j :: 0 <= j < i ==> lines[j] == CurrentLineOf(snaps[j], m.pricePerMinute, now)
      invariant totalCurrentCost == TotalOwed(snaps[..i], m.pricePerMinute, now)
    {
      var table := m.tables[i];
      assert snaps[..i + 1][..i] == snaps[..i];
      if table.occupied {
        var minutes := ElapsedMinutes(table.startTime.value, now);
        var currentCost := Charge(minutes, m.pricePerMinute);
        lines := lines + [CurrentLine(table.id, true, minutes, currentCost)];
        totalCurrentCost := totalCurrentCost + currentCost;
      } else {
        lines := lines + [CurrentLine(table.id, false, 0, 0.0)];
      }
    }
    assert snaps[..|m.tables|] == snaps;
    report := CurrentReport(lines, totalCurrentCost);
  }

  /** `getArchiveStats`: per-table lifetime minutes and earnings, the most
      popular and the highest-earning table (first strictly greater wins),
      and the manager's own total. Reads the manager and changes nothing. */
  method ArchiveStats(m: CafeManager) returns (report: ArchiveReport)
    ensures |report.lines| == |m.tables|
    ensures forall i :: 0 <= i < |m.tables| ==> report.lines[i] == ArchiveLineOf(m.Snapshots()[i])
    ensures report.mostPopularId == MostPopular(m.Snapshots())
    ensures report.highestEarningId == HighestEarning(m.Snapshots())
    ensures report.grandTotal == m.totalEarnings
  {
    var tables := m.tables;
    ghost var counts := seq(|tables|, j requires 0 <= j < |tables| reads tables => tables[j].totalOccupancyCount as real);
    ghost var earnings := seq(|tables|, j requires 0 <= j < |tables| reads tables => tables[j].totalEarnings);
    ghost var expected := seq(|tables|, j requires 0 <= j < |tables| reads tables => ArchiveLineOf(tables[j].Snapshot()));
    var lines: seq<ArchiveLine> := [];
    var mostPopular: Option<nat> := None;
    var highestEarning: Option<nat> := None;
    for i := 0 to |tables|
      invariant lines == expected[..i]
      invariant mostPopular == FirstMaxIndex(counts[..i])
      invariant highestEarning == FirstMaxIndex(earnings[..i])
    {
      var table := tables[i];
      assert expected[..i + 1] == expected[..i] + [expected[i]];
      lines := lines + [ArchiveLine(table.id, table.totalMinutesOccupied, table.totalEarnings)];
      if mostPopular.Some? {
        FirstMaxIndexStep(counts, i, mostPopular, table.totalOccupancyCount as real,
                          tables[mostPopular.value].totalOccupancyCount as real);
      } else {
        FirstMaxIndexStep(counts, i, mostPopular, table.totalOccupancyCount as real, 0.0);
      }
      if highestEarning.Some? {
        FirstMaxIndexStep(earnings, i, highestEarning, table.totalEarnings,
                          tables[highestEarning.value].totalEarnings);
      } else {
        FirstMaxIndexStep(earnings, i, highestEarning, table.totalEarnings, 0.0);
      }
      if mostPopular == None || table.totalOccupancyCount > tables[mostPopular.value].totalOccupancyCount {
        mostPopular := Some(i);
      }
      if highestEarning == None || table.totalEarnings > tables[highestEarning.value].totalEarnings {
        highestEarning := Some(i);
      }
    }
    assert counts[..|tables|] == counts && earnings[..|tables|] == earnings && expected[..|tables|] == expected;
    assert counts == Counts(m.Snapshots()) && earnings == Earnings(m.Snapshots());
    var mostPopularId := if mostPopular.Some? then Some(tables[mostPopular.value].id) else None;
    var highestEarningId := if highestEarning.Some? then Some(tables[highestEarning.value].id) else None;
    report := ArchiveReport(lines, mostPopularId, highestEarningId, m.totalEarnings);
  }

  /** A manager that was never used reports zero minutes and earnings for
      every table and a grand total of 0. */
  lemma ArchiveOfNewCafe(tableCount: int, price: real)
    ensures var c := NewCafe(tableCount, price);
      && (forall i :: 0 <= i < |c.tables| ==> c.tables[i].minutesOccupied == 0 && c.tables[i].earnings == 0.0)
      && c.totalEarnings == 0.0
      && (tableCount >= 1 ==> MostPopular(c.tables) == Some(1) && HighestEarning(c.tables) == Some(1))
  {
    var c := NewCafe(tableCount, price);
    if tableCount >= 1 {
      FirstMaxIndexUnique(Counts(c.tables), 0);
      FirstMaxIndexUnique(Earnings(c.tables), 0);
    }
  }

  /** The table button: frees table `id` when it is occupied, occupies it
      when it is free. The table is taken from list index id - 1. */
  function Toggle(c: Cafe, id: int, now: int): Cafe
    requires WellFormed(c) && 1 <= id <= |c.tables|
  {
    if c.tables[id - 1].occupied then FreeStep(c, id, now).cafe else OccupyStep(c, id, now).cafe
  }

  /** A button press flips exactly that table's occupied flag and leaves
      every other table as it was. */
  lemma ToggleFlips(c: Cafe, id: int, now: int)
    requires WellFormed(c) && 1 <= id <= |c.tables|
    ensures var c' := Toggle(c, id, now);
      && WellFormed(c')
      && |c'.tables| == |c.tables|
      && c'.tables[id - 1].occupied == !c.tables[id - 1].occupied
      && (forall j :: 0 <= j < |c.tables| && j != id - 1 ==> c'.tables[j] == c.tables[j])
  {
    if c.tables[id - 1].occupied {
      FreeStepSpec(c, id, now);
    } else {
      OccupyStepSpec(c, id, now);
    }
  }

  /** `handleTableButtonPress(tableId)`; the buttons are numbered
      1..tables.size(), so the list index is in range. */
  method HandleTableButtonPress(m: CafeManager, tableId: int, now: int)
    requires m.Valid() && 1 <= tableId <= |m.tables|
    modifies m`totalEarnings, m.tables
    ensures m.Valid()
    ensures m.State() == Toggle(old(m.State()), tableId, now)
  {
    var table := m.tables[tableId - 1];
    if table.occupied {
      var _ := m.FreeTable(tableId, now);
    } else {
      var _ := m.OccupyTable(tableId, now);
    }
  }
}
