# Anti-cafe occupancy and billing, modelled in Dafny

This project models the core of an anti-cafe manager. An anti-cafe is a venue that charges its guests by the minute. The model covers three parts:

- **`Table`** (`table.dfy`, module `Tables`). Each table is a small state machine with two states, FREE and OCCUPIED. It also keeps lifetime counters: minutes occupied, earnings and the number of completed sessions. `occupyTable()` starts a session and does nothing if one is already running. `freeTable(price)` ends a session. It adds the session's whole minutes, truncated. It adds those minutes times the price to the earnings, and it counts one more use. On a free table it does nothing. The source of `Table` is not reproduced here. The class is rebuilt from how `CafeManager`, `CafeManagerApp` and `TableTest` use it.
- **`CafeManager`** (`cafe_manager.dfy`, module `Manager`). The manager owns the tables, with ids `1..tableCount` in list order, and a fixed price per minute. It also keeps a running `totalEarnings`. `occupyTable(id)` and `freeTable(id)` find the table by a linear scan. They change it only when it is in the right state, and they report the result as a boolean.
- **`CafeManagerApp`** (`reports.dfy`, module `Reports`). This part holds the values behind the current report and the archive report, and the toggle rule of the table buttons.

The project also has a clock module, `clock.dfy` (module `Clock`). It holds `Duration.between(start, now).toMinutes()` on whole-second instants. Like Java's `long` division, it truncates toward zero.

Every operation that changes state has two forms:
- a pure step function on value snapshots (`TableState`, `Cafe`), which the lemmas reason about;
- a class method that changes the objects in place. Its `ensures` ties the new snapshot to that step function applied to the old one.

The wall clock is a parameter `now`, in integer seconds. Money is `real`.

The program's own documentation and its code disagree on one point. The Javadoc of `freeTable` says it "calculates the earnings for its usage" (`CafeManager.java:55`). The Javadoc of `getTotalEarnings` says it "Gets the total earnings from all tables" (`CafeManager.java:71-73`). The code at `CafeManager.java:64`, however, adds the table's lifetime `getTotalEarnings()` after each release, not the charge for that session. The model follows the code (`Manager.FreeStep`, `Manager.CafeManager.FreeTable`). The discrepancy is recorded under Findings.

## Model

| member | source | states |
|---|---|---|
| `Clock.ElapsedMinutes` | src/main/java/org/example/kurs/CafeManagerApp.java:148 | Whole minutes between two instants, truncated toward zero: with `now >= start`, `m*60 <= now-start < m*60+60` and `m >= 0`. A backwards interval gives `m <= 0`, truncated toward zero. |
| `Clock.ElapsedMinutesMonotone` | src/main/java/org/example/kurs/CafeManagerApp.java:148 | A later clock reading never shows fewer elapsed minutes. |
| `Clock.ElapsedMinutesTruncates` | src/main/java/org/example/kurs/CafeManagerApp.java:148 | 0 to 59 seconds count as 0 minutes, and 60 to 119 seconds as 1 minute. |
| `Tables.Occupy` | src/test/java/org/example/kurs/TableTest.java:32-47 | Occupying a free table makes it occupied, with start time `now`. An occupied table is returned unchanged, with its start time kept. No counter changes, and consistency is kept. |
| `Tables.Owed` | src/main/java/org/example/kurs/CafeManagerApp.java:147-149 | A free table owes 0. An occupied table owes elapsed minutes times price, which is non-negative for a non-negative price and a clock not before the start. |
| `Tables.Release` | src/test/java/org/example/kurs/TableTest.java:49-74 | Afterwards the table is free with no start time. From OCCUPIED, the use count goes up by 1, minutes go up by the truncated elapsed minutes, and earnings go up by the amount `Owed` reports. From FREE, nothing changes. |
| `Tables.ReleaseMonotone` | src/test/java/org/example/kurs/TableTest.java:58-66 | With price >= 0 and a clock not before the start, no counter decreases, and non-negative counters stay non-negative. |
| `Tables.Table.constructor` | src/test/java/org/example/kurs/TableTest.java:20-30 | A new table has the given id, is free, has no start time, and has zero minutes, earnings and use count. |
| `Tables.Table.OccupyTable` | src/main/java/org/example/kurs/CafeManager.java:48 | The table's new snapshot is `Occupy` of the old one, and the table stays consistent. |
| `Tables.Table.FreeTable` | src/main/java/org/example/kurs/CafeManager.java:63 | The table's new snapshot is `Release` of the old one at the given price and time. |
| `Manager.FindIndex` | src/main/java/org/example/kurs/CafeManager.java:94-96 | Returns the first position whose id matches, with no match before it, or None when no id matches. |
| `Manager.FindIndexDense` | src/test/java/org/example/kurs/CafeManagerTest.java:48-53 | With ids 1..n, a table is found iff `1 <= id <= n`, and it is at index `id-1`. So id 99 on 3 tables finds nothing. |
| `Manager.NewCafe` | src/main/java/org/example/kurs/CafeManager.java:21-28 | Creates exactly `max(tableCount, 0)` tables with ids 1..n in order. All are free with zero counters, and the total is 0. |
| `Manager.OccupyStepSpec` | src/main/java/org/example/kurs/CafeManager.java:45-52 | About the step function `Manager.OccupyStep`, which models `occupyTable`. Returns true iff the table exists and was free. On success, only that table changes, to occupied from `now`. On failure, nothing changes, start time included. |
| `Manager.FreeStepSpec` | src/main/java/org/example/kurs/CafeManager.java:60-68 | About the step function `Manager.FreeStep`, which models `freeTable` as written. Returns true iff the table exists and was occupied. On success, only that table changes: it is free, its count is +1, its minutes are +elapsed, and its earnings are +elapsed×price. The manager's total grows by the table's new lifetime earnings. On failure, nothing changes. |
| `Manager.FreeStepMonotone` | src/main/java/org/example/kurs/CafeManager.java:63-64 | With price >= 0, non-negative counters and a clock not before the start, the manager's total never decreases, and all counters stay non-negative. |
| `Manager.OccupyStepKeepsBalance` | src/main/java/org/example/kurs/CafeManager.java:45-52 | Occupying leaves the sum of table earnings unchanged, so it preserves total == sum. |
| `Manager.FreeStepDrift` | src/main/java/org/example/kurs/CafeManager.java:64 | As written, a successful free moves (total − sum of table earnings) by the table's earnings from before the session. |
| `Manager.DoubleCountExample` | src/main/java/org/example/kurs/CafeManager.java:60-68 | At 5.0 per minute, two 3-minute sessions on one table: the table earns 30.0, but the manager's total is 45.0. |
| `Manager.FreeStepChargedKeepsBalance` | src/main/java/org/example/kurs/CafeManager.java:63-64 | The corrected free, `Manager.FreeStepCharged`, which adds only the charge just earned, keeps total == sum. It has the same outcome and the same tables as the code's free. |
| `Manager.ScenarioOccupyTwiceFreeAtOnce` | src/test/java/org/example/kurs/CafeManagerTest.java:18-46 | On 3 tables: occupy 1 gives true, occupy 1 again gives false, and free 1 at once gives true with count 1 and earnings 0. Free 99 gives false and changes nothing. |
| `Manager.ScenarioThreeMinutes` | src/main/java/org/example/kurs/CafeManager.java:60-68 | One table at 5.0, freed 180 s after occupying: earnings 15.0, 3 minutes, manager total 15.0. |
| `Manager.CafeManager.FindTableById` | src/main/java/org/example/kurs/CafeManager.java:94-96 | Returns the first table object in list order with that id, or None when no table has it. |
| `Manager.CafeManager.constructor` | src/main/java/org/example/kurs/CafeManager.java:21-28 | The loop builds fresh tables whose state is `NewCafe(tableCount, price)`, and the invariant holds. |
| `Manager.CafeManager.OccupyTable` | src/main/java/org/example/kurs/CafeManager.java:45-52 | The result and the new state are those of `OccupyStep`, and the invariant is kept. |
| `Manager.CafeManager.FreeTable` | src/main/java/org/example/kurs/CafeManager.java:60-68 | The result and the new state, manager total included, are those of `FreeStep`, and the invariant is kept. |
| `Reports.TotalOwedIsReleaseCharge` | src/main/java/org/example/kurs/CafeManagerApp.java:144-161 | The current report's total, `Reports.TotalOwed` (the sum of `Owed` over the tables in list order), is exactly what the tables' earnings would grow by if every table were freed at `now`. |
| `Reports.TotalOwedAllFree` | src/main/java/org/example/kurs/CafeManagerApp.java:146-157 | Free tables contribute nothing: with no table occupied, the total owed is 0. |
| `Reports.TotalOwedNonNegative` | src/main/java/org/example/kurs/CafeManagerApp.java:144-158 | With price >= 0 and a clock not before any start, the total owed is >= 0. |
| `Reports.FirstMaxIndex` | src/main/java/org/example/kurs/CafeManagerApp.java:184-190 | Returns None iff the list is empty. Otherwise it returns a position whose value is >= every value and > every value before it, so ties go to the first. |
| `Reports.FirstMaxIndexStep` | src/main/java/org/example/kurs/CafeManagerApp.java:184-186 | One step of the scan: the new value becomes the best only when it is strictly greater than the best so far, or when there is no best yet. |
| `Reports.FirstMaxIndexUnique` | src/main/java/org/example/kurs/CafeManagerApp.java:184-190 | Any position that is maximal and strictly beats everything before it is the one `FirstMaxIndex` returns. |
| `Reports.ArchiveWinners` | src/main/java/org/example/kurs/CafeManagerApp.java:176-199 | About `Reports.MostPopular` and `Reports.HighestEarning`, the ids the archive report prints. With ids 1..n, the most popular table has the greatest use count and more uses than every table before it. The highest-earning table is chosen the same way by earnings. With zero tables, neither is reported. |
| `Reports.CurrentStats` | src/main/java/org/example/kurs/CafeManagerApp.java:140-165 | One line per table in list order. An occupied table shows its minutes and owed amount, and a free table shows 0 owed. The total equals `TotalOwed` of the snapshots. Nothing is modified. |
| `Reports.ArchiveStats` | src/main/java/org/example/kurs/CafeManagerApp.java:172-205 | Per-table lifetime minutes and earnings. The most popular and highest-earning ids are the first-argmax ones. The grand total is exactly the manager's `totalEarnings`. Nothing is modified. |
| `Reports.ArchiveOfNewCafe` | src/main/java/org/example/kurs/CafeManagerApp.java:172-205 | A never-used manager reports zero minutes and earnings for every table and a grand total of 0. All ties go to table 1. |
| `Reports.ToggleFlips` | src/main/java/org/example/kurs/CafeManagerApp.java:94-110 | About `Reports.Toggle`, which frees an occupied table and occupies a free one. A button press flips exactly that table's occupied flag and leaves every other table unchanged. |
| `Reports.HandleTableButtonPress` | src/main/java/org/example/kurs/CafeManagerApp.java:94-110 | Takes the table at list index `tableId-1`, then frees or occupies it by id. The new state is `Toggle` of the old one. |

## Left out

- JavaFX window, grid, buttons, styling and `openStatsWindow`: user interface only.
- log4j logging calls: a side channel with no effect on state.
- Text of the reports (`StringBuilder`, Russian labels): the reports are modelled as structured values.
- `LocalDateTime.now()`: replaced by the parameter `now`, in whole seconds. Sub-second precision is not modelled, and neither is the `Thread.sleep` in the tests.
- `double` arithmetic: money is exact `real`, so rounding of prices and totals is not modelled.
- Java `int`/`long` widths: ids, minutes and counters are unbounded integers, with no overflow.
- `getTables()` aliasing: the list is treated as owned by the manager. `getTables`, `getPricePerMinute`, `getTotalEarnings` and the `Table` getters are reads of the fields.
- Reports.CurrentStats: one clock reading `now` prices every table in a report. The source calls `LocalDateTime.now()` again for each occupied table inside the loop (`CafeManagerApp.java:146-148`). So two tables with the same start time may show different minutes if the loop crosses a minute boundary, and the model does not capture that. `Reports.TotalOwedIsReleaseCharge` relies on this single instant.
- Tables.Table.FreeTable: whatever `Table.freeTable` returns, if anything, is not modelled, because no caller uses it.
- Reports.HandleTableButtonPress: requires `1 <= tableId <= tables.size()`. Outside that range `getTables().get(tableId - 1)` throws, and the buttons are only created for ids in that range.

## Findings

| source | as written | input that shows it | evidently intended | confidence | as-written member | corrected member |
|---|---|---|---|---|---|---|
| src/main/java/org/example/kurs/CafeManager.java:64 | `totalEarnings += table.getTotalEarnings()` adds the table's lifetime earnings | one table at 5.0 per minute, two 3-minute sessions: table 30.0, manager 45.0 | add the charge just earned, so the manager's total equals the sum of the tables' earnings | high, not executed | `Manager.DoubleCountExample` | `Manager.FreeStepChargedKeepsBalance` |

The class `Manager.CafeManager` keeps the behaviour as written, because the reports print that value. The corrected step, `Manager.FreeStepCharged`, is given beside it with its balance property proved.
