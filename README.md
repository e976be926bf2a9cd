# Grid traffic: world generation, car placement and hand-off

This project models the core of a small grid-traffic simulation. All workers
share one space of grid cells (`MapElement` records):

- The **feeder** builds a 15 × 10 world once. Every cell is green land, a
  straight east-bound road, a straight south-bound road or a junction. It then
  puts five cars on free, plain east-bound road cells.
- The **processor** moves a car one step. It takes the cell the dispatcher
  hands it, copies the car onto some cell of the successor column, and returns
  the current cell with its car removed.

The model is written in Dafny in three modules:

- `Grid` (grid.dfy). The `Cell` datatype: id, x, y, road, junction, two
  direction flags and an optional occupant. A `Template` of optional fields
  for template-matched queries. The class `Space` is the shared space: a map
  from cell id to cell, with `Read` (any matching cell), `Take` and `Write`
  (insert or update by id). `SetOccupant` is the store with one cell's
  occupant replaced; placement and hand-off both use it.
- `Feeder` (feeder.dfy). `GeneratingTheWorld` keeps the Java code's nested loops
  and running id. The cell classification is the pure function `NewCell`.
  `GeneratedWorld` states the result of the whole run. `SetCarToRandomPosition`
  keeps the loop over car ids. `PlaceCar` is its busy loop for one car. `Run`
  is the task that does both in order.
- `Processor` (processor.dfy). `SuccessorX` is the successor column.
  `ProcessData` is the hand-off on the space. `DispatchCycle` is one event
  around it: take the occupied cell, call `ProcessData`, write the returned cell
  back. It is proved to leave the store described by the function `Advance`, and
  lemmas on `Advance` say what a cycle does to car occupancy.

Points where the model follows the code rather than its comments:

- The direction flags follow the constructor's argument positions. The
  straight roads fix them: the 6th argument is `eastAllowed`, the 7th
  `southAllowed` (Feeder.java lines 131 and 136). So when the junction's draw
  returns 0, the junction allows east, although the comment on line 122 says
  "south". A draw of 1 allows south.
- The successor column is `x + 1` below column 10, else 0. The bound 10 is
  written into the processor and is not the feeder's width minus one. So the
  hand-off never targets columns 11 to 14 of the generated world, and a car in
  any of columns 10 to 14 jumps to column 0.
- The successor template sets only the column. The successor can therefore be
  any cell of that column: any row, road or not, with or without a car. Its
  previous car is overwritten.

The junction coin is the oracle `draw: int -> bool`, indexed by cell id.
`draw(id)` is true when the random draw for that junction returned 0.

## Model

| member | source | states |
|---|---|---|
| `Grid.Space.Read` | feeder/src/main/java/haw/feeder/Feeder.java:165 | a read returns a stored cell (under its own id) that matches the template, or None only when no stored cell matches |
| `Grid.Space.Take` | feeder/src/main/java/haw/feeder/Feeder.java:169 | taking a stored cell removes exactly that id and returns the cell; a cell not stored is not taken |
| `Grid.Space.Write` | feeder/src/main/java/haw/feeder/Feeder.java:143 | a write inserts or replaces the cell under its id and changes nothing else |
| `Grid.SetOccupant` | feeder/src/main/java/haw/feeder/Feeder.java:171-174 | the cell gets the given occupant whatever it held before and keeps its topology; every other cell is unchanged (the same update as the hand-off at Processor.java lines 58-62) |
| `Feeder.NewCell` | feeder/src/main/java/haw/feeder/Feeder.java:117-142 | road iff horizontal row or vertical column; junction iff both; every junction is a road; green land has both flags false; every road has exactly one flag; a junction allows east iff the draw was 0; a plain road allows east iff it is on a horizontal row and south iff on a vertical column; no car |
| `Feeder.GeneratingTheWorld` | feeder/src/main/java/haw/feeder/Feeder.java:104-149 | the store afterwards is the old store overwritten by the generated world, written cell by cell in x-major order with a running id |
| `Feeder.GeneratedWorldSize` | feeder/src/main/java/haw/feeder/Feeder.java:106-146 | the world holds exactly Width * Height = 150 cells, under the ids 0 .. 149 |
| `Feeder.GeneratedWorldLayout` | feeder/src/main/java/haw/feeder/Feeder.java:111-145 | every position (x, y) with 0 <= x < 15 and 0 <= y < 10 has a cell under id x * Height + y, classified by NewCell |
| `Feeder.GeneratedWorldCells` | feeder/src/main/java/haw/feeder/Feeder.java:111-145 | every stored cell lies on the grid, carries its own key as id, satisfies id == x * Height + y (so positions are distinct) and has no car |
| `Feeder.GeneratedWorldLandmarks` | feeder/src/main/java/haw/feeder/Feeder.java:118-131 | (2, 1) is a junction and (0, 1) is a plain east-bound road |
| `Feeder.StartCellPosition` | feeder/src/main/java/haw/feeder/Feeder.java:118-132 | a grid position is a horizontal-row, non-vertical-column cell iff its id is one of the 24 listed start cells |
| `Feeder.GeneratedWorldFreeCandidates` | feeder/src/main/java/haw/feeder/Feeder.java:155-158 | in the generated world the free cells matching the placement template are exactly the 24 start cells (rows 1 and 6, columns other than 2, 8, 14), whatever the junction draws |
| `Feeder.PlaceCar` | feeder/src/main/java/haw/feeder/Feeder.java:155-177 | the car lands on a cell that was road, non-junction, east-allowed and without a car, and the store changes only there; it fails only when no such cell exists, leaving the store unchanged |
| `Feeder.Occupy` | feeder/src/main/java/haw/feeder/Feeder.java:153-177 | placing the cars in turn keeps the store's set of ids |
| `Feeder.OccupyAt` | feeder/src/main/java/haw/feeder/Feeder.java:153-177 | after the placements every cell keeps its topology; a cell on which no car was placed is unchanged; a cell on which a car was placed has a car, and with distinct positions it is car i on positions[i] |
| `Feeder.OccupyFreeCandidates` | feeder/src/main/java/haw/feeder/Feeder.java:164-176 | placing cars removes exactly the placed cells from the free candidate cells |
| `Feeder.SetCarToRandomPosition` | feeder/src/main/java/haw/feeder/Feeder.java:151-182 | car i sits on positions[i]; the positions are distinct cells that were free candidates; the store is the old store with exactly these placements; min(5, number of free candidates) cars are placed |
| `Feeder.OccupyPlacesCars` | feeder/src/main/java/haw/feeder/Feeder.java:153-177 | placing distinct positions on a car-free store puts car i on positions[i] and nowhere else, so no car is on two cells |
| `Feeder.Run` | feeder/src/main/java/haw/feeder/Feeder.java:87-102 | starting from an empty space, generation and placement leave the generated topology, all five cars placed, each on its own plain east-bound road cell, no car on two cells, and no car other than cars 0 .. 4 and no cell other than their positions occupied |
| `Processor.SuccessorX` | Maven/TrafficCoordinatorPartitioned/processor/src/main/java/haw/processor/Processor.java:47-51 | below column 10 the successor column is x + 1; from column 10 onwards it is 0; so it is never the current column, never beyond column 10, and not negative for a non-negative column |
| `Processor.SuccessorBoundary` | Maven/TrafficCoordinatorPartitioned/processor/src/main/java/haw/processor/Processor.java:47-51 | the boundary values: 0 goes to 1, 5 to 6, 9 to 10, and both 10 and 14 go back to 0 |
| `Processor.SuccessorTemplate` | Maven/TrafficCoordinatorPartitioned/processor/src/main/java/haw/processor/Processor.java:52-53 | a cell matches the successor template iff its column is the successor column; row, road and direction are unconstrained |
| `Processor.ProcessData` | Maven/TrafficCoordinatorPartitioned/processor/src/main/java/haw/processor/Processor.java:39-70 | fails (store unchanged) iff no cell lies in the successor column; otherwise the only record written is some cell of the successor column, now carrying the current occupant, and the returned cell is current without its car |
| `Processor.DispatchCycle` | Maven/TrafficCoordinatorPartitioned/processor/src/main/java/haw/processor/Processor.java:38-70 | taking a stored cell, calling processData and writing the result back yields Advance of the old store for some other cell of the successor column; the call fails iff that column is empty, and then the source stays taken and nothing else changes |
| `Processor.Advance` | Maven/TrafficCoordinatorPartitioned/processor/src/main/java/haw/processor/Processor.java:56-69 | the store after a full take / hand-off / write-back cycle keeps the store's set of ids |
| `Processor.AdvanceToFreeCellKeepsCarsApart` | Maven/TrafficCoordinatorPartitioned/processor/src/main/java/haw/processor/Processor.java:56-65 | when the successor was free, the cycle keeps every car on at most one cell, the moved car is on the successor only, and the topology is unchanged |
| `Processor.AdvanceOverwritesOccupiedCell` | Maven/TrafficCoordinatorPartitioned/processor/src/main/java/haw/processor/Processor.java:56-62 | when the successor already had another car, that car is on no cell afterwards: there is no freeness check |

## Left out

- Feeder.PlaceCar: the space's read is modelled as a fair choice. It never returns again a cell this loop has already found occupied. When every matching cell is occupied, the model gives up with None. The Java loop keeps reading forever in that case.
- Feeder.SetCarToRandomPosition: when the free cells run out it returns fewer than five positions, where the Java loop would spin. `Feeder.GeneratedWorldFreeCandidates` shows this cannot happen on a freshly generated world (24 free cells for 5 cars).
- Feeder.Run: requires an empty space before generation. Generation writes by id and assumes no earlier cells.
- Processor.DispatchCycle: what the space's event container does after an exception (a retry, or a rollback under a transaction) is not visible. The model leaves the source taken and writes nothing back.
- Processor.ProcessData: the null dereference on a missing successor is modelled as the `NoSuccessor` outcome, with nothing changed. It is not an exception.
- Concurrency: the model covers single sequential invocations only. It does not cover parallel hand-offs or placement workers, or the lost update a read-then-write allows between them. `AdvanceOverwritesOccupiedCell` shows the sequential form of the overwrite.
- Aliasing: `current` is mutated in place by the Java method. Here it is a value, and the cleared copy is returned.
- The space's internals (template matching of unset primitive fields, replication, partitioning) are not visible. A template field is either set or a wildcard.
- `java.util.Random` is replaced by the `draw` oracle.
- `Thread.sleep` delays and the swallowed `InterruptedException` are left out.
- Logging is left out, and so is the `counter` / `getFeedCount`, which is never incremented.
- The unused `matrix` array is left out.
- Scheduling and lifecycle are left out: `afterPropertiesSet`, `destroy`, `scheduleAtFixedRate` and the Spring bean interfaces.
- The `MapElement` class is not part of this model. Its `hasCar`, `removeCar` and `setCurrentCarId` are represented by the `occupant` option.
- Java `int` overflow does not arise: ids stay below 150 and coordinates below 15.
