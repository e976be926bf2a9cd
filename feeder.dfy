/**
 * The feeder task: it builds the grid world once and then puts every car on a
 * free straight east-bound road cell (Feeder.FeederTask).
 */
module Feeder {
  import opened Grid

  const Height := 10
  const Width := 15
  const HorizontalRoadFrequency := 5
  const VerticalRoadFrequency := 6
  const AmountOfCars := 5

  /** Row `y` carries a horizontal road. (Coordinates are never negative here, so `%` agrees with Java's.) */
  predicate OnHorizontalRoad(y: nat) {
    y % HorizontalRoadFrequency == 1
  }

  /** Column `x` carries a vertical road. */
  predicate OnVerticalRoad(x: nat) {
    x % VerticalRoadFrequency == 2
  }

  /**
   * The cell the generator builds at (x, y) with the given id. `zeroDrawn` is
   * the junction's coin: true when the random draw returned 0. The two
   * direction flags follow the constructor's argument positions, so the
   * junction branch taken on a 0 allows east.
   */
  function NewCell(id: int, x: nat, y: nat, zeroDrawn: bool): (c: Cell)
    ensures c.id == id && c.x == x && c.y == y && c.occupant == None
    ensures c.isRoad <==> OnHorizontalRoad(y) || OnVerticalRoad(x)
    ensures c.isJunction <==> OnHorizontalRoad(y) && OnVerticalRoad(x)
    ensures c.isJunction ==> c.isRoad
    ensures !c.isRoad ==> !c.eastAllowed && !c.southAllowed
    ensures c.isRoad ==> c.eastAllowed != c.southAllowed
    ensures c.isJunction ==> (c.eastAllowed <==> zeroDrawn)
    ensures c.isRoad && !c.isJunction ==> (c.eastAllowed <==> OnHorizontalRoad(y))
    ensures c.isRoad && !c.isJunction ==> (c.southAllowed <==> OnVerticalRoad(x))
  {
    if OnHorizontalRoad(y) then
      if OnVerticalRoad(x) then
        if zeroDrawn then Cell(id, x, y, true, true, true, false, None)
        else Cell(id, x, y, true, true, false, true, None)
      else
        Cell(id, x, y, true, false, true, false, None)
    else if OnVerticalRoad(x) then
      Cell(id, x, y, true, false, false, true, None)
    else
      Cell(id, x, y, false, false, false, false, None)
  }

  /** The cells written once ids 0 .. n-1 have been handed out; id n sits at (n / Height, n % Height). */
  function WorldUpTo(n: int, draw: int -> bool): (r: map<int, Cell>) {
    map id: int | 0 <= id < n :: NewCell(id, id / Height, id % Height, draw(id))
  }

  /** The whole generated world; `draw(id)` is the coin of the junction with that id. */
  function GeneratedWorld(draw: int -> bool): (r: map<int, Cell>) {
    WorldUpTo(Width * Height, draw)
  }

  /** Writing cell n (at column x, row y) onto a store that holds cells 0 .. n-1 of the world. */
  lemma WorldStep(store: map<int, Cell>, n: nat, x: nat, y: nat, draw: int -> bool)
    requires y < 10 && n == x * 10 + y
    ensures (store + WorldUpTo(n, draw))[n := NewCell(n, x, y, draw(n))] == store + WorldUpTo(n + 1, draw)
  {
    assert n / Height == x && n % Height == y;
    assert WorldUpTo(n + 1, draw) == WorldUpTo(n, draw)[n := NewCell(n, x, y, draw(n))];
  }

  /**
   * generatingTheWorld: x runs over the columns, y over the rows inside each
   * column, and each cell is written with the next id.
   */
  method GeneratingTheWorld(space: Space, draw: int -> bool)
    requires space.Valid()
    modifies space
    ensures space.Valid()
    ensures space.cells == old(space.cells) + GeneratedWorld(draw)
  {
    var id := 0;
    for x := 0 to Width
      invariant id == x * Height
      invariant space.Valid()
      invariant space.cells == old(space.cells) + WorldUpTo(id, draw)
    {
      for y := 0 to Height
        invariant id == x * Height + y
        invariant space.Valid()
        invariant space.cells == old(space.cells) + WorldUpTo(id, draw)
      {
        var mapElem := NewCell(id, x, y, draw(id));
        WorldStep(old(space.cells), id, x, y, draw);
        space.Write(mapElem);
        id := id + 1;
      }
    }
  }

  /** The ids 0 .. n-1. */
  function IdsBelow(n: nat): (r: set<int>)
    ensures forall k :: k in r <==> 0 <= k < n
    ensures |r| == n
  {
    if n == 0 then {} else IdsBelow(n - 1) + {n - 1}
  }

  /** The world has exactly Width * Height cells, under the ids 0 .. Width * Height - 1. */
  lemma GeneratedWorldSize(draw: int -> bool)
    ensures GeneratedWorld(draw).Keys == IdsBelow(Width * Height)
    ensures |GeneratedWorld(draw)| == Width * Height
  {
    assert GeneratedWorld(draw).Keys == IdsBelow(Width * Height);
  }

  /** Every position of the grid gets exactly one cell, under the id x * Height + y. */
  lemma GeneratedWorldLayout(draw: int -> bool, x: nat, y: nat)
    requires x < Width && y < Height
    ensures x * Height + y in GeneratedWorld(draw)
    ensures GeneratedWorld(draw)[x * Height + y] == NewCell(x * Height + y, x, y, draw(x * Height + y))
  {
    assert (x * Height + y) / Height == x && (x * Height + y) % Height == y;
  }

  /** Conversely, each stored cell lies on the grid, carries its own id x * Height + y and no car. */
  lemma GeneratedWorldCells(draw: int -> bool, id: int)
    requires id in GeneratedWorld(draw)
    ensures var c := GeneratedWorld(draw)[id];
      && c.id == id && 0 <= c.x < Width && 0 <= c.y < Height
      && id == c.x * Height + c.y && c.occupant == None
  {
  }

  /** Two landmarks of the generated world: (2, 1) is a junction, (0, 1) a plain east-bound road. */
  lemma GeneratedWorldLandmarks(draw: int -> bool)
    ensures 2 * Height + 1 in GeneratedWorld(draw) && 0 * Height + 1 in GeneratedWorld(draw)
    ensures GeneratedWorld(draw)[2 * Height + 1].isJunction
    ensures var c := GeneratedWorld(draw)[0 * Height + 1];
      c.isRoad && !c.isJunction && c.eastAllowed && !c.southAllowed
  {
    GeneratedWorldLayout(draw, 2, 1);
    GeneratedWorldLayout(draw, 0, 1);
  }

  /** The placement template: a road cell, not a junction, with east allowed. */
  const PlacementTemplate := Template(None, None, None, Some(true), Some(false), Some(true), None)

  /** A plain east-bound road cell. */
  predicate IsStraightEastRoad(c: Cell) {
    Matches(c, PlacementTemplate)
  }

  /** The cells placement may read. */
  function Candidates(cells: map<int, Cell>): (r: set<int>)
    ensures r <= cells.Keys
  {
    set k | k in cells && IsStraightEastRoad(cells[k])
  }

  /** The cells placement may take: candidates without a car. */
  function FreeCandidates(cells: map<int, Cell>): (r: set<int>)
    ensures r <= cells.Keys
  {
    set k | k in cells && IsStraightEastRoad(cells[k]) && cells[k].occupant.None?
  }

  /** The ids of the 24 cells a car can start on: rows 1 and 6, outside the vertical road columns 2, 8 and 14. */
  const StartCellList: seq<int> :=
    [1, 6, 11, 16, 31, 36, 41, 46, 51, 56, 61, 66, 71, 76, 91, 96, 101, 106, 111, 116, 121, 126, 131, 136]
  const StartCells: set<int> := set k | k in StartCellList

  lemma StartCellPosition(x: nat, y: nat)
    requires x < Width && y < Height
    ensures OnHorizontalRoad(y) && !OnVerticalRoad(x) <==> x * Height + y in StartCells
  {
    assert x == 0 || x == 1 || x == 2 || x == 3 || x == 4 || x == 5 || x == 6 || x == 7
      || x == 8 || x == 9 || x == 10 || x == 11 || x == 12 || x == 13 || x == 14;
  }

  lemma StartCellsSize()
    ensures |StartCells| == 24
  {
    assert Distinct(StartCellList);
    DistinctSize(StartCellList);
  }

  /** In the generated world the free plain east-bound road cells are exactly StartCells, 24 of them. */
  lemma GeneratedWorldFreeCandidates(draw: int -> bool)
    ensures FreeCandidates(GeneratedWorld(draw)) == StartCells
    ensures |FreeCandidates(GeneratedWorld(draw))| == 24
  {
    var w := GeneratedWorld(draw);
    forall k | k in w ensures k in FreeCandidates(w) <==> k in StartCells {
      GeneratedWorldCells(draw, k);
      StartCellPosition(w[k].x, w[k].y);
    }
    forall k | k in StartCells ensures k in w {
    }
    assert FreeCandidates(w) == StartCells;
    StartCellsSize();
  }

  function Min(a: int, b: int): (r: int)
    ensures r <= a && r <= b && (r == a || r == b)
  {
    if a <= b then a else b
  }

  predicate Distinct(s: seq<int>) {
    forall i, j :: 0 <= i < j < |s| ==> s[i] != s[j]
  }

  /** The store after car i has been put on cell positions[i], for every i in turn. */
  function Occupy(cells: map<int, Cell>, positions: seq<int>): (r: map<int, Cell>)
    requires forall i :: 0 <= i < |positions| ==> positions[i] in cells
    ensures r.Keys == cells.Keys
    decreases |positions|
  {
    if positions == [] then cells
    else
      var n := |positions| - 1;
      var before := Occupy(cells, positions[..n]);
      SetOccupant(before, positions[n], Some(n))
  }

  /** Cell k after the placements: same topology, and a car on it iff some car was placed there. */
  lemma {:induction false} OccupyAt(cells: map<int, Cell>, positions: seq<int>, k: int)
    requires forall i :: 0 <= i < |positions| ==> positions[i] in cells
    requires k in cells
    ensures SameTopology(Occupy(cells, positions)[k], cells[k])
    ensures k !in positions ==> Occupy(cells, positions)[k] == cells[k]
    ensures k in positions ==> Occupy(cells, positions)[k].occupant.Some?
    ensures Distinct(positions) ==>
      forall i :: 0 <= i < |positions| && positions[i] == k ==> Occupy(cells, positions)[k].occupant == Some(i)
    decreases |positions|
  {
    if positions != [] {
      var n := |positions| - 1;
      OccupyAt(cells, positions[..n], k);
      if k in positions && k != positions[n] {
        var i :| 0 <= i < |positions| && positions[i] == k;
        assert positions[..n][i] == k;
      }
    }
  }

  /** Placing cars takes exactly the placed cells out of the free candidates. */
  lemma OccupyFreeCandidates(cells: map<int, Cell>, positions: seq<int>)
    requires forall i :: 0 <= i < |positions| ==> positions[i] in cells
    ensures FreeCandidates(Occupy(cells, positions)) == FreeCandidates(cells) - (set p | p in positions)
  {
    forall k | k in cells {
      OccupyAt(cells, positions, k);
    }
  }

  lemma {:induction false} DistinctSize(s: seq<int>)
    requires Distinct(s)
    ensures |set p | p in s| == |s|
  {
    if s != [] {
      var n := |s| - 1;
      DistinctSize(s[..n]);
      assert (set p | p in s) == (set p | p in s[..n]) + {s[n]};
    }
  }

  /**
   * The busy loop of setCarToRandomPosition for one car: read plain
   * east-bound road cells until one has no car, take it, put the car on it
   * and write it back. The read is a fair choice: it never returns again a
   * cell this loop has already found occupied. When no free cell is left the
   * model gives up with None (the Java loop would keep reading forever).
   */
  method PlaceCar(space: Space, carId: int) returns (placed: Option<int>)
    requires space.Valid()
    modifies space
    ensures space.Valid()
    ensures placed.None? ==> FreeCandidates(old(space.cells)) == {} && space.cells == old(space.cells)
    ensures placed.Some? ==> placed.value in FreeCandidates(old(space.cells))
    ensures placed.Some? ==> space.cells == SetOccupant(old(space.cells), placed.value, Some(carId))
  {
    var unseen := Candidates(space.cells);
    placed := None;
    while placed.None?
      invariant space.Valid()
      invariant placed.None? ==> space.cells == old(space.cells)
      invariant placed.None? ==> unseen <= Candidates(space.cells)
      invariant placed.None? ==> FreeCandidates(space.cells) <= unseen
      invariant placed.Some? ==> placed.value in FreeCandidates(old(space.cells))
      invariant placed.Some? ==> space.cells == SetOccupant(old(space.cells), placed.value, Some(carId))
      decreases |unseen|
    {
      if pick :| pick in unseen {
        unseen := unseen - {pick};
        var read := space.cells[pick];
        if read.occupant.None? {
          var taken := space.Take(read);
          var elem := taken.value.(occupant := Some(carId));
          space.Write(elem);
          placed := Some(pick);
        }
      } else {
        // Every candidate has been read and found occupied.
        var none: set<int> := {};
        assert forall k :: k in FreeCandidates(old(space.cells)) <==> k in none;
        return;
      }
    }
  }

  /**
   * setCarToRandomPosition: cars 0 .. AmountOfCars-1 in turn, each on a free
   * plain east-bound road cell. `positions[i]` is the cell of car i; fewer
   * than AmountOfCars positions means the free cells ran out.
   */
  method SetCarToRandomPosition(space: Space) returns (positions: seq<int>)
    requires space.Valid()
    modifies space
    ensures space.Valid()
    ensures Distinct(positions)
    ensures forall i :: 0 <= i < |positions| ==> positions[i] in old(space.cells)
    ensures forall i :: 0 <= i < |positions| ==> positions[i] in FreeCandidates(old(space.cells))
    ensures space.cells == Occupy(old(space.cells), positions)
    ensures |positions| == Min(AmountOfCars, |FreeCandidates(old(space.cells))|)
  {
    ghost var start := space.cells;
    positions := [];
    for carId := 0 to AmountOfCars
      invariant space.Valid()
      invariant |positions| == carId
      invariant Distinct(positions)
      invariant forall i :: 0 <= i < |positions| ==> positions[i] in FreeCandidates(start)
      invariant space.cells == Occupy(start, positions)
    {
      var placed := PlaceCar(space, carId);
      if placed.None? {
        // Every free candidate is taken: placement cannot continue.
        OccupyFreeCandidates(start, positions);
        DistinctSize(positions);
        var taken := set p | p in positions;
        assert FreeCandidates(start) - taken == {};
        forall p | p in taken ensures p in FreeCandidates(start) {
          var i :| 0 <= i < |positions| && positions[i] == p;
        }
        forall p | p in FreeCandidates(start) ensures p in taken {
          assert p !in FreeCandidates(start) - taken;
        }
        assert FreeCandidates(start) == taken;
        return;
      }
      var pick := placed.value;
      OccupyAt(start, positions, pick);
      assert (positions + [pick])[..carId] == positions;
      positions := positions + [pick];
    }
    DistinctSize(positions);
    var taken := set p | p in positions;
    assert FreeCandidates(start) == taken + (FreeCandidates(start) - taken);
  }

  /** No cell of the store carries a car. */
  predicate NoCars(cells: map<int, Cell>) {
    forall k :: k in cells ==> cells[k].occupant == None
  }

  /** Placing distinct cars on distinct cells of a car-free store: car i is on positions[i] and on no other cell. */
  lemma OccupyPlacesCars(cells: map<int, Cell>, positions: seq<int>)
    requires forall i :: 0 <= i < |positions| ==> positions[i] in cells
    requires NoCars(cells) && Distinct(positions)
    ensures forall i :: 0 <= i < |positions| ==> CarOn(Occupy(cells, positions), positions[i], i)
    ensures forall k, car :: CarOn(Occupy(cells, positions), k, car) ==>
      0 <= car < |positions| && positions[car] == k
    ensures CarsApart(Occupy(cells, positions))
  {
    var after := Occupy(cells, positions);
    forall i | 0 <= i < |positions| ensures CarOn(after, positions[i], i) {
      OccupyAt(cells, positions, positions[i]);
    }
    forall k, car | CarOn(after, k, car) ensures 0 <= car < |positions| && positions[car] == k {
      OccupyAt(cells, positions, k);
      var i :| 0 <= i < |positions| && positions[i] == k;
      assert CarOn(after, positions[i], i);
    }
  }

  /**
   * run: generate the world into an empty space, then place the cars. All
   * cars are placed, each on its own plain east-bound road cell.
   */
  method Run(space: Space, draw: int -> bool) returns (positions: seq<int>)
    requires space.Valid() && space.cells == map[]
    modifies space
    ensures space.Valid()
    ensures TopologyKept(GeneratedWorld(draw), space.cells)
    ensures |positions| == AmountOfCars
    ensures forall i :: 0 <= i < |positions| ==>
      CarOn(space.cells, positions[i], i) && IsStraightEastRoad(space.cells[positions[i]])
    ensures CarsApart(space.cells)
    ensures forall k, car :: CarOn(space.cells, k, car) ==> 0 <= car < AmountOfCars && positions[car] == k
  {
    GeneratingTheWorld(space, draw);
    ghost var world := GeneratedWorld(draw);
    assert space.cells == world;
    GeneratedWorldFreeCandidates(draw);
    positions := SetCarToRandomPosition(space);
    forall k | k in world ensures SameTopology(space.cells[k], world[k]) {
      OccupyAt(world, positions, k);
    }
    forall k | k in world ensures world[k].occupant == None {
      GeneratedWorldCells(draw, k);
    }
    OccupyPlacesCars(world, positions);
  }
}
