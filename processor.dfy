/**
 * The processor: one hand-off step of a car, from the cell the dispatcher
 * has taken out of the space to a successor cell (Processor.processData).
 */
module Processor {
  import opened Grid

  /** The column bound written into the hand-off step; it is not derived from the grid width. */
  const LastColumnBeforeWrap := 10

  /**
   * The successor column: one to the right, or back to column 0 from column
   * 10 onwards. It is never the current column, never beyond column 10, and
   * never negative when the current column is not.
   */
  function SuccessorX(x: int): (r: int)
    ensures x < LastColumnBeforeWrap ==> r == x + 1
    ensures LastColumnBeforeWrap <= x ==> r == 0
    ensures r != x
    ensures r == x + 1 || r == 0
    ensures r <= LastColumnBeforeWrap
    ensures 0 <= x ==> 0 <= r
  {
    if x < LastColumnBeforeWrap then x + 1 else 0
  }

  /** The wrap-around boundary: columns below 10 advance by one, column 10 and beyond go back to 0. */
  lemma SuccessorBoundary()
    ensures SuccessorX(0) == 1 && SuccessorX(5) == 6 && SuccessorX(9) == 10
    ensures SuccessorX(10) == 0 && SuccessorX(14) == 0
  {
  }

  /** The successor template: only the column is set, every other field matches anything. */
  function SuccessorTemplate(x: int): (t: Template)
    ensures forall c :: Matches(c, t) <==> c.x == SuccessorX(x)
  {
    Template(None, Some(SuccessorX(x)), None, None, None, None, None)
  }

  /** What processData ends with: the current cell it returns, or the dereference of a missing successor. */
  datatype Outcome = Returned(current: Cell) | NoSuccessor

  /**
   * processData: read any cell in the successor column, copy the current
   * car onto it and write it back, then clear the car of `current` and
   * return it. `current` itself is not written here; the dispatcher writes
   * the returned cell back. When no cell lies in the successor column the
   * read yields nothing and the call fails before changing anything.
   */
  method ProcessData(space: Space, current: Cell) returns (out: Outcome)
    requires space.Valid()
    modifies space
    ensures space.Valid()
    ensures out.NoSuccessor? <==> forall k :: k in old(space.cells) ==> old(space.cells)[k].x != SuccessorX(current.x)
    ensures out.NoSuccessor? ==> space.cells == old(space.cells)
    ensures out.Returned? ==> out.current == current.(occupant := None)
    ensures out.Returned? ==> exists successor ::
      && successor in old(space.cells)
      && old(space.cells)[successor].x == SuccessorX(current.x)
      && space.cells == SetOccupant(old(space.cells), successor, current.occupant)
  {
    var successorX := SuccessorX(current.x);
    var read := space.Read(SuccessorTemplate(current.x));
    if read.None? {
      return NoSuccessor;
    }
    var successor := read.value.(occupant := current.occupant);
    ghost var key := successor.id;
    assert space.cells[key].x == successorX;
    space.Write(successor);
    assert space.cells == SetOccupant(old(space.cells), key, current.occupant);
    out := Returned(current.(occupant := None));
  }

  /**
   * One complete dispatch cycle around processData: the dispatcher takes the
   * occupied cell `source` out of the store, the hand-off writes the car onto
   * `successor`, and the dispatcher writes the cleared source back.
   */
  function Advance(cells: map<int, Cell>, source: int, successor: int): (r: map<int, Cell>)
    requires source in cells && successor in cells && successor != source
    ensures r.Keys == cells.Keys
  {
    var taken := cells - {source};
    SetOccupant(taken, successor, cells[source].occupant)[source := cells[source].(occupant := None)]
  }

  /**
   * One event of the space's event container around processData: take the
   * cell `source` out of the space, hand it to processData, and write the
   * returned cell back. When the successor column is empty the exception
   * leaves the source taken and nothing is written back.
   */
  method DispatchCycle(space: Space, source: int) returns (out: Outcome)
    requires space.Valid() && source in space.cells
    modifies space
    ensures space.Valid()
    ensures out.NoSuccessor? <==>
      forall k :: k in old(space.cells) ==> old(space.cells)[k].x != SuccessorX(old(space.cells)[source].x)
    ensures out.NoSuccessor? ==> space.cells == old(space.cells) - {source}
    ensures out.Returned? ==> exists successor ::
      && successor in old(space.cells) && successor != source
      && old(space.cells)[successor].x == SuccessorX(old(space.cells)[source].x)
      && space.cells == Advance(old(space.cells), source, successor)
  {
    var current := space.cells[source];
    var taken := space.Take(current);
    assert current.x != SuccessorX(current.x);
    out := ProcessData(space, current);
    if out.Returned? {
      ghost var successor :| successor in old(space.cells) - {source}
        && old(space.cells)[successor].x == SuccessorX(current.x)
        && space.cells == SetOccupant(old(space.cells) - {source}, successor, current.occupant);
      space.Write(out.current);
      assert space.cells == Advance(old(space.cells), source, successor);
    } else {
      forall k | k in old(space.cells) ensures old(space.cells)[k].x != SuccessorX(current.x) {
        if k != source {
          assert k in old(space.cells) - {source};
        }
      }
    }
  }

  /**
   * When the successor cell was free, a cycle keeps every car on at most one
   * cell: the car leaves its source and is on the successor only.
   */
  lemma AdvanceToFreeCellKeepsCarsApart(cells: map<int, Cell>, source: int, successor: int, car: int)
    requires source in cells && successor in cells && successor != source
    requires CarsApart(cells) && CarOn(cells, source, car)
    requires cells[successor].occupant == None
    ensures CarsApart(Advance(cells, source, successor))
    ensures forall k :: CarOn(Advance(cells, source, successor), k, car) <==> k == successor
    ensures TopologyKept(cells, Advance(cells, source, successor))
  {
    var after := Advance(cells, source, successor);
    forall k, c | CarOn(after, k, c)
      ensures c == car ==> k == successor
      ensures k != successor ==> CarOn(cells, k, c) && c != car
    {
      if k != successor {
        assert k != source && after[k] == cells[k];
        assert CarOn(cells, k, c);
      }
    }
  }

  /**
   * The hand-off does not check that the successor is free: a car already on
   * it is overwritten and is then on no cell at all.
   */
  lemma AdvanceOverwritesOccupiedCell(cells: map<int, Cell>, source: int, successor: int, car: int, other: int)
    requires source in cells && successor in cells && successor != source
    requires CarsApart(cells) && CarOn(cells, source, car)
    requires CarOn(cells, successor, other)
    ensures forall k :: !CarOn(Advance(cells, source, successor), k, other)
  {
    var after := Advance(cells, source, successor);
    assert other != car;
    forall k | k in after ensures !CarOn(after, k, other) {
      if k != source && k != successor {
        assert after[k] == cells[k];
        assert CarOn(cells, k, other) && CarOn(cells, successor, other) ==> k == successor;
      }
    }
  }
}
