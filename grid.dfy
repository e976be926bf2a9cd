/** The grid cells (MapElement) and the shared space that holds them. */
module Grid {

  datatype Option<T> = None | Some(value: T)

  /** One grid position: its fixed road topology and the car that is on it, if any. */
  datatype Cell = Cell(
    id: int,
    x: int,
    y: int,
    isRoad: bool,
    isJunction: bool,
    eastAllowed: bool,
    southAllowed: bool,
    occupant: Option<int>)

  /** Two cells agree on everything except their occupant. */
  predicate SameTopology(a: Cell, b: Cell) {
    && a.id == b.id && a.x == b.x && a.y == b.y
    && a.isRoad == b.isRoad && a.isJunction == b.isJunction
    && a.eastAllowed == b.eastAllowed && a.southAllowed == b.southAllowed
  }

  /** A query template of the space: a field left at None matches every value. */
  datatype Template = Template(
    id: Option<int>,
    x: Option<int>,
    y: Option<int>,
    isRoad: Option<bool>,
    isJunction: Option<bool>,
    eastAllowed: Option<bool>,
    southAllowed: Option<bool>)

  predicate FieldMatches<T(==)>(field: Option<T>, v: T) {
    field.None? || field.value == v
  }

  predicate Matches(c: Cell, t: Template) {
    && FieldMatches(t.id, c.id)
    && FieldMatches(t.x, c.x)
    && FieldMatches(t.y, c.y)
    && FieldMatches(t.isRoad, c.isRoad)
    && FieldMatches(t.isJunction, c.isJunction)
    && FieldMatches(t.eastAllowed, c.eastAllowed)
    && FieldMatches(t.southAllowed, c.southAllowed)
  }

  /** Cell `k` of the store carries the car `car`. */
  predicate CarOn(cells: map<int, Cell>, k: int, car: int) {
    k in cells && cells[k].occupant == Some(car)
  }

  /** No car of the store sits on two cells at once. */
  ghost predicate CarsApart(cells: map<int, Cell>) {
    forall a, b, car :: CarOn(cells, a, car) && CarOn(cells, b, car) ==> a == b
  }

  /** Every cell of `after` is the cell of `before` with the same key, up to its occupant. */
  ghost predicate TopologyKept(before: map<int, Cell>, after: map<int, Cell>) {
    && after.Keys == before.Keys
    && forall k :: k in before ==> SameTopology(after[k], before[k])
  }

  /** The store after cell k has been given the occupant `occupant`, whatever it carried before. */
  function SetOccupant(cells: map<int, Cell>, k: int, occupant: Option<int>): (r: map<int, Cell>)
    requires k in cells
    ensures r.Keys == cells.Keys
    ensures r[k].occupant == occupant && SameTopology(r[k], cells[k])
    ensures forall j :: j in cells && j != k ==> r[j] == cells[j]
  {
    cells[k := cells[k].(occupant := occupant)]
  }

  /**
   * The shared space: every cell stored under its own id. Reads match a
   * template, takes remove the cell they match, writes insert or update by id.
   */
  class Space {
    var cells: map<int, Cell>

    ghost predicate Valid()
      reads this
    {
      forall k :: k in cells ==> cells[k].id == k
    }

    constructor ()
      ensures Valid() && cells == map[]
    {
      cells := map[];
    }

    /** Non-destructive read: some cell matching `t`, or None when no cell matches. */
    method Read(t: Template) returns (r: Option<Cell>)
      requires Valid()
      ensures r.Some? ==> r.value.id in cells && cells[r.value.id] == r.value && Matches(r.value, t)
      ensures r.None? ==> forall k :: k in cells ==> !Matches(cells[k], t)
    {
      if k :| k in cells && Matches(cells[k], t) {
        r := Some(cells[k]);
      } else {
        r := None;
      }
    }

    /** Take the stored cell equal to `c`; None, and nothing removed, when it is not stored. */
    method Take(c: Cell) returns (r: Option<Cell>)
      requires Valid()
      modifies this
      ensures Valid()
      ensures c.id in old(cells) && old(cells)[c.id] == c ==> r == Some(c) && cells == old(cells) - {c.id}
      ensures !(c.id in old(cells) && old(cells)[c.id] == c) ==> r == None && cells == old(cells)
    {
      if c.id in cells && cells[c.id] == c {
        r := Some(c);
        cells := cells - {c.id};
      } else {
        r := None;
      }
    }

    /** Insert or update by identity. */
    method Write(c: Cell)
      requires Valid()
      modifies this
      ensures Valid()
      ensures cells == old(cells)[c.id := c]
    {
      cells := cells[c.id := c];
    }
  }
}
