/** Coordinate arithmetic of coord.go. */
module Coords {
  import opened Directions

  function Abs(n: int): (r: nat) {
    if n < 0 then -n else n
  }

  /** The bounds test both boards perform: `pos` lies on a sizeX by sizeY board. */
  predicate InBounds(sizeX: int, sizeY: int, pos: Coord) {
    0 <= pos.X < sizeX && 0 <= pos.Y < sizeY
  }

  /** A board cell; the Go struct is a value type, copied on assignment. */
  datatype Coord = Coord(X: int, Y: int) {

    /** The value `c.Add(a, b)` leaves in its receiver: the componentwise sum. */
    static function Add(a: Coord, b: Coord): (r: Coord) {
      Coord(a.X + b.X, a.Y + b.Y)
    }

    /**
     * The value `c.AddDir(a, d)` leaves in its receiver `c` (this): one unit step
     * from `a` for a cardinal `d`; any other `d` writes nothing, so `c` keeps its value.
     */
    function AddDir(a: Coord, d: Direction): (r: Coord)
      ensures d == Up ==> r == Coord(a.X, a.Y + 1)
      ensures d == Right ==> r == Coord(a.X + 1, a.Y)
      ensures d == Down ==> r == Coord(a.X, a.Y - 1)
      ensures d == Left ==> r == Coord(a.X - 1, a.Y)
      ensures !IsCardinal(d) ==> r == this
    {
      if d == Up then Add(a, Coord(0, 1))
      else if d == Right then Add(a, Coord(1, 0))
      else if d == Down then Add(a, Coord(0, -1))
      else if d == Left then Add(a, Coord(-1, 0))
      else this
    }

    /** Manhattan distance. */
    function Dist(a: Coord): (d: int)
      ensures d >= 0
      ensures d == 0 <==> this == a
    {
      Abs(X - a.X) + Abs(Y - a.Y)
    }
  }

  /** `Dist` does not depend on the order of its operands. */
  lemma DistSymmetric(a: Coord, b: Coord)
    ensures a.Dist(b) == b.Dist(a)
  {
  }

  /** `Dist` satisfies the triangle inequality. */
  lemma DistTriangle(a: Coord, b: Coord, c: Coord)
    ensures a.Dist(c) <= a.Dist(b) + b.Dist(c)
  {
  }

  /** A cardinal step lands at distance exactly 1 from where it started. */
  lemma UnitNeighbour(c: Coord, a: Coord, d: Direction)
    requires IsCardinal(d)
    ensures a.Dist(c.AddDir(a, d)) == 1
    ensures c.AddDir(a, d) != a
  {
  }

  /** Up then Down, Down then Up, Left then Right and Right then Left return to the start. */
  lemma OppositeStepsCancel(a: Coord)
    ensures var u := a.AddDir(a, Up); u.AddDir(u, Down) == a
    ensures var d := a.AddDir(a, Down); d.AddDir(d, Up) == a
    ensures var l := a.AddDir(a, Left); l.AddDir(l, Right) == a
    ensures var r := a.AddDir(a, Right); r.AddDir(r, Left) == a
  {
  }

  /**
   * A `*Coord`: the receiver of `Add` and `AddDir` is written through a pointer,
   * and callers pass the receiver itself as the argument (`c.AddDir(c, d)`).
   */
  class CoordRef {
    var X: int
    var Y: int

    function Value(): Coord
      reads this
    {
      Coord(X, Y)
    }

    /** `Copy`: a fresh pointer holding the same coordinate. */
    constructor (c: Coord)
      ensures Value() == c
    {
      X := c.X;
      Y := c.Y;
    }

    /** `c.Add(a, b)`: either operand may be the receiver itself. */
    method Add(a: CoordRef, b: CoordRef)
      modifies this
      ensures X == old(a.X) + old(b.X) && Y == old(a.Y) + old(b.Y)
      ensures Value() == Coord.Add(old(a.Value()), old(b.Value()))
    {
      X := a.X + b.X;
      Y := a.Y + b.Y;
    }

    /** `c.AddDir(a, d)`: the receiver may be `a`; a non-cardinal `d` leaves the receiver untouched. */
    method AddDir(a: CoordRef, d: Direction)
      modifies this
      ensures Value() == old(Value()).AddDir(old(a.Value()), d)
    {
      if d == Up {
        var unit := new CoordRef(Coord(0, 1));
        Add(a, unit);
      } else if d == Right {
        var unit := new CoordRef(Coord(1, 0));
        Add(a, unit);
      } else if d == Down {
        var unit := new CoordRef(Coord(0, -1));
        Add(a, unit);
      } else if d == Left {
        var unit := new CoordRef(Coord(-1, 0));
        Add(a, unit);
      }
    }
  }
}
