/** The direction enumeration of direction.go. */
module Directions {

  /** Go's `type Direction int`: any integer is a Direction value, not only the named ones. */
  newtype Direction = int

  const Up: Direction := 0
  const Right: Direction := 1
  const Down: Direction := 2
  const Left: Direction := 3
  const DirNull: Direction := 4

  /** The package-level `directions` array, in enumeration order. */
  const Directions: seq<Direction> := [Up, Right, Down, Left]

  /** The move names used on the wire, indexed by the direction's value. */
  const Names: seq<string> := ["up", "right", "down", "left"]

  predicate IsCardinal(d: Direction) {
    d == Up || d == Right || d == Down || d == Left
  }

  /** `Direction.String`: the wire name of a cardinal direction; everything else reads as "up". */
  function String(d: Direction): (s: string)
    ensures IsCardinal(d) ==> s == Names[d as int]
    ensures !IsCardinal(d) ==> s == "up"
    ensures s in Names
  {
    match d
    case 0 => "up"
    case 1 => "right"
    case 2 => "down"
    case 3 => "left"
    case _ => "up"
  }

  /** The constants are 0, 1, 2, 3, 4 in declaration order (iota). */
  lemma DirectionValues()
    ensures Up as int == 0 && Right as int == 1 && Down as int == 2 && Left as int == 3 && DirNull as int == 4
    ensures !IsCardinal(DirNull)
  {
  }

  /** `directions` holds exactly the four cardinal directions, pairwise distinct, in order. */
  lemma DirectionsArray()
    ensures |Directions| == 4
    ensures Directions[0] == Up && Directions[1] == Right && Directions[2] == Down && Directions[3] == Left
    ensures forall i :: 0 <= i < |Directions| ==> IsCardinal(Directions[i])
    ensures forall d :: IsCardinal(d) ==> d in Directions
    ensures forall i, j :: 0 <= i < j < |Directions| ==> Directions[i] != Directions[j]
  {
  }

  /** `String` tells the four cardinal directions apart. */
  lemma StringInjective(a: Direction, b: Direction)
    requires IsCardinal(a) && IsCardinal(b)
    requires String(a) == String(b)
    ensures a == b
  {
    assert Names[0] != Names[1] && Names[0] != Names[2] && Names[0] != Names[3];
    assert Names[1] != Names[2] && Names[1] != Names[3] && Names[2] != Names[3];
  }

  /** DirNull (or any out-of-range value) is reported as "up", the same name as Up. */
  lemma StringFallback(d: Direction)
    requires !IsCardinal(d)
    ensures String(d) == String(Up) == "up"
  {
  }
}
