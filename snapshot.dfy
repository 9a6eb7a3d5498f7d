/**
 * The per-turn snapshot the engine is built from. The Go declarations of
 * `Battlesnake` and `GameState` are not part of this model; their fields are
 * the ones the core reads and writes.
 */
module Snapshot {
  import opened Coords

  /** One snake: body head first, tail last; `Length` is a field of its own, not |Body|. */
  datatype Battlesnake = Battlesnake(
    Id: string,
    Health: int,
    Body: seq<Coord>,
    Head: Coord,
    Length: int,
    Dead: bool)

  datatype GameBoard = GameBoard(
    Width: int,
    Height: int,
    Food: seq<Coord>,
    Hazards: seq<Coord>,
    Snakes: seq<Battlesnake>)

  datatype GameState = GameState(Board: GameBoard, You: Battlesnake)
}
