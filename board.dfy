/**
 * The alternative board of board.go: a flat integer array indexed by
 * X + Y * sizeX, where 0 is a free cell and i + 1 marks a segment of snake i.
 */
module CellBoard {
  import opened Coords
  import opened Snapshot

  /** Row-major position of `pos` in the flat array. */
  function CellIndex(sizeX: int, pos: Coord): int {
    pos.X + pos.Y * sizeX
  }

  /** Every in-bounds coordinate has its index inside an array of sizeX * sizeY cells. */
  lemma IndexInRange(sizeX: int, sizeY: int, pos: Coord)
    requires InBounds(sizeX, sizeY, pos)
    ensures 0 <= CellIndex(sizeX, pos) < sizeX * sizeY
  {
    assert 0 <= pos.Y * sizeX;
    assert pos.Y * sizeX <= (sizeY - 1) * sizeX by {
      MulMonotone(pos.Y, sizeY - 1, sizeX);
    }
    assert (sizeY - 1) * sizeX == sizeY * sizeX - sizeX;
  }

  lemma MulMonotone(a: int, b: int, c: int)
    requires a <= b && 0 <= c
    ensures a * c <= b * c
  {
    assert b * c - a * c == (b - a) * c;
  }

  /** Distinct columns-in-range coordinates never share an index. */
  lemma IndexInjective(sizeX: int, p: Coord, q: Coord)
    requires 0 <= p.X < sizeX && 0 <= q.X < sizeX
    requires CellIndex(sizeX, p) == CellIndex(sizeX, q)
    ensures p == q
  {
    if p.Y < q.Y {
      assert (p.Y + 1) * sizeX == p.Y * sizeX + sizeX;
      MulMonotone(p.Y + 1, q.Y, sizeX);
      assert false;
    } else if q.Y < p.Y {
      assert (q.Y + 1) * sizeX == q.Y * sizeX + sizeX;
      MulMonotone(q.Y + 1, p.Y, sizeX);
      assert false;
    }
  }

  /** Some segment of `s` is written at array index `idx`. */
  ghost predicate Covers(s: Battlesnake, sizeX: int, idx: int) {
    exists seg :: seg in s.Body && CellIndex(sizeX, seg) == idx
  }

  /**
   * The value painting leaves at index `idx`: i + 1 for the highest-index snake
   * i with a segment there, 0 when no segment is written there.
   */
  ghost function Painted(snakes: seq<Battlesnake>, sizeX: int, idx: int): (v: int)
    ensures 0 <= v <= |snakes|
    ensures v > 0 ==> Covers(snakes[v - 1], sizeX, idx)
    ensures v > 0 ==> forall i :: v <= i < |snakes| ==> !Covers(snakes[i], sizeX, idx)
    ensures v == 0 <==> forall i :: 0 <= i < |snakes| ==> !Covers(snakes[i], sizeX, idx)
  {
    if |snakes| == 0 then 0
    else if Covers(snakes[|snakes| - 1], sizeX, idx) then |snakes|
    else Painted(snakes[..|snakes| - 1], sizeX, idx)
  }

  /** On a board whose snakes lie on it, a cell is painted 0 exactly when no segment is on it. */
  lemma PaintedZeroIffFree(sizeX: int, sizeY: int, snakes: seq<Battlesnake>, pos: Coord)
    requires InBounds(sizeX, sizeY, pos)
    requires forall i, seg :: 0 <= i < |snakes| && seg in snakes[i].Body ==> InBounds(sizeX, sizeY, seg)
    ensures Painted(snakes, sizeX, CellIndex(sizeX, pos)) == 0 <==> forall i :: 0 <= i < |snakes| ==> pos !in snakes[i].Body
  {
    forall i | 0 <= i < |snakes|
      ensures Covers(snakes[i], sizeX, CellIndex(sizeX, pos)) <==> pos in snakes[i].Body
    {
      CoversIffOn(sizeX, sizeY, snakes[i], pos);
    }
  }

  lemma CoversIffOn(sizeX: int, sizeY: int, s: Battlesnake, pos: Coord)
    requires InBounds(sizeX, sizeY, pos)
    requires forall seg :: seg in s.Body ==> InBounds(sizeX, sizeY, seg)
    ensures Covers(s, sizeX, CellIndex(sizeX, pos)) <==> pos in s.Body
  {
    if Covers(s, sizeX, CellIndex(sizeX, pos)) {
      var seg :| seg in s.Body && CellIndex(sizeX, seg) == CellIndex(sizeX, pos);
      IndexInjective(sizeX, seg, pos);
    }
  }

  lemma PaintedStep(snakes: seq<Battlesnake>, i: int, sizeX: int, k: int)
    requires 0 <= i < |snakes|
    ensures Painted(snakes[..i + 1], sizeX, k) ==
      if Covers(snakes[i], sizeX, k) then i + 1 else Painted(snakes[..i], sizeX, k)
  {
    assert snakes[..i + 1][..i] == snakes[..i];
  }

  /** After painting, a cell of a board whose snakes lie on it is safe iff no segment covers it. */
  lemma SafeIffFree(g: Grid, snakes: seq<Battlesnake>)
    requires g.Valid()
    requires forall k :: 0 <= k < g.board.Length ==> g.board[k] == Painted(snakes, g.sizeX, k)
    ensures (forall i, seg :: 0 <= i < |snakes| && seg in snakes[i].Body ==> InBounds(g.sizeX, g.sizeY, seg)) ==>
      forall pos :: g.IsCoordSafe(pos) <==> InBounds(g.sizeX, g.sizeY, pos) && forall i :: 0 <= i < |snakes| ==> pos !in snakes[i].Body
  {
    if forall i, seg :: 0 <= i < |snakes| && seg in snakes[i].Body ==> InBounds(g.sizeX, g.sizeY, seg) {
      forall pos
        ensures g.IsCoordSafe(pos) <==> InBounds(g.sizeX, g.sizeY, pos) && forall i :: 0 <= i < |snakes| ==> pos !in snakes[i].Body
      {
        if InBounds(g.sizeX, g.sizeY, pos) {
          PaintedZeroIffFree(g.sizeX, g.sizeY, snakes, pos);
        }
      }
    }
  }

  class Grid {
    var sizeX: int
    var sizeY: int
    var board: array<int>

    ghost predicate Valid()
      reads this
    {
      board.Length == sizeX * sizeY
    }

    /** `Grid{}`: Go's zero value, whose nil board has no cells. */
    constructor ()
      ensures sizeX == 0 && sizeY == 0 && board.Length == 0 && Valid()
    {
      sizeX, sizeY := 0, 0;
      board := new int[0];
    }

    /** `Get`: the cell at index X + Y * sizeX; the source does no bounds check, so the index must exist. */
    function Get(pos: Coord): (v: int)
      reads this, board
      requires 0 <= CellIndex(sizeX, pos) < board.Length
      ensures v == board[CellIndex(sizeX, pos)]
    {
      board[CellIndex(sizeX, pos)]
    }

    /**
     * `Set`: writes exactly index X + Y * sizeX. For an in-bounds coordinate on a
     * valid board, `Get` then reads `value` there and every other in-bounds
     * coordinate keeps what it held.
     */
    method Set(pos: Coord, value: int)
      requires 0 <= CellIndex(sizeX, pos) < board.Length
      modifies board
      ensures board[CellIndex(sizeX, pos)] == value && Get(pos) == value
      ensures forall k :: 0 <= k < board.Length && k != CellIndex(sizeX, pos) ==> board[k] == old(board[k])
      ensures Valid() && InBounds(sizeX, sizeY, pos) ==>
        forall q :: InBounds(sizeX, sizeY, q) && q != pos ==> IndexInRangeOf(q) && Get(q) == old(Get(q))
    {
      board[CellIndex(sizeX, pos)] := value;
      if Valid() && InBounds(sizeX, sizeY, pos) {
        forall q | InBounds(sizeX, sizeY, q) && q != pos
          ensures IndexInRangeOf(q) && CellIndex(sizeX, q) != CellIndex(sizeX, pos)
        {
          IndexInRange(sizeX, sizeY, q);
          if CellIndex(sizeX, q) == CellIndex(sizeX, pos) {
            IndexInjective(sizeX, q, pos);
          }
        }
      }
    }

    /** The array holds a cell for `q`. */
    predicate IndexInRangeOf(q: Coord)
      reads this
    {
      0 <= CellIndex(sizeX, q) < board.Length
    }

    /** `IsCoordSafe`: false off the board without reading the array; on it, true iff the cell is 0. */
    function IsCoordSafe(pos: Coord): (safe: bool)
      reads this, board
      requires Valid()
      ensures !InBounds(sizeX, sizeY, pos) ==> !safe
      ensures InBounds(sizeX, sizeY, pos) ==> IndexInRangeOf(pos) && (safe <==> Get(pos) == 0)
    {
      if pos.X < 0 || pos.Y < 0 || pos.X >= sizeX || pos.Y >= sizeY then
        false
      else
        IndexInRange(sizeX, sizeY, pos);
        Get(pos) == 0
    }

    /**
     * `SetupFromState`: a fresh array of Width * Height zeros, then every segment of
     * snake i painted i + 1, later snakes overwriting earlier ones. When all
     * segments lie on the board, a cell is then safe iff it is on the board and
     * no segment covers it.
     */
    method SetupFromState(state: GameState)
      requires state.Board.Width * state.Board.Height >= 0
      requires forall i, seg :: 0 <= i < |state.Board.Snakes| && seg in state.Board.Snakes[i].Body ==>
        0 <= CellIndex(state.Board.Width, seg) < state.Board.Width * state.Board.Height
      modifies this
      ensures sizeX == state.Board.Width && sizeY == state.Board.Height
      ensures Valid() && fresh(board)
      ensures forall k :: 0 <= k < board.Length ==> board[k] == Painted(state.Board.Snakes, sizeX, k)
      ensures (forall i, seg :: 0 <= i < |state.Board.Snakes| && seg in state.Board.Snakes[i].Body ==> InBounds(sizeX, sizeY, seg)) ==>
        forall pos :: IsCoordSafe(pos) <==> InBounds(sizeX, sizeY, pos) && forall i :: 0 <= i < |state.Board.Snakes| ==> pos !in state.Board.Snakes[i].Body
    {
      sizeX := state.Board.Width;
      sizeY := state.Board.Height;
      var cells := new int[sizeX * sizeY](_ => 0);
      board := cells;
      var snakes := state.Board.Snakes;
      var i := 0;
      while i < |snakes|
        invariant 0 <= i <= |snakes|
        invariant sizeX == state.Board.Width && sizeY == state.Board.Height
        invariant board == cells && Valid()
        invariant forall k :: 0 <= k < board.Length ==> board[k] == Painted(snakes[..i], sizeX, k)
      {
        PaintBody(snakes[i].Body, i + 1);
        forall k | 0 <= k < board.Length
          ensures board[k] == Painted(snakes[..i + 1], sizeX, k)
        {
          PaintedStep(snakes, i, sizeX, k);
        }
        i := i + 1;
      }
      assert snakes[..i] == snakes;
      SafeIffFree(this, snakes);
    }

    /** The nested segment loop of `SetupFromState` for one snake: every segment's cell gets `value`. */
    method PaintBody(body: seq<Coord>, value: int)
      requires forall seg :: seg in body ==> 0 <= CellIndex(sizeX, seg) < board.Length
      modifies board
      ensures forall k :: 0 <= k < board.Length ==>
        board[k] == if exists seg :: seg in body && CellIndex(sizeX, seg) == k then value else old(board[k])
    {
      var j := 0;
      while j < |body|
        invariant 0 <= j <= |body|
        invariant forall k :: 0 <= k < board.Length ==>
          board[k] == if exists seg :: seg in body[..j] && CellIndex(sizeX, seg) == k then value else old(board[k])
      {
        assert body[..j + 1] == body[..j] + [body[j]];
        Set(body[j], value);
        j := j + 1;
      }
      assert body[..j] == body;
    }
  }
}
