/**
 * The list-based board and one-turn simulator of grid.go: occupancy queries,
 * distance queries, the in-place move of one snake, the simultaneous turn with
 * delayed deaths, and the base score with the cutoff of `eval`.
 */
module SnakeGrid {
  import opened Options
  import opened Directions
  import opened Coords
  import opened Snapshot

  // Cell classifications returned by `Get`; snake i is reported as Player + i.
  const Empty: int := 0
  const Hazard: int := 1
  const OutOfBounds: int := 2
  const Player: int := 3

  /** Score of a position in which the controlled snake is dead. */
  const DeathScore: int := -10000
  /** Health a snake gets back when it eats. */
  const MaxHealth: int := 100

  // ---------------------------------------------------------------------
  // Board facts, stated over plain values so that they can speak of the
  // state before and after a turn.
  // ---------------------------------------------------------------------

  /** No segment of any snake, dead or alive, lies on `pos`. */
  ghost predicate NoSegmentAt(snakes: seq<Battlesnake>, pos: Coord) {
    forall i :: 0 <= i < |snakes| ==> pos !in snakes[i].Body
  }

  /** The cells `Get` classifies as Empty. */
  ghost predicate EmptyCell(sizeX: int, sizeY: int, snakes: seq<Battlesnake>, hazards: seq<Coord>, pos: Coord) {
    InBounds(sizeX, sizeY, pos) && NoSegmentAt(snakes, pos) && pos !in hazards
  }

  /** Off the board, or on a non-head segment of a snake that is not dead. */
  ghost predicate DeadlyAt(sizeX: int, sizeY: int, snakes: seq<Battlesnake>, pos: Coord) {
    || !InBounds(sizeX, sizeY, pos)
    || exists i, k :: 0 <= i < |snakes| && !snakes[i].Dead && 1 <= k < |snakes[i].Body| && snakes[i].Body[k] == pos
  }

  /** Every live snake among the first `n`, the ones that are given a direction, has a body to shift. */
  ghost predicate Movable(snakes: seq<Battlesnake>, n: int) {
    forall i :: 0 <= i < |snakes| && i < n ==> !snakes[i].Dead ==> |snakes[i].Body| > 0
  }

  /** The cell reached from `pos` after `k` steps in direction `dir`. */
  function Walk(pos: Coord, dir: Direction, k: nat): (c: Coord) {
    if k == 0 then pos
    else
      var p := Walk(pos, dir, k - 1);
      p.AddDir(p, dir)
  }

  lemma {:induction false} WalkLine(pos: Coord, dir: Direction, k: nat)
    ensures dir == Up ==> Walk(pos, dir, k) == Coord(pos.X, pos.Y + k)
    ensures dir == Right ==> Walk(pos, dir, k) == Coord(pos.X + k, pos.Y)
    ensures dir == Down ==> Walk(pos, dir, k) == Coord(pos.X, pos.Y - k)
    ensures dir == Left ==> Walk(pos, dir, k) == Coord(pos.X - k, pos.Y)
    ensures !IsCardinal(dir) ==> Walk(pos, dir, k) == pos
  {
    if k > 0 {
      WalkLine(pos, dir, k - 1);
    }
  }

  // ---------------------------------------------------------------------
  // One snake's move (moveSnake) and the simultaneous turn (simulate).
  // ---------------------------------------------------------------------

  /**
   * The snake after `moveSnake`: a dead snake stays as it is; a live one steps its
   * head, every segment takes its predecessor's place, health drops by one, and on
   * food health is restored and the last segment is duplicated.
   */
  function Moved(s: Battlesnake, dir: Direction, food: seq<Coord>): (r: Battlesnake)
    requires !s.Dead ==> |s.Body| > 0
    ensures s.Dead ==> r == s
    ensures !s.Dead ==> r.Head == s.Head.AddDir(s.Head, dir)
    ensures !s.Dead ==> |r.Body| == |s.Body| + (if r.Head in food then 1 else 0)
    ensures !s.Dead ==> r.Body[0] == r.Head
    ensures !s.Dead ==> forall k :: 1 <= k < |s.Body| ==> r.Body[k] == s.Body[k - 1]
    ensures !s.Dead && r.Head in food ==> r.Body[|s.Body|] == r.Body[|s.Body| - 1]
    ensures !s.Dead ==> r.Health == if r.Head in food then MaxHealth else s.Health - 1
    ensures r.Id == s.Id && r.Length == s.Length && r.Dead == s.Dead
  {
    if s.Dead then s
    else
      var head := s.Head.AddDir(s.Head, dir);
      var shifted := [head] + s.Body[..|s.Body| - 1];
      if head in food then
        s.(Head := head, Body := shifted + [shifted[|shifted| - 1]], Health := MaxHealth)
      else
        s.(Head := head, Body := shifted, Health := s.Health - 1)
  }

  /** Every snake with a direction in `dirs` moved; the rest as they were. */
  function MoveAll(snakes: seq<Battlesnake>, dirs: seq<Direction>, food: seq<Coord>): (r: seq<Battlesnake>)
    requires Movable(snakes, |dirs|)
    ensures |r| == |snakes|
    ensures forall i :: 0 <= i < |snakes| ==> r[i].Id == snakes[i].Id && r[i].Length == snakes[i].Length && r[i].Dead == snakes[i].Dead
    ensures forall i :: 0 <= i < |snakes| && (i >= |dirs| || snakes[i].Dead) ==> r[i] == snakes[i]
    ensures forall i :: 0 <= i < |snakes| && i < |dirs| && !snakes[i].Dead ==>
      r[i].Head == snakes[i].Head.AddDir(snakes[i].Head, dirs[i]) && 0 < |r[i].Body| && r[i].Body[0] == r[i].Head
  {
    seq(|snakes|, i requires 0 <= i < |snakes| =>
      if i < |dirs| then Moved(snakes[i], dirs[i], food) else snakes[i])
  }

  /** The head-to-head rule as grid.go:209-218 runs it: only lower indices are compared. */
  ghost predicate LosesHeadOnBelow(ms: seq<Battlesnake>, i: int)
    requires 0 <= i < |ms|
  {
    exists j :: 0 <= j < i && ms[i].Head == ms[j].Head && ms[i].Length <= ms[j].Length
  }

  /** Why snake `i` is put on the `toBeDead` list of `simulate`, judged on the moved snakes `ms`. */
  ghost predicate Dies(sizeX: int, sizeY: int, ms: seq<Battlesnake>, i: int)
    requires 0 <= i < |ms|
  {
    || ms[i].Health <= 0
    || DeadlyAt(sizeX, sizeY, ms, ms[i].Head)
    || LosesHeadOnBelow(ms, i)
  }

  /**
   * Deaths applied after all checks: every check reads the flags of `ms`, so a
   * death found this turn does not influence another snake's check.
   */
  ghost function Resolve(sizeX: int, sizeY: int, ms: seq<Battlesnake>): (r: seq<Battlesnake>)
    ensures |r| == |ms|
    ensures forall i :: 0 <= i < |ms| ==> r[i].(Dead := ms[i].Dead) == ms[i]
    ensures forall i :: 0 <= i < |ms| ==> (r[i].Dead <==> ms[i].Dead || Dies(sizeX, sizeY, ms, i))
  {
    seq(|ms|, i requires 0 <= i < |ms| => ms[i].(Dead := ms[i].Dead || Dies(sizeX, sizeY, ms, i)))
  }

  /** A snake's own head never makes its cell deadly, nor does any part of a dead snake. */
  lemma HeadsAndDeadAreHarmless(sizeX: int, sizeY: int, snakes: seq<Battlesnake>, pos: Coord)
    requires InBounds(sizeX, sizeY, pos)
    requires forall i, k :: 0 <= i < |snakes| && 0 <= k < |snakes[i].Body| && snakes[i].Body[k] == pos ==>
      k == 0 || snakes[i].Dead
    ensures !DeadlyAt(sizeX, sizeY, snakes, pos)
  {
  }

  /**
   * Safe tail: a snake that did not eat leaves its old tail cell, unless that cell
   * also held an earlier segment or is where the head went.
   */
  lemma SafeTail(s: Battlesnake, dir: Direction, food: seq<Coord>)
    requires !s.Dead && |s.Body| > 0
    requires Moved(s, dir, food).Head !in food
    requires Moved(s, dir, food).Head != s.Body[|s.Body| - 1]
    requires s.Body[|s.Body| - 1] !in s.Body[..|s.Body| - 1]
    ensures s.Body[|s.Body| - 1] !in Moved(s, dir, food).Body
  {
    var r := Moved(s, dir, food);
    var n := |s.Body|;
    var tail := s.Body[n - 1];
    forall k | 0 <= k < |r.Body|
      ensures r.Body[k] != tail
    {
      if k > 0 {
        assert r.Body[k] == s.Body[..n - 1][k - 1];
      }
    }
  }

  /**
   * Safe tail, stated as `isPosDeadly` sees it: once snake i has moved without
   * eating, its old in-bounds tail cell is deadly for nobody unless another live
   * snake has a non-head segment there.
   */
  lemma SafeTailNotDeadly(sizeX: int, sizeY: int, snakes: seq<Battlesnake>, i: int, dir: Direction, food: seq<Coord>)
    requires 0 <= i < |snakes|
    requires !snakes[i].Dead && |snakes[i].Body| > 0
    requires Moved(snakes[i], dir, food).Head !in food
    requires Moved(snakes[i], dir, food).Head != snakes[i].Body[|snakes[i].Body| - 1]
    requires snakes[i].Body[|snakes[i].Body| - 1] !in snakes[i].Body[..|snakes[i].Body| - 1]
    requires forall j, k :: 0 <= j < |snakes| && j != i && !snakes[j].Dead && 1 <= k < |snakes[j].Body| ==>
      snakes[j].Body[k] != snakes[i].Body[|snakes[i].Body| - 1]
    ensures var tail := snakes[i].Body[|snakes[i].Body| - 1];
      InBounds(sizeX, sizeY, tail) ==> !DeadlyAt(sizeX, sizeY, snakes[i := Moved(snakes[i], dir, food)], tail)
  {
    SafeTail(snakes[i], dir, food);
  }

  // ---------------------------------------------------------------------
  // The finding at grid.go:209-218 and the intended rule.
  // ---------------------------------------------------------------------

  /** The snakes reordered: position k holds snake p[k]; `q` is the inverse of `p`. */
  ghost predicate IsPermutation(p: seq<int>, q: seq<int>, n: int) {
    && |p| == n && |q| == n
    && (forall k :: 0 <= k < n ==> 0 <= p[k] < n && q[p[k]] == k)
    && (forall k :: 0 <= k < n ==> 0 <= q[k] < n && p[q[k]] == k)
  }

  function Permute(ms: seq<Battlesnake>, p: seq<int>): (r: seq<Battlesnake>)
    requires forall k :: 0 <= k < |p| ==> 0 <= p[k] < |ms|
    ensures |r| == |p|
  {
    seq(|p|, k requires 0 <= k < |p| => ms[p[k]])
  }

  /**
   * Two live snakes of lengths `l0` and `l1` with equal health, heads on (1,1):
   * the first lies up column 0, the second along row 1.
   */
  function HeadOnPair(l0: nat, l1: nat): (ms: seq<Battlesnake>)
    ensures |ms| == 2 && |ms[0].Body| == ms[0].Length == l0 && |ms[1].Body| == ms[1].Length == l1
  {
    [ Battlesnake("a", 50, seq(l0, k => if k == 0 then Coord(1, 1) else Coord(0, k)), Coord(1, 1), l0, false),
      Battlesnake("b", 50, seq(l1, k => if k == 0 then Coord(1, 1) else Coord(1 + k, 1)), Coord(1, 1), l1, false) ]
  }

  /**
   * As written, a head-on collision is judged only against lower indices: of two
   * equal-length snakes only the later one dies, a shorter earlier snake survives
   * a longer later one, and the outcome depends on the order of the snakes.
   */
  lemma HeadOnAsWritten()
    ensures var r := Resolve(11, 11, HeadOnPair(3, 3)); !r[0].Dead && r[1].Dead
    ensures var r := Resolve(11, 11, HeadOnPair(3, 5)); !r[0].Dead && !r[1].Dead
    ensures Resolve(11, 11, Permute(HeadOnPair(3, 3), [1, 0])) != Permute(Resolve(11, 11, HeadOnPair(3, 3)), [1, 0])
  {
    var ms := HeadOnPair(3, 3);
    assert !DeadlyAt(11, 11, ms, Coord(1, 1));
    assert ms[1].Head == ms[0].Head && ms[1].Length <= ms[0].Length;
    assert LosesHeadOnBelow(ms, 1);
    assert !Dies(11, 11, ms, 0);
    var ms' := HeadOnPair(3, 5);
    assert !DeadlyAt(11, 11, ms', Coord(1, 1));
    assert !LosesHeadOnBelow(ms', 1);
    var sw := Permute(ms, [1, 0]);
    assert sw == [ms[1], ms[0]];
    assert !DeadlyAt(11, 11, sw, Coord(1, 1));
    assert !Dies(11, 11, sw, 0);
    assert Resolve(11, 11, sw)[0] != Permute(Resolve(11, 11, ms), [1, 0])[0];
  }

  /**
   * The intended head-to-head rule: every other snake that is still alive is
   * compared, as `isPosDeadly` ignores the bodies of dead snakes.
   */
  ghost predicate LosesHeadOn(ms: seq<Battlesnake>, i: int)
    requires 0 <= i < |ms|
  {
    exists j :: 0 <= j < |ms| && j != i && !ms[j].Dead && ms[i].Head == ms[j].Head && ms[i].Length <= ms[j].Length
  }

  ghost predicate DiesIntended(sizeX: int, sizeY: int, ms: seq<Battlesnake>, i: int)
    requires 0 <= i < |ms|
  {
    || ms[i].Health <= 0
    || DeadlyAt(sizeX, sizeY, ms, ms[i].Head)
    || LosesHeadOn(ms, i)
  }

  /** Death resolution with the intended head-to-head rule. */
  ghost function ResolveIntended(sizeX: int, sizeY: int, ms: seq<Battlesnake>): (r: seq<Battlesnake>)
    ensures |r| == |ms|
    ensures forall i :: 0 <= i < |ms| ==> r[i].(Dead := ms[i].Dead) == ms[i]
    ensures forall i :: 0 <= i < |ms| ==> (r[i].Dead <==> ms[i].Dead || DiesIntended(sizeX, sizeY, ms, i))
  {
    seq(|ms|, i requires 0 <= i < |ms| => ms[i].(Dead := ms[i].Dead || DiesIntended(sizeX, sizeY, ms, i)))
  }

  /**
   * Intended rule: when two snakes' heads meet, the one not longer than a live
   * other dies, and two live snakes of equal length both die.
   */
  lemma HeadOnIntended(sizeX: int, sizeY: int, ms: seq<Battlesnake>, i: int, j: int)
    requires 0 <= i < |ms| && 0 <= j < |ms| && i != j
    requires ms[i].Head == ms[j].Head
    ensures !ms[j].Dead && ms[i].Length <= ms[j].Length ==> ResolveIntended(sizeX, sizeY, ms)[i].Dead
    ensures !ms[i].Dead && !ms[j].Dead && ms[i].Length == ms[j].Length ==>
      ResolveIntended(sizeX, sizeY, ms)[i].Dead && ResolveIntended(sizeX, sizeY, ms)[j].Dead
  {
    if !ms[j].Dead && ms[i].Length <= ms[j].Length {
      assert LosesHeadOn(ms, i);
    }
    if !ms[i].Dead && !ms[j].Dead && ms[i].Length == ms[j].Length {
      assert LosesHeadOn(ms, i);
      assert LosesHeadOn(ms, j);
    }
  }

  /**
   * Intended rule: a snake whose head cell is shared only with dead snakes or
   * strictly shorter live ones survives the head-on check, so it dies exactly
   * when it was dead, starved, or its head is deadly.
   */
  lemma HeadOnSurvivor(sizeX: int, sizeY: int, ms: seq<Battlesnake>, i: int)
    requires 0 <= i < |ms|
    requires forall j :: 0 <= j < |ms| && j != i && !ms[j].Dead && ms[j].Head == ms[i].Head ==> ms[j].Length < ms[i].Length
    ensures ResolveIntended(sizeX, sizeY, ms)[i].Dead <==>
      ms[i].Dead || ms[i].Health <= 0 || DeadlyAt(sizeX, sizeY, ms, ms[i].Head)
  {
    assert !LosesHeadOn(ms, i);
  }

  /** A dead snake lying with its head on (1,1), and a live snake of the same length moving there. */
  function CorpsePair(): seq<Battlesnake> {
    [ Battlesnake("a", 50, [Coord(1, 1), Coord(1, 0), Coord(0, 0)], Coord(1, 1), 3, true),
      Battlesnake("b", 50, [Coord(1, 1), Coord(2, 1), Coord(3, 1)], Coord(1, 1), 3, false) ]
  }

  /**
   * As written, the head-on check of grid.go:214 does not skip dead snakes: a
   * live snake whose head reaches a corpse's head cell dies, although the
   * corpse's other segments are harmless. The intended rule lets it live.
   */
  lemma CorpseHeadAsWritten()
    ensures Resolve(11, 11, CorpsePair())[1].Dead
    ensures !ResolveIntended(11, 11, CorpsePair())[1].Dead
  {
    var ms := CorpsePair();
    assert ms[1].Head == ms[0].Head && ms[1].Length <= ms[0].Length;
    assert LosesHeadOnBelow(ms, 1);
    assert !DeadlyAt(11, 11, ms, Coord(1, 1)) by {
      assert ms[1].Body[1] != Coord(1, 1);
    }
    assert !LosesHeadOn(ms, 1);
  }

  lemma DeadlyPermuted(sizeX: int, sizeY: int, ms: seq<Battlesnake>, p: seq<int>, q: seq<int>, pos: Coord)
    requires IsPermutation(p, q, |ms|)
    ensures DeadlyAt(sizeX, sizeY, Permute(ms, p), pos) == DeadlyAt(sizeX, sizeY, ms, pos)
  {
    var ps := Permute(ms, p);
    if InBounds(sizeX, sizeY, pos) {
      if DeadlyAt(sizeX, sizeY, ps, pos) {
        var i, k :| 0 <= i < |ps| && !ps[i].Dead && 1 <= k < |ps[i].Body| && ps[i].Body[k] == pos;
        assert ms[p[i]].Body[k] == pos;
      }
      if DeadlyAt(sizeX, sizeY, ms, pos) {
        var i, k :| 0 <= i < |ms| && !ms[i].Dead && 1 <= k < |ms[i].Body| && ms[i].Body[k] == pos;
        assert ps[q[i]] == ms[i];
        assert ps[q[i]].Body[k] == pos;
      }
    }
  }

  /** Intended rule: the outcome does not depend on the order in which snakes are listed. */
  lemma {:induction false} ResolveIntendedPermutes(sizeX: int, sizeY: int, ms: seq<Battlesnake>, p: seq<int>, q: seq<int>)
    requires IsPermutation(p, q, |ms|)
    ensures ResolveIntended(sizeX, sizeY, Permute(ms, p)) == Permute(ResolveIntended(sizeX, sizeY, ms), p)
  {
    var ps := Permute(ms, p);
    var lhs := ResolveIntended(sizeX, sizeY, ps);
    var rhs := Permute(ResolveIntended(sizeX, sizeY, ms), p);
    forall k | 0 <= k < |ms|
      ensures lhs[k] == rhs[k]
    {
      var i := p[k];
      assert ps[k] == ms[i];
      DeadlyPermuted(sizeX, sizeY, ms, p, q, ms[i].Head);
      if LosesHeadOn(ps, k) {
        var j :| 0 <= j < |ps| && j != k && !ps[j].Dead && ps[k].Head == ps[j].Head && ps[k].Length <= ps[j].Length;
        assert p[j] != i;
        assert ms[p[j]] == ps[j];
        assert LosesHeadOn(ms, i);
      }
      if LosesHeadOn(ms, i) {
        var j :| 0 <= j < |ms| && j != i && !ms[j].Dead && ms[i].Head == ms[j].Head && ms[i].Length <= ms[j].Length;
        assert ps[q[j]] == ms[j];
        assert q[j] != k;
        assert LosesHeadOn(ps, k);
      }
      assert DiesIntended(sizeX, sizeY, ps, k) == DiesIntended(sizeX, sizeY, ms, i);
    }
  }

  // ---------------------------------------------------------------------
  // Scoring: evalBase and the cutoff of eval.
  // ---------------------------------------------------------------------

  /** Number of dead snakes. */
  function DeadCount(snakes: seq<Battlesnake>): (n: nat)
    ensures n == |set i | 0 <= i < |snakes| && snakes[i].Dead|
  {
    if |snakes| == 0 then 0
    else
      var last := |snakes| - 1;
      assert (set i | 0 <= i < |snakes| && snakes[i].Dead) ==
        (set i | 0 <= i < last && snakes[..last][i].Dead) + (if snakes[last].Dead then {last} else {});
      DeadCount(snakes[..last]) + (if snakes[last].Dead then 1 else 0)
  }

  /** Sum of the `Length` fields of the living snakes other than `you`. */
  function OtherLength(snakes: seq<Battlesnake>, you: int): (sum: int) {
    if |snakes| == 0 then 0
    else
      var last := |snakes| - 1;
      OtherLength(snakes[..last], you) + (if !snakes[last].Dead && last != you then snakes[last].Length else 0)
  }

  /** The score `evalBase` computes for snake `you`. */
  ghost function BaseScore(snakes: seq<Battlesnake>, you: int): (score: int)
    requires 0 <= you < |snakes|
  {
    if snakes[you].Dead then DeathScore
    else snakes[you].Health + 1000 * DeadCount(snakes) + snakes[you].Length - OtherLength(snakes, you)
  }

  lemma {:induction false} KillCounts(snakes: seq<Battlesnake>, you: int, k: int)
    requires 0 <= k < |snakes| && k != you && !snakes[k].Dead
    ensures DeadCount(snakes[k := snakes[k].(Dead := true)]) == DeadCount(snakes) + 1
    ensures OtherLength(snakes[k := snakes[k].(Dead := true)], you) == OtherLength(snakes, you) - snakes[k].Length
  {
    var killed := snakes[k := snakes[k].(Dead := true)];
    var last := |snakes| - 1;
    if k < last {
      KillCounts(snakes[..last], you, k);
      assert killed[..last] == snakes[..last][k := snakes[k].(Dead := true)];
    } else {
      assert killed[..last] == snakes[..last];
    }
  }

  /**
   * Killing another living snake raises the controlled snake's base score by
   * 1000 plus the victim's length, whatever else is on the board.
   */
  lemma KillRaisesScore(snakes: seq<Battlesnake>, you: int, k: int)
    requires 0 <= you < |snakes| && 0 <= k < |snakes| && k != you
    requires !snakes[you].Dead && !snakes[k].Dead
    ensures BaseScore(snakes[k := snakes[k].(Dead := true)], you) == BaseScore(snakes, you) + 1000 + snakes[k].Length
  {
    KillCounts(snakes, you, k);
  }

  // ---------------------------------------------------------------------
  // The Grid object.
  // ---------------------------------------------------------------------

  /** The last index whose snake has identity `id`, or `dflt` when there is none. */
  function LastIndexOf(snakes: seq<Battlesnake>, id: string, dflt: int): (r: int)
    ensures r == dflt || (0 <= r < |snakes| && snakes[r].Id == id)
    ensures (exists i :: 0 <= i < |snakes| && snakes[i].Id == id) ==>
      0 <= r < |snakes| && snakes[r].Id == id && forall i :: r < i < |snakes| ==> snakes[i].Id != id
    ensures (forall i :: 0 <= i < |snakes| ==> snakes[i].Id != id) ==> r == dflt
  {
    if |snakes| == 0 then dflt
    else if snakes[|snakes| - 1].Id == id then |snakes| - 1
    else LastIndexOf(snakes[..|snakes| - 1], id, dflt)
  }

  class Grid {
    var sizeX: int
    var sizeY: int
    var you: int
    var snakes: seq<Battlesnake>
    var hazards: seq<Coord>
    var food: seq<Coord>

    /** `Grid{}`: Go's zero value. */
    constructor ()
      ensures sizeX == 0 && sizeY == 0 && you == 0 && snakes == [] && hazards == [] && food == []
    {
      sizeX, sizeY, you := 0, 0, 0;
      snakes, hazards, food := [], [], [];
    }

    /**
     * `SetupFromState`: copies the board, revives every snake, and points `you`
     * at the last snake whose identity matches; with no match `you` keeps its value.
     */
    method SetupFromState(state: GameState)
      modifies this
      ensures sizeX == state.Board.Width && sizeY == state.Board.Height
      ensures hazards == state.Board.Hazards && food == state.Board.Food
      ensures |snakes| == |state.Board.Snakes|
      ensures forall i :: 0 <= i < |snakes| ==> snakes[i] == state.Board.Snakes[i].(Dead := false)
      ensures you == LastIndexOf(state.Board.Snakes, state.You.Id, old(you))
    {
      sizeX := state.Board.Width;
      sizeY := state.Board.Height;
      hazards := state.Board.Hazards;
      food := state.Board.Food;
      var all := state.Board.Snakes;
      var y := you;
      var i := 0;
      while i < |all|
        invariant 0 <= i <= |all| == |state.Board.Snakes|
        invariant forall k :: 0 <= k < i ==> all[k] == state.Board.Snakes[k].(Dead := false)
        invariant forall k :: i <= k < |all| ==> all[k] == state.Board.Snakes[k]
        invariant y == LastIndexOf(state.Board.Snakes[..i], state.You.Id, old(you))
      {
        assert state.Board.Snakes[..i + 1][..i] == state.Board.Snakes[..i];
        if all[i].Id == state.You.Id {
          y := i;
        }
        all := all[i := all[i].(Dead := false)];
        i := i + 1;
      }
      assert state.Board.Snakes[..i] == state.Board.Snakes;
      snakes, you := all, y;
    }

    /**
     * `Get`: off the board is OutOfBounds whatever lies there; on the board the
     * lowest-index snake (dead or alive) with a segment on `pos` wins, then a
     * hazard, and otherwise the cell is Empty.
     */
    method Get(pos: Coord) returns (r: int)
      ensures !InBounds(sizeX, sizeY, pos) ==> r == OutOfBounds
      ensures InBounds(sizeX, sizeY, pos) && !NoSegmentAt(snakes, pos) ==>
        && Player <= r < Player + |snakes|
        && pos in snakes[r - Player].Body
        && forall i :: 0 <= i < r - Player ==> pos !in snakes[i].Body
      ensures InBounds(sizeX, sizeY, pos) && NoSegmentAt(snakes, pos) ==>
        r == if pos in hazards then Hazard else Empty
      ensures r == Empty <==> EmptyCell(sizeX, sizeY, snakes, hazards, pos)
    {
      if pos.X < 0 || pos.Y < 0 || pos.X >= sizeX || pos.Y >= sizeY {
        return OutOfBounds;
      }
      var i := 0;
      while i < |snakes|
        invariant 0 <= i <= |snakes|
        invariant forall k :: 0 <= k < i ==> pos !in snakes[k].Body
      {
        var body := snakes[i].Body;
        var j := 0;
        while j < |body|
          invariant 0 <= j <= |body|
          invariant pos !in body[..j]
        {
          if body[j] == pos {
            return Player + i;
          }
          assert body[..j + 1] == body[..j] + [body[j]];
          j := j + 1;
        }
        assert body[..j] == body;
        i := i + 1;
      }
      var h := 0;
      while h < |hazards|
        invariant 0 <= h <= |hazards|
        invariant pos !in hazards[..h]
      {
        if hazards[h] == pos {
          return Hazard;
        }
        assert hazards[..h + 1] == hazards[..h] + [hazards[h]];
        h := h + 1;
      }
      assert hazards[..h] == hazards;
      return Empty;
    }

    /** `isPosDeadly`: off the board, or on a non-head segment of a snake that is not dead. */
    method IsPosDeadly(pos: Coord) returns (deadly: bool)
      ensures deadly == DeadlyAt(sizeX, sizeY, snakes, pos)
    {
      if pos.X < 0 || pos.Y < 0 || pos.X >= sizeX || pos.Y >= sizeY {
        return true;
      }
      var i := 0;
      while i < |snakes|
        invariant 0 <= i <= |snakes|
        invariant forall s, k :: 0 <= s < i && !snakes[s].Dead && 1 <= k < |snakes[s].Body| ==> snakes[s].Body[k] != pos
      {
        if !snakes[i].Dead {
          var body := snakes[i].Body;
          var j := 0;
          while j < |body|
            invariant 0 <= j <= |body|
            invariant forall k :: 1 <= k < j ==> body[k] != pos
          {
            if j != 0 && body[j] == pos {
              return true;
            }
            j := j + 1;
          }
        }
        i := i + 1;
      }
      return false;
    }

    /** `isFoodAt`. */
    method IsFoodAt(pos: Coord) returns (b: bool)
      ensures b <==> pos in food
    {
      var i := 0;
      while i < |food|
        invariant 0 <= i <= |food|
        invariant pos !in food[..i]
      {
        if pos == food[i] {
          return true;
        }
        assert food[..i + 1] == food[..i] + [food[i]];
        i := i + 1;
      }
      assert food[..i] == food;
      return false;
    }

    /** How many more cardinal steps from `c` in `dir` stay on the board. */
    function Reach(c: Coord, dir: Direction): (steps: int)
      reads this
    {
      if dir == Up then sizeY - c.Y
      else if dir == Right then sizeX - c.X
      else if dir == Down then c.Y + 1
      else c.X + 1
    }

    /**
     * `raycast`: the number of consecutive Empty cells from `pos` (itself included)
     * stepping in `dir`; 0 when `pos` is not Empty; never more than the board's
     * extent along that axis. A non-cardinal `dir` never moves the probe, so the
     * source returns only when the start cell is not Empty.
     */
    method Raycast(pos: Coord, dir: Direction) returns (dist: nat)
      requires IsCardinal(dir) || !EmptyCell(sizeX, sizeY, snakes, hazards, pos)
      ensures forall k :: 0 <= k < dist ==> EmptyCell(sizeX, sizeY, snakes, hazards, Walk(pos, dir, k))
      ensures !EmptyCell(sizeX, sizeY, snakes, hazards, Walk(pos, dir, dist))
      ensures dist == 0 <==> !EmptyCell(sizeX, sizeY, snakes, hazards, pos)
      ensures dist > 0 && (dir == Up || dir == Down) ==> dist <= sizeY
      ensures dist > 0 && (dir == Left || dir == Right) ==> dist <= sizeX
    {
      var check := new CoordRef(pos);
      dist := 0;
      while true
        invariant check.Value() == Walk(pos, dir, dist)
        invariant forall k :: 0 <= k < dist ==> EmptyCell(sizeX, sizeY, snakes, hazards, Walk(pos, dir, k))
        invariant dist > 0 ==> InBounds(sizeX, sizeY, pos) && InBounds(sizeX, sizeY, Walk(pos, dir, dist - 1))
        invariant !IsCardinal(dir) ==> dist == 0
        decreases Reach(check.Value(), dir)
      {
        var cell := check.Value();
        var c := Get(cell);
        if c != Empty {
          if dist > 0 {
            WalkLine(pos, dir, dist - 1);
          }
          return;
        }
        assert Walk(pos, dir, 0) == pos;
        dist := dist + 1;
        check.AddDir(check, dir);
      }
    }

    /**
     * `headMinDist`: the least head distance to `pos` over the snakes other than
     * `ignorePlayer` (dead ones included) and the first index attaining it;
     * absent, with index 0, when there is no other snake.
     */
    method HeadMinDist(pos: Coord, ignorePlayer: int) returns (dist: Option<int>, minSnake: int)
      ensures dist.None? <==> |snakes| == 0 || (|snakes| == 1 && ignorePlayer == 0)
      ensures dist.None? ==> minSnake == 0
      ensures dist.Some? ==>
        && 0 <= minSnake < |snakes| && minSnake != ignorePlayer
        && dist.value == snakes[minSnake].Head.Dist(pos)
        && (forall i :: 0 <= i < |snakes| && i != ignorePlayer ==> dist.value <= snakes[i].Head.Dist(pos))
        && (forall i :: 0 <= i < minSnake && i != ignorePlayer ==> dist.value < snakes[i].Head.Dist(pos))
    {
      dist, minSnake := None, 0;
      var i := 0;
      while i < |snakes|
        invariant 0 <= i <= |snakes|
        invariant dist.None? <==> i == 0 || (i == 1 && ignorePlayer == 0)
        invariant dist.None? ==> minSnake == 0
        invariant dist.Some? ==>
          && 0 <= minSnake < i && minSnake != ignorePlayer
          && dist.value == snakes[minSnake].Head.Dist(pos)
          && (forall k :: 0 <= k < i && k != ignorePlayer ==> dist.value <= snakes[k].Head.Dist(pos))
          && (forall k :: 0 <= k < minSnake && k != ignorePlayer ==> dist.value < snakes[k].Head.Dist(pos))
      {
        if i != ignorePlayer {
          var d := snakes[i].Head.Dist(pos);
          if dist.None? || dist.value > d {
            dist := Some(d);
            minSnake := i;
          }
        }
        i := i + 1;
      }
    }

    /** `foodMinDist`: the least distance from `pos` to a food cell; absent when there is no food. */
    method FoodMinDist(pos: Coord) returns (min: Option<int>)
      ensures min.None? <==> |food| == 0
      ensures min.Some? ==>
        && (exists k :: 0 <= k < |food| && min.value == food[k].Dist(pos))
        && (forall k :: 0 <= k < |food| ==> min.value <= food[k].Dist(pos))
    {
      min := None;
      var i := 0;
      while i < |food|
        invariant 0 <= i <= |food|
        invariant min.None? <==> i == 0
        invariant min.Some? ==>
          && (exists k :: 0 <= k < i && min.value == food[k].Dist(pos))
          && (forall k :: 0 <= k < i ==> min.value <= food[k].Dist(pos))
      {
        var d := food[i].Dist(pos);
        if min.None? || d < min.value {
          min := Some(d);
        }
        i := i + 1;
      }
    }

    /**
     * `moveSnake`: a dead snake is left alone; otherwise the body is shifted
     * back to front in place, the head stepped, health lowered, and on food
     * health restored and the last segment duplicated. No other snake changes.
     */
    method MoveSnake(snakeIndex: int, dir: Direction)
      requires 0 <= snakeIndex < |snakes|
      requires !snakes[snakeIndex].Dead ==> |snakes[snakeIndex].Body| > 0
      modifies this
      ensures snakes == old(snakes)[snakeIndex := Moved(old(snakes)[snakeIndex], dir, food)]
      ensures sizeX == old(sizeX) && sizeY == old(sizeY) && you == old(you)
      ensures hazards == old(hazards) && food == old(food)
    {
      var snake := snakes[snakeIndex];
      if snake.Dead {
        return;
      }
      var head := snake.Head.AddDir(snake.Head, dir);
      var body := snake.Body;
      var i := |body| - 1;
      while i > 0
        invariant 0 <= i < |body| == |snake.Body|
        invariant forall k :: 0 <= k <= i ==> body[k] == snake.Body[k]
        invariant forall k :: i < k < |body| ==> body[k] == snake.Body[k - 1]
      {
        body := body[i := body[i - 1]];
        i := i - 1;
      }
      body := body[0 := head];
      snakes := snakes[snakeIndex := snake.(Head := head, Body := body, Health := snake.Health - 1)];
      var eats := IsFoodAt(head);
      if eats {
        body := body + [body[|body| - 1]];
        snakes := snakes[snakeIndex := snakes[snakeIndex].(Health := MaxHealth, Body := body)];
      }
      ghost var m := Moved(snake, dir, food);
      assert body == m.Body;
    }

    /**
     * `simulate`: moves snake i by `dirs[i]`, then decides every death on the
     * moved snakes with the flags as they were, and only then sets the flags.
     */
    method Simulate(dirs: seq<Direction>)
      requires |dirs| <= |snakes|
      requires Movable(snakes, |dirs|)
      modifies this
      ensures snakes == Resolve(sizeX, sizeY, MoveAll(old(snakes), dirs, food))
      ensures sizeX == old(sizeX) && sizeY == old(sizeY) && you == old(you)
      ensures hazards == old(hazards) && food == old(food)
    {
      ghost var start := snakes;
      var i := 0;
      while i < |dirs|
        invariant 0 <= i <= |dirs|
        invariant snakes == MoveAll(start, dirs[..i], food)
        invariant sizeX == old(sizeX) && sizeY == old(sizeY) && you == old(you)
        invariant hazards == old(hazards) && food == old(food)
      {
        MoveSnake(i, dirs[i]);
        assert MoveAll(start, dirs[..i + 1], food) == MoveAll(start, dirs[..i], food)[i := Moved(start[i], dirs[i], food)];
        i := i + 1;
      }
      assert dirs[..i] == dirs;
      ghost var ms := snakes;

      var toBeDead := CollectDeaths();

      var t := 0;
      while t < |toBeDead|
        invariant 0 <= t <= |toBeDead|
        invariant |snakes| == |ms|
        invariant forall k :: 0 <= k < |ms| ==> snakes[k] == ms[k].(Dead := ms[k].Dead || k in toBeDead[..t])
        invariant sizeX == old(sizeX) && sizeY == old(sizeY) && you == old(you)
        invariant hazards == old(hazards) && food == old(food)
      {
        var index := toBeDead[t];
        assert toBeDead[..t + 1] == toBeDead[..t] + [index];
        snakes := snakes[index := snakes[index].(Dead := true)];
        t := t + 1;
      }
      assert toBeDead[..t] == toBeDead;
    }

    /**
     * The death checks of `simulate` (grid.go:193-219): the indices put on
     * `toBeDead`, each judged on the current snakes and their current flags.
     */
    method CollectDeaths() returns (toBeDead: seq<int>)
      ensures forall k :: 0 <= k < |toBeDead| ==> 0 <= toBeDead[k] < |snakes|
      ensures forall k :: k in toBeDead <==> 0 <= k < |snakes| && Dies(sizeX, sizeY, snakes, k)
    {
      toBeDead := [];
      var i := 0;
      while i < |snakes|
        invariant 0 <= i <= |snakes|
        invariant forall k :: 0 <= k < |toBeDead| ==> 0 <= toBeDead[k] < |snakes|
        invariant forall k :: k in toBeDead <==> 0 <= k < i && Dies(sizeX, sizeY, snakes, k)
      {
        var head := snakes[i].Head;
        if snakes[i].Health <= 0 {
          toBeDead := toBeDead + [i];
        } else {
          var deadly := IsPosDeadly(head);
          if deadly {
            toBeDead := toBeDead + [i];
          } else {
            var lost := false;
            var j := 0;
            while j < |snakes|
              invariant 0 <= j <= i
              invariant !lost
              invariant forall l :: 0 <= l < j ==> !(head == snakes[l].Head && snakes[i].Length <= snakes[l].Length)
            {
              if j == i {
                break;
              }
              if head == snakes[j].Head && snakes[i].Length <= snakes[j].Length {
                lost := true;
                break;
              }
              j := j + 1;
            }
            assert lost <==> LosesHeadOnBelow(snakes, i);
            if lost {
              toBeDead := toBeDead + [i];
            }
          }
        }
        i := i + 1;
      }
    }

    /** `evalBase`. */
    method EvalBase() returns (e: int)
      requires 0 <= you < |snakes|
      ensures e == BaseScore(snakes, you)
    {
      if snakes[you].Dead {
        return DeathScore;
      }
      var deadCount := 0;
      var otherLength := 0;
      var i := 0;
      while i < |snakes|
        invariant 0 <= i <= |snakes|
        invariant deadCount == DeadCount(snakes[..i])
        invariant otherLength == OtherLength(snakes[..i], you)
      {
        assert snakes[..i + 1][..i] == snakes[..i];
        if snakes[i].Dead {
          deadCount := deadCount + 1;
        } else if i != you {
          otherLength := otherLength + snakes[i].Length;
        }
        i := i + 1;
      }
      assert snakes[..i] == snakes;
      e := snakes[you].Health + deadCount * 1000 + snakes[you].Length - otherLength;
    }

    /**
     * The cutoff and depth-0 rules of `eval`: a base score below -1000 (in
     * particular a dead controlled snake) short-circuits to DeathScore, and at
     * depth 0 the base score itself is returned, both with Left. Deeper search
     * is not modelled and yields None.
     */
    method Eval(depth: int) returns (r: Option<(int, Direction)>)
      requires 0 <= you < |snakes|
      ensures snakes[you].Dead ==> r == Some((DeathScore, Left))
      ensures BaseScore(snakes, you) < -1000 ==> r == Some((DeathScore, Left))
      ensures BaseScore(snakes, you) >= -1000 && depth == 0 ==> r == Some((BaseScore(snakes, you), Left))
      ensures BaseScore(snakes, you) >= -1000 && depth != 0 ==> r == None
    {
      var eval := EvalBase();
      if eval < -1000 {
        return Some((DeathScore, Left));
      }
      if depth == 0 {
        return Some((eval, Left));
      }
      return None;
    }
  }
}
