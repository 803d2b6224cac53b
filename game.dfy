/** The game state of the script: the module-level grid dictionary with its
    settings, the score kept by `main`, and the steps of `main` that change
    them. */
module Game {
  import opened Directions
  import opened Board
  import Traversal
  import Engine

  class Game {
    /** The settings `width`, `starting_blocks` and `starting_value`. */
    const width: nat
    const startingBlocks: nat
    const startingValue: int
    /** The global `grid`: every cell of the board to its value, 0 when empty. */
    var grid: Grid
    /** The local `score` of `main`. */
    var score: int

    ghost predicate Valid()
      reads this
    {
      WellFormed(grid, width) && score >= 0 && startingValue >= 0
    }

    /** The module set-up: every cell of the board gets the value 0, x in the
        outer loop and y in the inner one. */
    constructor (width: nat, startingBlocks: nat, startingValue: int)
      requires startingValue >= 0
      ensures Valid()
      ensures this.width == width && this.startingBlocks == startingBlocks && this.startingValue == startingValue
      ensures forall c :: c in grid ==> grid[c] == 0
      ensures EmptySpaces(grid, width) == Keys(width) && OccupiedSpaces(grid, width) == []
      ensures score == 0
    {
      var g: Grid := map[];
      for x := 0 to width
        invariant forall c :: c in g <==> 0 <= c.0 < x && 0 <= c.1 < width
        invariant forall c :: c in g ==> g[c] == 0
      {
        for y := 0 to width
          invariant forall c :: c in g <==> (0 <= c.0 < x && 0 <= c.1 < width) || (c.0 == x && 0 <= c.1 < y)
          invariant forall c :: c in g ==> g[c] == 0
        {
          g := g[(x, y) := 0];
        }
      }
      this.width := width;
      this.startingBlocks := startingBlocks;
      this.startingValue := startingValue;
      grid := g;
      score := 0;
      AllEmpty(g, Keys(width));
    }

    /** assign: set one cell, leaving every other one alone. */
    method Assign(xy: Cell, value: int)
      modifies this
      ensures grid == old(grid)[xy := value] && score == old(score)
    {
      grid := grid[xy := value];
    }

    /** populate: put `startingValue` on one empty cell. The random `choice`
        is the caller's `pick`, taken modulo the number of empty cells; an
        empty list of cells is an error for `choice`, so the board must have
        an empty cell. */
    method Populate(pick: nat)
      requires Valid() && EmptySpaces(grid, width) != []
      modifies this
      ensures Valid() && score == old(score)
      ensures var empties := EmptySpaces(old(grid), width);
        grid == old(grid)[empties[pick % |empties|] := startingValue]
      ensures startingValue != 0 ==>
        |OccupiedSpaces(grid, width)| == |OccupiedSpaces(old(grid), width)| + 1 &&
        |EmptySpaces(grid, width)| == |EmptySpaces(old(grid), width)| - 1
    {
      var empties := EmptySpaces(grid, width);
      var xy := empties[pick % |empties|];
      assert xy in empties;
      OccupiedUpdate(grid, Keys(width), xy, startingValue);
      Partition(grid, Keys(width));
      Partition(grid[xy := startingValue], Keys(width));
      Assign(xy, startingValue);
    }

    /** The `starting_blocks` calls of populate at the start of `main`. */
    method Start(picks: seq<nat>)
      requires Valid() && |picks| == startingBlocks
      requires startingBlocks <= |EmptySpaces(grid, width)|
      modifies this
      ensures Valid() && score == old(score)
      ensures startingValue != 0 ==>
        |OccupiedSpaces(grid, width)| == |OccupiedSpaces(old(grid), width)| + startingBlocks &&
        |EmptySpaces(grid, width)| == |EmptySpaces(old(grid), width)| - startingBlocks
      ensures startingValue == 0 ==> grid == old(grid)
    {
      for i := 0 to startingBlocks
        invariant Valid() && score == old(score)
        invariant startingValue != 0 ==>
          |OccupiedSpaces(grid, width)| == |OccupiedSpaces(old(grid), width)| + i &&
          |EmptySpaces(grid, width)| == |EmptySpaces(old(grid), width)| - i
        invariant startingValue == 0 ==> grid == old(grid)
      {
        Populate(picks[i]);
      }
    }

    /** One pass of the inner loop of a move, for the tile at xy: it merges
        into the first occupied cell of its ray when the values are equal,
        stops just behind that cell when they differ, and slides to the end of
        the ray when the ray is clear. The vector `direction` is the one the
        letter decoded to; d names it for the specification. */
    method MoveTile(xy: Cell, direction: (int, int), ghost d: Direction)
      requires Complete(grid, width) && InBounds(xy, width) && direction == Vector(d)
      modifies this
      ensures grid == Engine.Step(old(grid), xy, d, width).grid
      ensures score == old(score) + Engine.Step(old(grid), xy, d, width).gained
    {
      var nextSpaces := GetNextSpaces(xy, direction, d, width);
      if |nextSpaces| == 0 {
        return;
      }
      var nextOccupied := Occupied(grid, nextSpaces);
      var currentValue := grid[xy];
      if |nextOccupied| > 0 {
        var first := nextOccupied[0];
        OccupiedMembers(grid, nextSpaces);
        assert first in nextOccupied;
        if grid[first] == currentValue {
          grid := grid[xy := 0][first := currentValue * 2];
          score := score + currentValue * 2;
          return;
        }
        var newXy := (first.0 - direction.0, first.1 - direction.1);
        grid := grid[xy := 0][newXy := currentValue];
        return;
      }
      grid := grid[xy := 0][nextSpaces[|nextSpaces| - 1] := currentValue];
    }

    /** The loop over the occupied cells of a move: one MoveTile each, in
        order. */
    method MoveTiles(occupied: seq<Cell>, direction: (int, int), ghost d: Direction)
      requires Complete(grid, width) && direction == Vector(d)
      requires forall i :: 0 <= i < |occupied| ==> InBounds(occupied[i], width)
      modifies this
      ensures grid == Engine.Resolve(old(grid), occupied, d, width).grid
      ensures score == old(score) + Engine.Resolve(old(grid), occupied, d, width).gained
    {
      for i := 0 to |occupied|
        invariant grid == Engine.Resolve(old(grid), occupied[..i], d, width).grid
        invariant score == old(score) + Engine.Resolve(old(grid), occupied[..i], d, width).gained
      {
        Engine.ResolvePrefix(old(grid), occupied, i, d, width);
        MoveTile(occupied[i], direction, d);
      }
      assert occupied[..|occupied|] == occupied;
    }

    /** The body of the loop of `main` once a letter has been decoded into
        `data` (the vector and preference of d): build the traversal order
        from the preference, take the occupied cells of it before anything
        moves, and process each tile along the vector against the grid as it
        stands. */
    method ApplyMove(ghost d: Direction, data: DirectionData)
      requires Valid() && data == DirectionData(Vector(d), PreferenceOf(d, width))
      modifies this
      ensures Valid()
      ensures grid == Engine.Move(old(grid), d, width).grid
      ensures score == old(score) + Engine.Move(old(grid), d, width).gained
    {
      var total := Traversal.BuildOrder(data.preference, d, width);
      var occupied := Occupied(grid, total);
      Engine.MoveIsResolve(grid, d, width);
      Engine.MoveConserves(grid, d, width);
      MoveTiles(occupied, data.vector, d);
    }

    /** One pass of the loop of `main` with input `letter`: a letter that is
        not a direction changes nothing; otherwise the move is applied and a
        new tile is placed. A move never fills the board, so the populate that
        follows it always finds an empty cell. */
    method Turn(letter: string, pick: nat)
      requires Valid() && EmptySpaces(grid, width) != []
      modifies this
      ensures Valid() && score >= old(score)
      ensures LetterToDirection(letter, width).None? ==> grid == old(grid) && score == old(score)
      ensures forall d :: Decode(letter) == Some(d) ==>
        var moved := Engine.Move(old(grid), d, width);
        var empties := EmptySpaces(moved.grid, width);
        empties != [] &&
        grid == moved.grid[empties[pick % |empties|] := startingValue] &&
        score == old(score) + moved.gained
    {
      var directionData := LetterToDirection(letter, width);
      if directionData.None? {
        return;
      }
      ghost var d := Decode(letter).value;
      Engine.MoveKeepsEmptyCell(grid, d, width);
      Engine.MoveConserves(grid, d, width);
      ApplyMove(d, directionData.value);
      Populate(pick);
    }

    /** The loop of `main`: it runs while the board has an empty cell, one
        line of input per pass. It returns how many lines it read: all of
        them, or fewer only when the board is full. */
    method Play(inputs: seq<string>, picks: seq<nat>) returns (consumed: nat)
      requires Valid() && |picks| == |inputs|
      modifies this
      ensures Valid() && score >= old(score)
      ensures consumed <= |inputs|
      ensures consumed < |inputs| ==> EmptySpaces(grid, width) == []
    {
      consumed := 0;
      while |EmptySpaces(grid, width)| > 0 && consumed < |inputs|
        invariant Valid() && score >= old(score)
        invariant consumed <= |inputs|
        decreases |inputs| - consumed
      {
        Turn(inputs[consumed], picks[consumed]);
        consumed := consumed + 1;
      }
    }
  }
}
