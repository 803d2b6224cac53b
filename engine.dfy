/** The move engine: the tiles occupied when the move starts are processed
    one at a time, in traversal order, each against the grid as the tiles
    before it left it. */
module Engine {
  import opened Directions
  import opened Board
  import Traversal
  import Lines

  /** The grid after some tiles have been processed, the score they earned,
      and the value V of the two tiles of each merge, one entry per merge. */
  datatype Outcome = Outcome(grid: Grid, gained: int, merged: seq<int>)

  function Total(vs: seq<int>): int {
    if vs == [] then 0 else vs[0] + Total(vs[1..])
  }

  lemma {:induction false} TotalConcat(a: seq<int>, b: seq<int>)
    ensures Total(a + b) == Total(a) + Total(b)
  {
    if a == [] {
      assert a + b == b;
    } else {
      assert (a + b)[1..] == a[1..] + b;
      TotalConcat(a[1..], b);
    }
  }

  /** The cell one step back from `first`, against the direction of motion. */
  function Behind(first: Cell, d: Direction): Cell {
    var direction := Vector(d);
    (first.0 - direction.0, first.1 - direction.1)
  }

  /** One iteration of the move loop, for the tile at xy. */
  function Step(g: Grid, xy: Cell, d: Direction, width: int): (r: Outcome)
    requires Complete(g, width) && InBounds(xy, width)
    ensures Complete(r.grid, width)
  {
    var nextSpaces := NextSpaces(xy, d, width);
    if |nextSpaces| == 0 then Outcome(g, 0, [])
    else
      var nextOccupied := Occupied(g, nextSpaces);
      OccupiedMembers(g, nextSpaces);
      var currentValue := g[xy];
      if |nextOccupied| > 0 then
        var first := nextOccupied[0];
        assert first in nextOccupied;
        if g[first] == currentValue then
          Outcome(g[xy := 0][first := currentValue * 2], currentValue * 2, [currentValue])
        else
          Outcome(g[xy := 0][Behind(first, d) := currentValue], 0, [])
      else
        Outcome(g[xy := 0][nextSpaces[|nextSpaces| - 1] := currentValue], 0, [])
  }

  /** The loop over cells, one Step each, in order. */
  function Resolve(g: Grid, cells: seq<Cell>, d: Direction, width: int): (r: Outcome)
    requires Complete(g, width)
    requires forall i :: 0 <= i < |cells| ==> InBounds(cells[i], width)
    ensures Complete(r.grid, width)
  {
    if cells == [] then Outcome(g, 0, [])
    else
      var prev := Resolve(g, cells[..|cells| - 1], d, width);
      var last := Step(prev.grid, cells[|cells| - 1], d, width);
      Outcome(last.grid, prev.gained + last.gained, prev.merged + last.merged)
  }

  /** Resolving one more cell of a list is one more Step. */
  lemma ResolvePrefix(g: Grid, cells: seq<Cell>, i: nat, d: Direction, width: int)
    requires Complete(g, width) && i < |cells|
    requires forall k :: 0 <= k < |cells| ==> InBounds(cells[k], width)
    ensures Resolve(g, cells[..i + 1], d, width).grid == Step(Resolve(g, cells[..i], d, width).grid, cells[i], d, width).grid
    ensures Resolve(g, cells[..i + 1], d, width).gained ==
      Resolve(g, cells[..i], d, width).gained + Step(Resolve(g, cells[..i], d, width).grid, cells[i], d, width).gained
  {
    assert cells[..i + 1][..i] == cells[..i];
  }

  /** A whole move: the occupied cells of the traversal order, taken before
      any tile moves, resolved one after another. */
  function Move(g: Grid, d: Direction, width: nat): (r: Outcome)
    requires Complete(g, width)
    ensures Complete(r.grid, width)
  {
    Traversal.OrderIsPermutation(d, width);
    var occupied := Occupied(g, Traversal.Order(d, width));
    OccupiedMembers(g, Traversal.Order(d, width));
    assert forall i :: 0 <= i < |occupied| ==> occupied[i] in occupied;
    Resolve(g, occupied, d, width)
  }

  /** When the ray holds a tile, the first one sits at index k, every cell
      before it is empty, and the cell behind it is xy itself or the ray cell
      before it. */
  lemma FirstObstacle(g: Grid, xy: Cell, d: Direction, width: int) returns (k: nat)
    requires Complete(g, width) && InBounds(xy, width)
    requires Occupied(g, NextSpaces(xy, d, width)) != []
    ensures k < |NextSpaces(xy, d, width)|
    ensures NextSpaces(xy, d, width)[k] == Occupied(g, NextSpaces(xy, d, width))[0]
    ensures forall i :: 0 <= i < k ==> IsEmpty(g, NextSpaces(xy, d, width)[i])
    ensures Behind(NextSpaces(xy, d, width)[k], d) == if k == 0 then xy else NextSpaces(xy, d, width)[k - 1]
  {
    k := FirstOccupied(g, NextSpaces(xy, d, width));
  }

  /** The cell a Step writes the moving value to: xy itself or an empty cell
      of the ray; for a merge, the first tile of the ray. */
  lemma StepTarget(g: Grid, xy: Cell, d: Direction, width: int) returns (target: Cell)
    requires Complete(g, width) && InBounds(xy, width)
    requires |NextSpaces(xy, d, width)| > 0
    ensures InBounds(target, width) && (target == xy || target in NextSpaces(xy, d, width))
    ensures Step(g, xy, d, width).grid == g[xy := 0][target := Step(g, xy, d, width).grid[target]]
    ensures Step(g, xy, d, width).merged == [] ==>
      Step(g, xy, d, width).grid[target] == g[xy] && Step(g, xy, d, width).gained == 0 &&
      (target == xy || g[target] == 0)
    ensures Step(g, xy, d, width).merged != [] ==>
      target != xy && Step(g, xy, d, width).merged == [g[xy]] && g[target] == g[xy] && g[target] != 0 &&
      Step(g, xy, d, width).grid[target] == 2 * g[xy] && Step(g, xy, d, width).gained == 2 * g[xy]
  {
    var ns := NextSpaces(xy, d, width);
    var occ := Occupied(g, ns);
    OccupiedMembers(g, ns);
    if occ != [] {
      var k := FirstObstacle(g, xy, d, width);
      if g[ns[k]] == g[xy] {
        target := ns[k];
      } else {
        target := Behind(ns[k], d);
      }
    } else {
      target := ns[|ns| - 1];
      assert ns[|ns| - 1] in ns;
    }
  }

  /** A Step keeps the keys of the grid and never makes a value negative. */
  lemma StepShape(g: Grid, xy: Cell, d: Direction, width: int)
    requires WellFormed(g, width) && InBounds(xy, width)
    ensures WellFormed(Step(g, xy, d, width).grid, width)
    ensures Step(g, xy, d, width).gained >= 0
    ensures forall i :: 0 <= i < |Step(g, xy, d, width).merged| ==> Step(g, xy, d, width).merged[i] > 0
  {
    if |NextSpaces(xy, d, width)| > 0 {
      var target := StepTarget(g, xy, d, width);
    }
  }

  /** A Step changes only xy and the cells beyond it toward the edge, all in
      the moving tile's own line. */
  lemma StepIsLocal(g: Grid, xy: Cell, d: Direction, width: int)
    requires Complete(g, width) && InBounds(xy, width)
    ensures forall c :: c in g && c != xy && c !in NextSpaces(xy, d, width) ==>
      c in Step(g, xy, d, width).grid && Step(g, xy, d, width).grid[c] == g[c]
    ensures forall c :: c in g && Step(g, xy, d, width).grid[c] != g[c] ==>
      LineOf(d, c) == LineOf(d, xy) && Depth(d, width, c) <= Depth(d, width, xy)
  {
    if |NextSpaces(xy, d, width)| > 0 {
      var target := StepTarget(g, xy, d, width);
    }
  }

  /** A tile is never overwritten, except the first tile of the ray when it
      has the moving tile's value: that one doubles. */
  lemma StepNeverOverwrites(g: Grid, xy: Cell, d: Direction, width: int)
    requires Complete(g, width) && InBounds(xy, width)
    ensures forall c :: c in g && c != xy && Step(g, xy, d, width).grid[c] != g[c] ==>
      g[c] == 0 ||
      (g[c] == g[xy] && Step(g, xy, d, width).grid[c] == 2 * g[c] && Step(g, xy, d, width).merged == [g[c]])
  {
    if |NextSpaces(xy, d, width)| > 0 {
      var target := StepTarget(g, xy, d, width);
    }
  }

  /** A tile on the destination edge stays as it is. */
  lemma StepOnEdge(g: Grid, xy: Cell, d: Direction, width: int)
    requires Complete(g, width) && InBounds(xy, width)
    requires Depth(d, width, xy) == 0
    ensures Step(g, xy, d, width) == Outcome(g, 0, [])
  {
  }

  /** A tile right behind a tile of a different value stays as it is. */
  lemma StepBlocked(g: Grid, xy: Cell, d: Direction, width: int)
    requires Complete(g, width) && InBounds(xy, width)
    requires Depth(d, width, xy) > 0
    requires IsOccupied(g, Shift(xy, d, 1)) && g[Shift(xy, d, 1)] != g[xy]
    ensures Step(g, xy, d, width) == Outcome(g, 0, [])
  {
    var ns := NextSpaces(xy, d, width);
    assert ns[0] == Shift(xy, d, 1);
    assert Occupied(g, ns)[0] == ns[0];
    assert g[xy := 0][xy := g[xy]] == g;
  }

  /** A Step keeps the sum of all tiles, loses one occupied cell per merge,
      and earns twice the merged value. */
  lemma StepConserves(g: Grid, xy: Cell, d: Direction, width: nat)
    requires WellFormed(g, width) && InBounds(xy, width)
    ensures TileSum(Step(g, xy, d, width).grid, Keys(width)) == TileSum(g, Keys(width))
    ensures |OccupiedSpaces(Step(g, xy, d, width).grid, width)| == |OccupiedSpaces(g, width)| - |Step(g, xy, d, width).merged|
    ensures Step(g, xy, d, width).gained == 2 * Total(Step(g, xy, d, width).merged)
  {
    var r := Step(g, xy, d, width);
    var keys := Keys(width);
    if |NextSpaces(xy, d, width)| > 0 {
      var target := StepTarget(g, xy, d, width);
      var g1 := g[xy := 0];
      TileSumUpdate(g, keys, xy, 0);
      TileSumUpdate(g1, keys, target, r.grid[target]);
      OccupiedUpdate(g, keys, xy, 0);
      OccupiedUpdate(g1, keys, target, r.grid[target]);
      if r.merged != [] {
        assert Total(r.merged) == g[xy];
      }
    }
  }

  lemma {:induction false} ResolveConserves(g: Grid, cells: seq<Cell>, d: Direction, width: nat)
    requires WellFormed(g, width)
    requires forall i :: 0 <= i < |cells| ==> InBounds(cells[i], width)
    ensures WellFormed(Resolve(g, cells, d, width).grid, width)
    ensures TileSum(Resolve(g, cells, d, width).grid, Keys(width)) == TileSum(g, Keys(width))
    ensures |OccupiedSpaces(Resolve(g, cells, d, width).grid, width)| ==
      |OccupiedSpaces(g, width)| - |Resolve(g, cells, d, width).merged|
    ensures Resolve(g, cells, d, width).gained == 2 * Total(Resolve(g, cells, d, width).merged)
    ensures forall i :: 0 <= i < |Resolve(g, cells, d, width).merged| ==> Resolve(g, cells, d, width).merged[i] > 0
  {
    if cells != [] {
      var front := cells[..|cells| - 1];
      var xy := cells[|cells| - 1];
      ResolveConserves(g, front, d, width);
      var prev := Resolve(g, front, d, width);
      StepShape(prev.grid, xy, d, width);
      StepConserves(prev.grid, xy, d, width);
      TotalConcat(prev.merged, Step(prev.grid, xy, d, width).merged);
    }
  }

  lemma {:induction false} TotalPositive(vs: seq<int>)
    requires forall i :: 0 <= i < |vs| ==> vs[i] > 0
    ensures Total(vs) >= |vs|
  {
    if vs != [] {
      TotalPositive(vs[1..]);
    }
  }

  /** A move resolves the snapshot of occupied cells, all on the board. */
  lemma MoveIsResolve(g: Grid, d: Direction, width: nat)
    requires Complete(g, width)
    ensures var occupied := Occupied(g, Traversal.Order(d, width));
      (forall i :: 0 <= i < |occupied| ==> InBounds(occupied[i], width)) &&
      Move(g, d, width) == Resolve(g, occupied, d, width)
  {
    Traversal.OrderIsPermutation(d, width);
    var occupied := Occupied(g, Traversal.Order(d, width));
    OccupiedMembers(g, Traversal.Order(d, width));
    assert forall i :: 0 <= i < |occupied| ==> occupied[i] in occupied;
  }

  /** The snapshot a move processes: every occupied cell of the board once,
      the cells nearer the destination edge first. */
  lemma SnapshotContents(g: Grid, d: Direction, width: nat)
    requires Complete(g, width)
    ensures var occupied := Occupied(g, Traversal.Order(d, width));
      (forall c :: c in occupied <==> InBounds(c, width) && g[c] != 0) &&
      Traversal.Distinct(occupied) && DepthSorted(occupied, d, width)
  {
    var order := Traversal.Order(d, width);
    Traversal.OrderIsPermutation(d, width);
    Traversal.OrderNearestFirst(d, width);
    OccupiedMembers(g, order);
    OccupiedDistinct(g, order);
    OccupiedDepthSorted(g, order, d, width);
  }

  /** A move keeps the board's shape and the sum of its tiles, earns twice
      the value of every merge, and frees one cell per merge. */
  lemma MoveConserves(g: Grid, d: Direction, width: nat)
    requires WellFormed(g, width)
    ensures WellFormed(Move(g, d, width).grid, width)
    ensures TileSum(Move(g, d, width).grid, Keys(width)) == TileSum(g, Keys(width))
    ensures |OccupiedSpaces(Move(g, d, width).grid, width)| ==
      |OccupiedSpaces(g, width)| - |Move(g, d, width).merged|
    ensures Move(g, d, width).gained == 2 * Total(Move(g, d, width).merged) >= 2 * |Move(g, d, width).merged|
  {
    Traversal.OrderIsPermutation(d, width);
    var occupied := Occupied(g, Traversal.Order(d, width));
    OccupiedMembers(g, Traversal.Order(d, width));
    assert forall i :: 0 <= i < |occupied| ==> occupied[i] in occupied;
    ResolveConserves(g, occupied, d, width);
    TotalPositive(Move(g, d, width).merged);
  }

  /** A move never fills a board: it frees as many cells as it merges. */
  lemma MoveKeepsEmptyCell(g: Grid, d: Direction, width: nat)
    requires WellFormed(g, width) && EmptySpaces(g, width) != []
    ensures EmptySpaces(Move(g, d, width).grid, width) != []
  {
    MoveConserves(g, d, width);
    Partition(g, Keys(width));
    Partition(Move(g, d, width).grid, Keys(width));
  }

  /** The values of line j, listed from the destination edge outward. */
  function LineView(g: Grid, d: Direction, width: int, j: int): (s: seq<int>)
    requires Complete(g, width) && 0 <= j < width
    ensures |s| == width
    ensures forall p :: 0 <= p < width ==> s[p] == g[Pos(d, width, j, p)]
  {
    seq(width, p requires 0 <= p < width => g[Pos(d, width, j, p)])
  }

  /** The depths of the cells of cells that lie in line j, in their order. */
  function Project(cells: seq<Cell>, d: Direction, width: int, j: int): (ps: seq<nat>)
    ensures forall i :: 0 <= i < |ps| ==> ps[i] < width
  {
    if cells == [] then []
    else
      (if InBounds(cells[0], width) && LineOf(d, cells[0]) == j then [Depth(d, width, cells[0]) as nat] else []) +
      Project(cells[1..], d, width, j)
  }

  lemma {:induction false} ProjectConcat(a: seq<Cell>, b: seq<Cell>, d: Direction, width: int, j: int)
    ensures Project(a + b, d, width, j) == Project(a, d, width, j) + Project(b, d, width, j)
  {
    if a == [] {
      assert a + b == b;
    } else {
      assert (a + b)[1..] == a[1..] + b;
      ProjectConcat(a[1..], b, d, width, j);
    }
  }

  /** Writing two cells of line j writes the same two depths of its view. */
  lemma ViewUpdate(g: Grid, d: Direction, width: int, j: int, pa: int, va: int, pb: int, vb: int)
    requires Complete(g, width) && 0 <= j < width && 0 <= pa < width && 0 <= pb < width
    ensures LineView(g[Pos(d, width, j, pa) := va][Pos(d, width, j, pb) := vb], d, width, j) ==
      LineView(g, d, width, j)[pa := va][pb := vb]
  {
  }

  /** The ray of the tile at depth p of line j lists depths p - 1 down to 0. */
  lemma RayInLine(xy: Cell, d: Direction, width: int)
    requires InBounds(xy, width)
    ensures forall i :: 0 <= i < Depth(d, width, xy) ==>
      NextSpaces(xy, d, width)[Depth(d, width, xy) - 1 - i] == Pos(d, width, LineOf(d, xy), i)
  {
    CellIsPos(d, width, xy);
    NextSpacesInLine(d, width, LineOf(d, xy), Depth(d, width, xy));
  }

  /** Seen from line j, the first tile of the ray sits at depth q, and the
      cells between it and the moving tile are empty. */
  lemma RayObstacleInLine(g: Grid, xy: Cell, d: Direction, width: int) returns (q: nat)
    requires Complete(g, width) && InBounds(xy, width)
    requires Occupied(g, NextSpaces(xy, d, width)) != []
    ensures q < Depth(d, width, xy)
    ensures Occupied(g, NextSpaces(xy, d, width))[0] == Pos(d, width, LineOf(d, xy), q)
    ensures Behind(Occupied(g, NextSpaces(xy, d, width))[0], d) == Pos(d, width, LineOf(d, xy), q + 1)
    ensures forall i :: q < i < Depth(d, width, xy) ==> g[Pos(d, width, LineOf(d, xy), i)] == 0
    ensures g[Pos(d, width, LineOf(d, xy), q)] != 0
  {
    var j, p := LineOf(d, xy), Depth(d, width, xy);
    var ns := NextSpaces(xy, d, width);
    assert IsOccupied(g, Occupied(g, ns)[0]) by {
      OccupiedMembers(g, ns);
      assert Occupied(g, ns)[0] in Occupied(g, ns);
    }
    var k := FirstObstacle(g, xy, d, width);
    q := p - 1 - k;
    RayInLine(xy, d, width);
    CellIsPos(d, width, xy);
    forall i | q < i < p ensures g[Pos(d, width, j, i)] == 0 {
      assert ns[p - 1 - i] == Pos(d, width, j, i);
    }
  }

  /** When the ray of the tile at depth p holds a tile, the first one is at
      the nearest occupied depth of the line model, and the cell behind it is
      one depth further. */
  lemma RayMeetsNearest(g: Grid, xy: Cell, d: Direction, width: int)
    requires Complete(g, width) && InBounds(xy, width)
    requires Occupied(g, NextSpaces(xy, d, width)) != []
    ensures Lines.Nearest(LineView(g, d, width, LineOf(d, xy)), Depth(d, width, xy) as nat).Some?
    ensures var q := Lines.Nearest(LineView(g, d, width, LineOf(d, xy)), Depth(d, width, xy) as nat).value;
      Occupied(g, NextSpaces(xy, d, width))[0] == Pos(d, width, LineOf(d, xy), q) &&
      Behind(Occupied(g, NextSpaces(xy, d, width))[0], d) == Pos(d, width, LineOf(d, xy), q + 1)
  {
    var j, p := LineOf(d, xy), Depth(d, width, xy) as nat;
    var s := LineView(g, d, width, j);
    var q := RayObstacleInLine(g, xy, d, width);
    Lines.NearestIs(s, p, q);
  }

  /** When the ray is free, no cell in front of the tile is occupied. */
  lemma RayFree(g: Grid, xy: Cell, d: Direction, width: int)
    requires Complete(g, width) && InBounds(xy, width)
    requires Occupied(g, NextSpaces(xy, d, width)) == []
    ensures Lines.Nearest(LineView(g, d, width, LineOf(d, xy)), Depth(d, width, xy) as nat).None?
  {
    var j, p := LineOf(d, xy), Depth(d, width, xy) as nat;
    var s := LineView(g, d, width, j);
    var ns := NextSpaces(xy, d, width);
    RayInLine(xy, d, width);
    OccupiedMembers(g, ns);
    forall i | 0 <= i < p ensures s[i] == 0 {
      assert ns[p - 1 - i] == Pos(d, width, j, i);
      assert ns[p - 1 - i] !in Occupied(g, ns);
    }
  }

  /** A tile with a clear ray slides to the edge, in the grid as in the line
      model. */
  lemma StepToEdgeInLine(g: Grid, xy: Cell, d: Direction, width: int)
    requires Complete(g, width) && InBounds(xy, width) && Depth(d, width, xy) > 0
    requires Occupied(g, NextSpaces(xy, d, width)) == []
    ensures LineView(Step(g, xy, d, width).grid, d, width, LineOf(d, xy)) ==
      Lines.LineStep(LineView(g, d, width, LineOf(d, xy)), Depth(d, width, xy) as nat).line
    ensures Step(g, xy, d, width).gained ==
      Lines.LineStep(LineView(g, d, width, LineOf(d, xy)), Depth(d, width, xy) as nat).gained
  {
    var j, p := LineOf(d, xy), Depth(d, width, xy) as nat;
    var s := LineView(g, d, width, j);
    var ns := NextSpaces(xy, d, width);
    assert xy == Pos(d, width, j, p) by {
      CellIsPos(d, width, xy);
    }
    assert ns[|ns| - 1] == Pos(d, width, j, 0) by {
      RayInLine(xy, d, width);
    }
    RayFree(g, xy, d, width);
    assert Lines.LineStep(s, p) == Lines.Slide(s[p := 0][0 := s[p]], 0);
    assert Step(g, xy, d, width) == Outcome(g[xy := 0][Pos(d, width, j, 0) := s[p]], 0, []);
    ViewUpdate(g, d, width, j, p, 0, 0, s[p]);
  }

  /** A tile whose ray holds a tile writes twice its value over the first
      tile of the ray when the values are equal, and its value just behind
      that tile otherwise. */
  lemma StepMeetsTile(g: Grid, xy: Cell, d: Direction, width: int)
    requires Complete(g, width) && InBounds(xy, width)
    requires Occupied(g, NextSpaces(xy, d, width)) != []
    ensures var first := Occupied(g, NextSpaces(xy, d, width))[0];
      first in g &&
      Step(g, xy, d, width) ==
        if g[first] == g[xy] then Outcome(g[xy := 0][first := g[xy] * 2], g[xy] * 2, [g[xy]])
        else Outcome(g[xy := 0][Behind(first, d) := g[xy]], 0, [])
  {
    OccupiedMembers(g, NextSpaces(xy, d, width));
    assert Occupied(g, NextSpaces(xy, d, width))[0] in Occupied(g, NextSpaces(xy, d, width));
  }

  /** The grid after a tile meets the tile at depth q of its line. */
  lemma MeetGrid(g: Grid, xy: Cell, d: Direction, width: int, q: nat)
    requires Complete(g, width) && InBounds(xy, width)
    requires Occupied(g, NextSpaces(xy, d, width)) != []
    requires q < Depth(d, width, xy) && Occupied(g, NextSpaces(xy, d, width))[0] == Pos(d, width, LineOf(d, xy), q)
    requires Behind(Occupied(g, NextSpaces(xy, d, width))[0], d) == Pos(d, width, LineOf(d, xy), q + 1)
    ensures var j, p := LineOf(d, xy), Depth(d, width, xy);
      Step(g, xy, d, width) ==
        if g[Pos(d, width, j, q)] == g[Pos(d, width, j, p)] then
          Outcome(g[Pos(d, width, j, p) := 0][Pos(d, width, j, q) := 2 * g[Pos(d, width, j, p)]], 2 * g[Pos(d, width, j, p)], [g[Pos(d, width, j, p)]])
        else Outcome(g[Pos(d, width, j, p) := 0][Pos(d, width, j, q + 1) := g[Pos(d, width, j, p)]], 0, [])
  {
    CellIsPos(d, width, xy);
    StepMeetsTile(g, xy, d, width);
  }

  /** A tile whose ray starts with a tile of the same value merges into it,
      in the grid as in the line model. */
  lemma MergeInLine(g: Grid, xy: Cell, d: Direction, width: int, q: nat)
    requires Complete(g, width) && InBounds(xy, width)
    requires Occupied(g, NextSpaces(xy, d, width)) != []
    requires var s := LineView(g, d, width, LineOf(d, xy));
      Lines.Nearest(s, Depth(d, width, xy) as nat) == Some(q) && s[q] == s[Depth(d, width, xy)]
    ensures LineView(Step(g, xy, d, width).grid, d, width, LineOf(d, xy)) ==
      Lines.LineStep(LineView(g, d, width, LineOf(d, xy)), Depth(d, width, xy) as nat).line
    ensures Step(g, xy, d, width).gained ==
      Lines.LineStep(LineView(g, d, width, LineOf(d, xy)), Depth(d, width, xy) as nat).gained
  {
    var j, p := LineOf(d, xy), Depth(d, width, xy) as nat;
    var s := LineView(g, d, width, j);
    RayMeetsNearest(g, xy, d, width);
    assert Step(g, xy, d, width) == Outcome(g[Pos(d, width, j, p) := 0][Pos(d, width, j, q) := 2 * s[p]], 2 * s[p], [s[p]]) by {
      assert q < p && s[p] == g[Pos(d, width, j, p)] && s[q] == g[Pos(d, width, j, q)];
      MeetGrid(g, xy, d, width, q);
    }
    assert Lines.LineStep(s, p) == Lines.Slide(s[p := 0][q := 2 * s[p]], 2 * s[p]) by {
      Lines.LineStepMeets(s, p, q);
    }
    ViewUpdate(g, d, width, j, p, 0, q, 2 * s[p]);
  }

  /** A tile whose ray starts with a tile of another value stops right behind
      it, in the grid as in the line model. */
  lemma StopInLine(g: Grid, xy: Cell, d: Direction, width: int, q: nat)
    requires Complete(g, width) && InBounds(xy, width)
    requires Occupied(g, NextSpaces(xy, d, width)) != []
    requires var s := LineView(g, d, width, LineOf(d, xy));
      Lines.Nearest(s, Depth(d, width, xy) as nat) == Some(q) && s[q] != s[Depth(d, width, xy)]
    ensures LineView(Step(g, xy, d, width).grid, d, width, LineOf(d, xy)) ==
      Lines.LineStep(LineView(g, d, width, LineOf(d, xy)), Depth(d, width, xy) as nat).line
    ensures Step(g, xy, d, width).gained ==
      Lines.LineStep(LineView(g, d, width, LineOf(d, xy)), Depth(d, width, xy) as nat).gained
  {
    var j, p := LineOf(d, xy), Depth(d, width, xy) as nat;
    var s := LineView(g, d, width, j);
    RayMeetsNearest(g, xy, d, width);
    assert Step(g, xy, d, width) == Outcome(g[Pos(d, width, j, p) := 0][Pos(d, width, j, q + 1) := s[p]], 0, []) by {
      assert q < p && s[p] == g[Pos(d, width, j, p)] && s[q] == g[Pos(d, width, j, q)];
      MeetGrid(g, xy, d, width, q);
    }
    assert Lines.LineStep(s, p) == Lines.Slide(s[p := 0][q + 1 := s[p]], 0) by {
      Lines.LineStepMeets(s, p, q);
    }
    ViewUpdate(g, d, width, j, p, 0, q + 1, s[p]);
  }

  /** A tile whose ray holds a tile merges with it or stops behind it, in the
      grid as in the line model. */
  lemma StepToTileInLine(g: Grid, xy: Cell, d: Direction, width: int)
    requires Complete(g, width) && InBounds(xy, width)
    requires Occupied(g, NextSpaces(xy, d, width)) != []
    ensures LineView(Step(g, xy, d, width).grid, d, width, LineOf(d, xy)) ==
      Lines.LineStep(LineView(g, d, width, LineOf(d, xy)), Depth(d, width, xy) as nat).line
    ensures Step(g, xy, d, width).gained ==
      Lines.LineStep(LineView(g, d, width, LineOf(d, xy)), Depth(d, width, xy) as nat).gained
  {
    var s := LineView(g, d, width, LineOf(d, xy));
    RayMeetsNearest(g, xy, d, width);
    var q := Lines.Nearest(s, Depth(d, width, xy) as nat).value;
    if s[q] == s[Depth(d, width, xy)] {
      MergeInLine(g, xy, d, width, q);
    } else {
      StopInLine(g, xy, d, width, q);
    }
  }

  lemma StepInLine(g: Grid, xy: Cell, d: Direction, width: int)
    requires Complete(g, width) && InBounds(xy, width)
    ensures LineView(Step(g, xy, d, width).grid, d, width, LineOf(d, xy)) ==
      Lines.LineStep(LineView(g, d, width, LineOf(d, xy)), Depth(d, width, xy) as nat).line
    ensures Step(g, xy, d, width).gained ==
      Lines.LineStep(LineView(g, d, width, LineOf(d, xy)), Depth(d, width, xy) as nat).gained
  {
    if Depth(d, width, xy) == 0 {
      assert Step(g, xy, d, width) == Outcome(g, 0, []);
    } else if Occupied(g, NextSpaces(xy, d, width)) == [] {
      StepToEdgeInLine(g, xy, d, width);
    } else {
      StepToTileInLine(g, xy, d, width);
    }
  }

  /** A Step leaves every other line alone. */
  lemma StepOffLine(g: Grid, xy: Cell, d: Direction, width: int, j: int)
    requires Complete(g, width) && InBounds(xy, width) && 0 <= j < width && LineOf(d, xy) != j
    ensures LineView(Step(g, xy, d, width).grid, d, width, j) == LineView(g, d, width, j)
  {
    StepIsLocal(g, xy, d, width);
    var r := Step(g, xy, d, width);
    forall p | 0 <= p < width ensures r.grid[Pos(d, width, j, p)] == g[Pos(d, width, j, p)] {
    }
  }

  /** Seen from any line, a Step is the line model's step on the moving tile's
      line and changes nothing on the others. */
  lemma StepOnLine(g: Grid, xy: Cell, d: Direction, width: int, j: int)
    requires Complete(g, width) && InBounds(xy, width) && 0 <= j < width
    ensures LineView(Step(g, xy, d, width).grid, d, width, j) ==
      if LineOf(d, xy) == j then Lines.LineStep(LineView(g, d, width, j), Depth(d, width, xy) as nat).line
      else LineView(g, d, width, j)
    ensures LineOf(d, xy) == j ==>
      Step(g, xy, d, width).gained == Lines.LineStep(LineView(g, d, width, j), Depth(d, width, xy) as nat).gained
  {
    if LineOf(d, xy) == j {
      StepInLine(g, xy, d, width);
    } else {
      StepOffLine(g, xy, d, width, j);
    }
  }

  /** Seen from one line, resolving a list of cells is the line model's fold
      over the depths of the cells that lie in that line. */
  lemma {:induction false} ResolveOnLine(g: Grid, cells: seq<Cell>, d: Direction, width: int, j: int)
    requires Complete(g, width) && 0 <= j < width
    requires forall i :: 0 <= i < |cells| ==> InBounds(cells[i], width)
    ensures LineView(Resolve(g, cells, d, width).grid, d, width, j) ==
      Lines.LineFold(LineView(g, d, width, j), Project(cells, d, width, j)).line
  {
    if cells != [] {
      var front, c := cells[..|cells| - 1], cells[|cells| - 1];
      assert cells == front + [c];
      ResolveOnLine(g, front, d, width, j);
      var prev := Resolve(g, front, d, width);
      StepOnLine(prev.grid, c, d, width, j);
      ProjectConcat(front, [c], d, width, j);
      var s := LineView(g, d, width, j);
      var ps := Project(front, d, width, j);
      if LineOf(d, c) == j {
        assert Project([c], d, width, j) == [Depth(d, width, c) as nat];
        Lines.FoldSnoc(s, ps, Depth(d, width, c) as nat);
      } else {
        assert Project([c], d, width, j) == [];
        assert ps + [] == ps;
      }
    }
  }

  lemma SingleOnLine(g: Grid, c: Cell, d: Direction, width: int, j: int)
    requires InBounds(c, width)
    ensures Project(Occupied(g, [c]), d, width, j) ==
      if IsOccupied(g, c) && LineOf(d, c) == j then [Depth(d, width, c) as nat] else []
  {
    assert [c][1..] == [];
    assert Occupied(g, [c]) == if IsOccupied(g, c) then [c] else [];
  }

  /** Filtering and then projecting a concatenation works piece by piece. */
  lemma ProjectOccupiedConcat(g: Grid, a: seq<Cell>, b: seq<Cell>, d: Direction, width: int, j: int)
    ensures Project(Occupied(g, a + b), d, width, j) ==
      Project(Occupied(g, a), d, width, j) + Project(Occupied(g, b), d, width, j)
  {
    OccupiedConcat(g, a, b);
    ProjectConcat(Occupied(g, a), Occupied(g, b), d, width, j);
  }

  lemma {:induction false} LayerPrefixOnLine(g: Grid, d: Direction, width: nat, p: nat, j: int, m: nat)
    requires p < width && 0 <= j < width && m <= width
    ensures Project(Occupied(g, Traversal.Layer(d, width, p)[..m]), d, width, j) ==
      if j < m && IsOccupied(g, Pos(d, width, j, p)) then [p] else []
  {
    var layer := Traversal.Layer(d, width, p);
    if m > 0 {
      var c := layer[m - 1];
      assert Project(Occupied(g, layer[..m]), d, width, j) ==
        Project(Occupied(g, layer[..m - 1]), d, width, j) + Project(Occupied(g, [c]), d, width, j) by {
        assert layer[..m] == layer[..m - 1] + [c];
        ProjectOccupiedConcat(g, layer[..m - 1], [c], d, width, j);
      }
      assert Project(Occupied(g, layer[..m - 1]), d, width, j) ==
        if j < m - 1 && IsOccupied(g, Pos(d, width, j, p)) then [p] else [] by {
        LayerPrefixOnLine(g, d, width, p, j, m - 1);
      }
      assert Project(Occupied(g, [c]), d, width, j) ==
        if j == m - 1 && IsOccupied(g, Pos(d, width, j, p)) then [p] else [] by {
        assert c == Pos(d, width, m - 1, p);
        SingleOnLine(g, c, d, width, j);
      }
    }
  }

  /** s records, depth by depth, which cells of line j are occupied. */
  predicate Mirrors(g: Grid, d: Direction, width: int, j: int, s: seq<int>) {
    |s| == width && forall p :: 0 <= p < width ==> (s[p] != 0 <==> IsOccupied(g, Pos(d, width, j, p)))
  }

  /** Seen from line j, the occupied cells of layer p are the cell at depth p
      when it holds a tile. */
  lemma LayerOnLine(g: Grid, d: Direction, width: nat, j: int, s: seq<int>, p: nat)
    requires Mirrors(g, d, width, j, s) && 0 <= j < width && p < width
    ensures Project(Occupied(g, Traversal.Layer(d, width, p)), d, width, j) == if s[p] != 0 then [p] else []
  {
    LayerPrefixOnLine(g, d, width, p, j, width);
    assert Traversal.Layer(d, width, p)[..width] == Traversal.Layer(d, width, p);
  }

  /** Seen from line j, the occupied cells of the first n layers are the
      occupied depths below n. */
  predicate LayersAgree(g: Grid, d: Direction, width: nat, j: int, s: seq<int>, n: nat)
    requires n <= |s|
  {
    Project(Occupied(g, Traversal.Layers(d, width, n)), d, width, j) == Lines.OccupiedDepths(s, n)
  }

  /** Appending cells that contribute depth n - 1 exactly when it is occupied
      extends the occupied depths below n - 1 to those below n. */
  lemma ExtendDepths(g: Grid, front: seq<Cell>, layer: seq<Cell>, all: seq<Cell>, d: Direction, width: int, j: int, s: seq<int>, n: nat)
    requires 0 < n <= |s| && all == front + layer
    requires Project(Occupied(g, front), d, width, j) == Lines.OccupiedDepths(s, n - 1)
    requires Project(Occupied(g, layer), d, width, j) == if s[n - 1] != 0 then [n - 1] else []
    ensures Project(Occupied(g, all), d, width, j) == Lines.OccupiedDepths(s, n)
  {
    ProjectOccupiedConcat(g, front, layer, d, width, j);
  }

  /** One more layer adds the depth n - 1 of line j exactly when it is occupied. */
  lemma LayersGrow(g: Grid, d: Direction, width: nat, j: int, s: seq<int>, n: nat)
    requires Mirrors(g, d, width, j, s) && 0 <= j < width && 0 < n <= width
    requires LayersAgree(g, d, width, j, s, n - 1)
    ensures LayersAgree(g, d, width, j, s, n)
  {
    var front, layer := Traversal.Layers(d, width, n - 1), Traversal.Layer(d, width, n - 1);
    var all := Traversal.Layers(d, width, n);
    assert all == front + layer;
    LayerOnLine(g, d, width, j, s, n - 1);
    ExtendDepths(g, front, layer, all, d, width, j, s, n);
  }

  lemma {:induction false} LayersOnLine(g: Grid, d: Direction, width: nat, j: int, s: seq<int>, n: nat)
    requires Mirrors(g, d, width, j, s) && 0 <= j < width && n <= width
    ensures LayersAgree(g, d, width, j, s, n)
  {
    if n > 0 {
      LayersOnLine(g, d, width, j, s, n - 1);
      LayersGrow(g, d, width, j, s, n);
    }
  }

  /** Seen from one line, the snapshot of occupied cells in traversal order
      lists that line's occupied depths in ascending order. */
  lemma SnapshotOnLine(g: Grid, d: Direction, width: nat, j: int)
    requires Complete(g, width) && 0 <= j < width
    ensures Project(Occupied(g, Traversal.Order(d, width)), d, width, j) ==
      Lines.OccupiedDepths(LineView(g, d, width, j), width)
  {
    var s := LineView(g, d, width, j);
    assert Mirrors(g, d, width, j, s);
    LayersOnLine(g, d, width, j, s, width);
    assert LayersAgree(g, d, width, j, s, width);
  }

  /** A move acts on every line independently, as the line model says. */
  lemma MoveOnLine(g: Grid, d: Direction, width: nat, j: int)
    requires Complete(g, width) && 0 <= j < width
    ensures LineView(Move(g, d, width).grid, d, width, j) == Lines.LineMove(LineView(g, d, width, j)).line
  {
    Traversal.OrderIsPermutation(d, width);
    var occupied := Occupied(g, Traversal.Order(d, width));
    OccupiedMembers(g, Traversal.Order(d, width));
    assert forall i :: 0 <= i < |occupied| ==> occupied[i] in occupied;
    ResolveOnLine(g, occupied, d, width, j);
    SnapshotOnLine(g, d, width, j);
  }

  /** After a move, the tiles of every line form a gap-free block against the
      destination edge. */
  lemma MovePacks(g: Grid, d: Direction, width: nat)
    requires Complete(g, width)
    ensures forall j :: 0 <= j < width ==> Lines.Packed(LineView(Move(g, d, width).grid, d, width, j))
  {
    forall j | 0 <= j < width ensures Lines.Packed(LineView(Move(g, d, width).grid, d, width, j)) {
      MoveOnLine(g, d, width, j);
      Lines.LineMovePacks(LineView(g, d, width, j));
    }
  }

  /** The lines of the board seen from direction d, each listed from the
      destination edge outward. */
  function Views(g: Grid, d: Direction, width: nat): (vs: seq<seq<int>>)
    requires Complete(g, width)
    ensures |vs| == width && forall j :: 0 <= j < width ==> vs[j] == LineView(g, d, width, j)
  {
    seq(width, j requires 0 <= j < width => LineView(g, d, width, j))
  }

  /** Every line of vs has width cells. */
  predicate Square(vs: seq<seq<int>>, width: int) {
    forall j :: 0 <= j < |vs| ==> |vs[j]| == width
  }

  /** Line by line, the score the line model gives the tiles of cells that
      lie in that line. */
  function FoldGains(vs: seq<seq<int>>, cells: seq<Cell>, d: Direction, width: int): (r: seq<int>)
    requires Square(vs, width)
    ensures |r| == |vs|
  {
    seq(|vs|, j requires 0 <= j < |vs| => Lines.LineFold(vs[j], Project(cells, d, width, j)).gained)
  }

  /** Line by line, the score the line model gives a whole move. */
  function MoveGains(vs: seq<seq<int>>): (r: seq<int>)
    ensures |r| == |vs|
  {
    seq(|vs|, j requires 0 <= j < |vs| => Lines.LineMove(vs[j]).gained)
  }

  /** Adding t to one entry adds t to the total. */
  lemma {:induction false} TotalUpdate(vs: seq<int>, k: int, t: int)
    requires 0 <= k < |vs|
    ensures Total(vs[k := vs[k] + t]) == Total(vs) + t
  {
    if k > 0 {
      TotalUpdate(vs[1..], k - 1, t);
      assert vs[k := vs[k] + t][1..] == vs[1..][k - 1 := vs[k] + t];
    }
  }

  /** When every other entry is zero, the total is the one entry left. */
  lemma {:induction false} TotalSingle(vs: seq<int>, k: int)
    requires 0 <= k < |vs| && forall i :: 0 <= i < |vs| && i != k ==> vs[i] == 0
    ensures Total(vs) == vs[k]
  {
    if |vs| > 1 {
      if k == 0 {
        TotalZero(vs[1..]);
      } else {
        TotalSingle(vs[1..], k - 1);
      }
    } else {
      assert vs[1..] == [];
    }
  }

  lemma {:induction false} TotalZero(vs: seq<int>)
    requires forall i :: 0 <= i < |vs| ==> vs[i] == 0
    ensures Total(vs) == 0
  {
    if vs != [] {
      TotalZero(vs[1..]);
    }
  }

  /** The score the line model gives the tile at c, once the tiles of front
      that lie in its line have been processed. */
  function TileScore(vs: seq<seq<int>>, front: seq<Cell>, c: Cell, d: Direction, width: int): int
    requires Square(vs, width) && |vs| == width && InBounds(c, width)
  {
    var j := LineOf(d, c);
    Lines.LineStep(Lines.LineFold(vs[j], Project(front, d, width, j)).line, Depth(d, width, c) as nat).gained
  }

  /** Seen from line j, one more cell adds the line model's score for that
      tile when it lies in j, and nothing otherwise. */
  lemma LineScoreSnoc(vs: seq<seq<int>>, front: seq<Cell>, c: Cell, d: Direction, width: int, j: int)
    requires Square(vs, width) && |vs| == width && 0 <= j < width && InBounds(c, width)
    ensures Lines.LineFold(vs[j], Project(front + [c], d, width, j)).gained ==
      Lines.LineFold(vs[j], Project(front, d, width, j)).gained +
      if LineOf(d, c) == j then TileScore(vs, front, c, d, width) else 0
  {
    var ps := Project(front, d, width, j);
    ProjectConcat(front, [c], d, width, j);
    if LineOf(d, c) == j {
      assert Project([c], d, width, j) == [Depth(d, width, c) as nat];
      Lines.FoldSnocGained(vs[j], ps, Depth(d, width, c) as nat);
    } else {
      assert Project([c], d, width, j) == [];
      assert ps + [] == ps;
    }
  }

  /** One more cell adds its tile's score to its own line only. */
  lemma FoldGainsSnoc(vs: seq<seq<int>>, front: seq<Cell>, c: Cell, d: Direction, width: int)
    requires Square(vs, width) && |vs| == width && InBounds(c, width)
    ensures var before := FoldGains(vs, front, d, width);
      FoldGains(vs, front + [c], d, width) ==
      before[LineOf(d, c) := before[LineOf(d, c)] + TileScore(vs, front, c, d, width)]
  {
    forall j | 0 <= j < width {
      LineScoreSnoc(vs, front, c, d, width, j);
    }
  }

  /** The Step for the tile at c, after the tiles of front, scores what the
      line model scores for it. */
  lemma StepScore(g: Grid, front: seq<Cell>, c: Cell, d: Direction, width: nat)
    requires Complete(g, width) && InBounds(c, width)
    requires forall i :: 0 <= i < |front| ==> InBounds(front[i], width)
    ensures Step(Resolve(g, front, d, width).grid, c, d, width).gained == TileScore(Views(g, d, width), front, c, d, width)
  {
    StepOnLine(Resolve(g, front, d, width).grid, c, d, width, LineOf(d, c));
    ResolveOnLine(g, front, d, width, LineOf(d, c));
  }

  /** One more cell adds its tile's score to the total of the line scores. */
  lemma TotalGainsSnoc(vs: seq<seq<int>>, cells: seq<Cell>, d: Direction, width: int)
    requires Square(vs, width) && |vs| == width && cells != [] && InBounds(cells[|cells| - 1], width)
    ensures Total(FoldGains(vs, cells, d, width)) ==
      Total(FoldGains(vs, cells[..|cells| - 1], d, width)) + TileScore(vs, cells[..|cells| - 1], cells[|cells| - 1], d, width)
  {
    var front, c := cells[..|cells| - 1], cells[|cells| - 1];
    var before, t := FoldGains(vs, front, d, width), TileScore(vs, front, c, d, width);
    assert FoldGains(vs, cells, d, width) == before[LineOf(d, c) := before[LineOf(d, c)] + t] by {
      assert cells == front + [c];
      FoldGainsSnoc(vs, front, c, d, width);
    }
    TotalUpdate(before, LineOf(d, c), t);
  }

  /** Resolving cells scores what the line model scores, line by line, for the
      tiles of those cells. */
  lemma {:induction false} ResolveScores(g: Grid, cells: seq<Cell>, d: Direction, width: nat)
    requires Complete(g, width)
    requires forall i :: 0 <= i < |cells| ==> InBounds(cells[i], width)
    ensures Resolve(g, cells, d, width).gained == Total(FoldGains(Views(g, d, width), cells, d, width))
  {
    if cells != [] {
      var front := cells[..|cells| - 1];
      ResolveScores(g, front, d, width);
      StepScore(g, front, cells[|cells| - 1], d, width);
      TotalGainsSnoc(Views(g, d, width), cells, d, width);
    } else {
      TotalZero(FoldGains(Views(g, d, width), [], d, width));
    }
  }

  /** The score of a move is the sum of the scores the line model gives each
      line. */
  lemma MoveScores(g: Grid, d: Direction, width: nat)
    requires Complete(g, width)
    ensures Move(g, d, width).gained == Total(MoveGains(Views(g, d, width)))
  {
    var vs := Views(g, d, width);
    var snap := Occupied(g, Traversal.Order(d, width));
    MoveIsResolve(g, d, width);
    ResolveScores(g, snap, d, width);
    forall j | 0 <= j < width ensures FoldGains(vs, snap, d, width)[j] == MoveGains(vs)[j] {
      SnapshotOnLine(g, d, width, j);
    }
    assert FoldGains(vs, snap, d, width) == MoveGains(vs);
  }

  lemma EmptyLineScores(g: Grid, d: Direction, width: nat, k: int)
    requires Complete(g, width) && 0 <= k < width
    requires forall c :: InBounds(c, width) && LineOf(d, c) == k ==> g[c] == 0
    ensures Lines.LineMove(LineView(g, d, width, k)).gained == 0
  {
    var s := LineView(g, d, width, k);
    assert forall p :: 0 <= p < |s| ==> s[p] == 0;
    Lines.EmptyLineStays(s);
  }

  /** When every other line is empty, a move scores what its one line scores. */
  lemma OneLineMove(g: Grid, d: Direction, width: nat, j: int)
    requires Complete(g, width) && 0 <= j < width
    requires forall c :: InBounds(c, width) && LineOf(d, c) != j ==> g[c] == 0
    ensures Move(g, d, width).gained == Lines.LineMove(LineView(g, d, width, j)).gained
  {
    var vs := Views(g, d, width);
    forall k | 0 <= k < width && k != j ensures MoveGains(vs)[k] == 0 {
      EmptyLineScores(g, d, width, k);
    }
    MoveScores(g, d, width);
    TotalSingle(MoveGains(vs), j);
  }

  /** On a 4 x 4 board whose only tiles are the top row [2, 0, 2, 4], moving
      right gives [0, 0, 4, 4] and scores 4. */
  lemma RightMoveExample(g: Grid)
    requires Complete(g, 4)
    requires g[(0, 0)] == 2 && g[(1, 0)] == 0 && g[(2, 0)] == 2 && g[(3, 0)] == 4
    requires forall c :: InBounds(c, 4) && c.1 != 0 ==> g[c] == 0
    ensures Move(g, Right, 4).gained == 4
    ensures Move(g, Right, 4).grid[(0, 0)] == 0 && Move(g, Right, 4).grid[(1, 0)] == 0
    ensures Move(g, Right, 4).grid[(2, 0)] == 4 && Move(g, Right, 4).grid[(3, 0)] == 4
  {
    assert LineView(g, Right, 4, 0) == [4, 2, 0, 2];
    Lines.MergeStopsBehindLargerTile();
    MoveOnLine(g, Right, 4, 0);
    OneLineMove(g, Right, 4, 0);
    var t := LineView(Move(g, Right, 4).grid, Right, 4, 0);
    assert t[0] == Move(g, Right, 4).grid[(3, 0)] && t[1] == Move(g, Right, 4).grid[(2, 0)];
    assert t[2] == Move(g, Right, 4).grid[(1, 0)] && t[3] == Move(g, Right, 4).grid[(0, 0)];
  }

  /** On a 4 x 4 board whose only tiles are the top row [2, 2, 0, 0], moving
      left gives [4, 0, 0, 0] and scores 4. */
  lemma LeftMoveExample(g: Grid)
    requires Complete(g, 4)
    requires g[(0, 0)] == 2 && g[(1, 0)] == 2 && g[(2, 0)] == 0 && g[(3, 0)] == 0
    requires forall c :: InBounds(c, 4) && c.1 != 0 ==> g[c] == 0
    ensures Move(g, Left, 4).gained == 4
    ensures Move(g, Left, 4).grid[(0, 0)] == 4 && Move(g, Left, 4).grid[(1, 0)] == 0
    ensures Move(g, Left, 4).grid[(2, 0)] == 0 && Move(g, Left, 4).grid[(3, 0)] == 0
  {
    assert LineView(g, Left, 4, 0) == [2, 2, 0, 0];
    Lines.PairMerges();
    MoveOnLine(g, Left, 4, 0);
    OneLineMove(g, Left, 4, 0);
    var t := LineView(Move(g, Left, 4).grid, Left, 4, 0);
    assert t[0] == Move(g, Left, 4).grid[(0, 0)] && t[1] == Move(g, Left, 4).grid[(1, 0)];
    assert t[2] == Move(g, Left, 4).grid[(2, 0)] && t[3] == Move(g, Left, 4).grid[(3, 0)];
  }

  /** The tile made by the first merge merges again: the top row [2, 2, 4, 0]
      moved left gives [8, 0, 0, 0] and scores 4 + 8. */
  lemma ChainMergeExample(g: Grid)
    requires Complete(g, 4)
    requires g[(0, 0)] == 2 && g[(1, 0)] == 2 && g[(2, 0)] == 4 && g[(3, 0)] == 0
    requires forall c :: InBounds(c, 4) && c.1 != 0 ==> g[c] == 0
    ensures Move(g, Left, 4).gained == 12
    ensures Move(g, Left, 4).grid[(0, 0)] == 8 && Move(g, Left, 4).grid[(1, 0)] == 0
    ensures Move(g, Left, 4).grid[(2, 0)] == 0 && Move(g, Left, 4).grid[(3, 0)] == 0
  {
    assert LineView(g, Left, 4, 0) == [2, 2, 4, 0];
    Lines.MergedTileMergesAgain();
    MoveOnLine(g, Left, 4, 0);
    OneLineMove(g, Left, 4, 0);
    var t := LineView(Move(g, Left, 4).grid, Left, 4, 0);
    assert t[0] == Move(g, Left, 4).grid[(0, 0)] && t[1] == Move(g, Left, 4).grid[(1, 0)];
    assert t[2] == Move(g, Left, 4).grid[(2, 0)] && t[3] == Move(g, Left, 4).grid[(3, 0)];
  }

  /** Three equal tiles in a row give one merge: the top row [2, 2, 2, 0]
      moved left gives [4, 2, 0, 0] and scores 4. */
  lemma ThreeInARowExample(g: Grid)
    requires Complete(g, 4)
    requires g[(0, 0)] == 2 && g[(1, 0)] == 2 && g[(2, 0)] == 2 && g[(3, 0)] == 0
    requires forall c :: InBounds(c, 4) && c.1 != 0 ==> g[c] == 0
    ensures Move(g, Left, 4).gained == 4
    ensures Move(g, Left, 4).grid[(0, 0)] == 4 && Move(g, Left, 4).grid[(1, 0)] == 2
    ensures Move(g, Left, 4).grid[(2, 0)] == 0 && Move(g, Left, 4).grid[(3, 0)] == 0
  {
    assert LineView(g, Left, 4, 0) == [2, 2, 2, 0];
    Lines.ThreeEqualTilesMergeOnce();
    MoveOnLine(g, Left, 4, 0);
    OneLineMove(g, Left, 4, 0);
    var t := LineView(Move(g, Left, 4).grid, Left, 4, 0);
    assert t[0] == Move(g, Left, 4).grid[(0, 0)] && t[1] == Move(g, Left, 4).grid[(1, 0)];
    assert t[2] == Move(g, Left, 4).grid[(2, 0)] && t[3] == Move(g, Left, 4).grid[(3, 0)];
  }
}
