/** The board: a map from every cell to its tile value (0 meaning empty), the
    queries the move engine makes of it, and the ray of cells a tile can
    slide along. */
module Board {
  import opened Directions
  import Traversal

  type Grid = map<Cell, int>

  /** Every cell of the board is a key. */
  ghost predicate Complete(g: Grid, width: int) {
    forall c :: InBounds(c, width) ==> c in g
  }

  /** Exactly the cells of the board are keys, and no value is negative. */
  ghost predicate WellFormed(g: Grid, width: int) {
    (forall c :: c in g <==> InBounds(c, width)) && (forall c :: c in g ==> g[c] >= 0)
  }

  /** The order in which the grid's keys were inserted: x outer, y inner.
      It is the traversal order of a move to the left. */
  function Keys(width: nat): (r: seq<Cell>)
    ensures forall c :: c in r <==> InBounds(c, width)
    ensures Traversal.Distinct(r) && |r| == width * width
  {
    Traversal.OrderIsPermutation(Left, width);
    Traversal.Order(Left, width)
  }

  /** is_occupied: a missing key reads as None, which differs from 0, so it
      counts as occupied. */
  predicate IsOccupied(g: Grid, xy: Cell) {
    xy !in g || g[xy] != 0
  }

  predicate IsEmpty(g: Grid, xy: Cell) {
    !IsOccupied(g, xy)
  }

  /** filter(is_occupied, cells): the occupied cells, in their order. */
  function Occupied(g: Grid, cells: seq<Cell>): (r: seq<Cell>)
    ensures |r| <= |cells|
  {
    if cells == [] then []
    else (if IsOccupied(g, cells[0]) then [cells[0]] else []) + Occupied(g, cells[1..])
  }

  /** The filter keeps exactly the occupied cells. */
  lemma {:induction false} OccupiedMembers(g: Grid, cells: seq<Cell>)
    ensures forall c :: c in Occupied(g, cells) <==> c in cells && IsOccupied(g, c)
  {
    if cells != [] {
      OccupiedMembers(g, cells[1..]);
      assert forall c :: c in cells <==> c == cells[0] || c in cells[1..];
    }
  }

  /** Filtering keeps a list free of duplicates. */
  lemma {:induction false} OccupiedDistinct(g: Grid, cells: seq<Cell>)
    requires Traversal.Distinct(cells)
    ensures Traversal.Distinct(Occupied(g, cells))
  {
    if cells != [] {
      OccupiedDistinct(g, cells[1..]);
      OccupiedMembers(g, cells[1..]);
      assert cells[0] !in cells[1..];
    }
  }

  /** Along cells, the depth toward the edge of d never decreases. */
  predicate DepthSorted(cells: seq<Cell>, d: Direction, width: int) {
    forall i, k :: 0 <= i <= k < |cells| ==> Depth(d, width, cells[i]) <= Depth(d, width, cells[k])
  }

  lemma SortedCons(c: Cell, tail: seq<Cell>, d: Direction, width: int)
    requires DepthSorted(tail, d, width)
    requires forall e :: e in tail ==> Depth(d, width, c) <= Depth(d, width, e)
    ensures DepthSorted([c] + tail, d, width)
  {
    var r := [c] + tail;
    forall i, k | 0 <= i <= k < |r| ensures Depth(d, width, r[i]) <= Depth(d, width, r[k]) {
      if 0 < i {
        assert r[i] == tail[i - 1] && r[k] == tail[k - 1];
      } else if 0 < k {
        assert r[k] == tail[k - 1] && r[k] in tail;
      }
    }
  }

  /** Filtering keeps a list sorted by depth toward the edge of d. */
  lemma {:induction false} OccupiedDepthSorted(g: Grid, cells: seq<Cell>, d: Direction, width: int)
    requires DepthSorted(cells, d, width)
    ensures DepthSorted(Occupied(g, cells), d, width)
  {
    if cells != [] {
      var rest := cells[1..];
      assert DepthSorted(rest, d, width) by {
        forall i, k | 0 <= i <= k < |rest| ensures Depth(d, width, rest[i]) <= Depth(d, width, rest[k]) {
          assert rest[i] == cells[i + 1] && rest[k] == cells[k + 1];
        }
      }
      OccupiedDepthSorted(g, rest, d, width);
      var tail := Occupied(g, rest);
      if IsOccupied(g, cells[0]) {
        forall e | e in tail ensures Depth(d, width, cells[0]) <= Depth(d, width, e) {
          OccupiedMembers(g, rest);
          var k :| 0 <= k < |rest| && rest[k] == e;
          assert e == cells[k + 1];
        }
        SortedCons(cells[0], tail, d, width);
      } else {
        assert Occupied(g, cells) == tail;
      }
    }
  }

  /** filter(is_empty, cells): the empty cells, in their order. */
  function Empties(g: Grid, cells: seq<Cell>): (r: seq<Cell>)
    ensures |r| <= |cells|
    ensures forall c :: c in r <==> c in cells && IsEmpty(g, c)
  {
    if cells == [] then []
    else (if IsEmpty(g, cells[0]) then [cells[0]] else []) + Empties(g, cells[1..])
  }

  /** get_occupied_spaces */
  function OccupiedSpaces(g: Grid, width: nat): (r: seq<Cell>)
    ensures forall c :: c in r <==> InBounds(c, width) && IsOccupied(g, c)
  {
    OccupiedMembers(g, Keys(width));
    Occupied(g, Keys(width))
  }

  /** get_empty_spaces */
  function EmptySpaces(g: Grid, width: nat): (r: seq<Cell>)
    ensures forall c :: c in r <==> InBounds(c, width) && IsEmpty(g, c)
  {
    Empties(g, Keys(width))
  }

  /** Every cell is either occupied or empty, never both. */
  lemma {:induction false} Partition(g: Grid, cells: seq<Cell>)
    ensures |Occupied(g, cells)| + |Empties(g, cells)| == |cells|
  {
    if cells != [] {
      Partition(g, cells[1..]);
    }
  }

  lemma {:induction false} OccupiedConcat(g: Grid, a: seq<Cell>, b: seq<Cell>)
    ensures Occupied(g, a + b) == Occupied(g, a) + Occupied(g, b)
  {
    if a != [] {
      assert (a + b)[1..] == a[1..] + b;
      OccupiedConcat(g, a[1..], b);
    } else {
      assert a + b == b;
    }
  }

  /** The first occupied cell of a sequence is preceded only by empty ones. */
  lemma {:induction false} FirstOccupied(g: Grid, cells: seq<Cell>) returns (k: nat)
    requires Occupied(g, cells) != []
    ensures k < |cells| && cells[k] == Occupied(g, cells)[0]
    ensures forall i :: 0 <= i < k ==> IsEmpty(g, cells[i])
  {
    if IsOccupied(g, cells[0]) {
      k := 0;
    } else {
      var k' := FirstOccupied(g, cells[1..]);
      k := k' + 1;
      forall i | 0 <= i < k ensures IsEmpty(g, cells[i]) {
        if i > 0 {
          assert cells[i] == cells[1..][i - 1];
        }
      }
    }
  }

  /** On a board of zeros every cell is empty. */
  lemma {:induction false} AllEmpty(g: Grid, cells: seq<Cell>)
    requires forall c :: c in cells ==> c in g && g[c] == 0
    ensures Empties(g, cells) == cells && Occupied(g, cells) == []
  {
    if cells != [] {
      AllEmpty(g, cells[1..]);
    }
  }

  /** The sum of the values of the given cells. */
  function TileSum(g: Grid, cells: seq<Cell>): int
    requires forall c :: c in cells ==> c in g
  {
    if cells == [] then 0 else g[cells[0]] + TileSum(g, cells[1..])
  }

  /** Setting one cell changes the sum by the difference of its values. */
  lemma {:induction false} TileSumUpdate(g: Grid, cells: seq<Cell>, c: Cell, v: int)
    requires Traversal.Distinct(cells)
    requires c in g && forall e :: e in cells ==> e in g
    ensures TileSum(g[c := v], cells) == TileSum(g, cells) + (if c in cells then v - g[c] else 0)
  {
    if cells != [] {
      TileSumUpdate(g, cells[1..], c, v);
      assert c == cells[0] ==> c !in cells[1..];
    }
  }

  /** Setting one cell changes the number of occupied cells by at most one,
      as its value goes from or to zero. */
  lemma {:induction false} OccupiedUpdate(g: Grid, cells: seq<Cell>, c: Cell, v: int)
    requires Traversal.Distinct(cells)
    requires c in g
    ensures |Occupied(g[c := v], cells)| == |Occupied(g, cells)| +
      (if c in cells then (if v != 0 then 1 else 0) - (if g[c] != 0 then 1 else 0) else 0)
  {
    if cells != [] {
      OccupiedUpdate(g, cells[1..], c, v);
      assert c == cells[0] ==> c !in cells[1..];
    }
  }

  /** get_next_spaces: the cells strictly beyond xy toward the edge in
      direction d, nearest first. */
  function NextSpaces(xy: Cell, d: Direction, width: int): (r: seq<Cell>)
    requires InBounds(xy, width)
    ensures |r| == Depth(d, width, xy)
    ensures forall k :: 0 <= k < |r| ==> r[k] == Shift(xy, d, k + 1) && InBounds(r[k], width)
    ensures !InBounds(Shift(xy, d, |r| + 1), width)
  {
    seq(Depth(d, width, xy), k requires 0 <= k < Depth(d, width, xy) => Shift(xy, d, k + 1))
  }

  /** The loop of get_next_spaces: extend the trail by one step of the
      direction vector until the next cell leaves the board. The vector is
      the one the letter decoded to; d names it for the specification. */
  method GetNextSpaces(xy: Cell, direction: (int, int), ghost d: Direction, width: int) returns (r: seq<Cell>)
    requires InBounds(xy, width) && direction == Vector(d)
    ensures r == NextSpaces(xy, d, width)
  {
    var spaces := [xy];
    for idx := 0 to width
      invariant |spaces| == idx + 1
      invariant forall k :: 0 <= k <= idx ==> spaces[k] == Shift(xy, d, k)
      invariant idx <= Depth(d, width, xy)
    {
      var latest := spaces[|spaces| - 1];
      var nextX := latest.0 + direction.0;
      var nextY := latest.1 + direction.1;
      if (nextX >= width || nextX < 0) || (nextY >= width || nextY < 0) {
        return spaces[1..];
      }
      spaces := spaces + [(nextX, nextY)];
    }
    assert false;
  }

  /** Seen from line j, the ray beyond depth p lists depths p - 1, ..., 0. */
  lemma NextSpacesInLine(d: Direction, width: int, j: int, p: int)
    requires 0 <= j < width && 0 <= p < width
    ensures NextSpaces(Pos(d, width, j, p), d, width) == seq(p, k requires 0 <= k < p => Pos(d, width, j, p - 1 - k))
  {
    var ray := NextSpaces(Pos(d, width, j, p), d, width);
    forall k | 0 <= k < p ensures ray[k] == Pos(d, width, j, p - 1 - k) {
      CellIsPos(d, width, ray[k]);
    }
  }
}
