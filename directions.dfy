/** Directions of a move, the letters that select them, and the geometry of
    cells relative to the edge the tiles move toward. */
module Directions {

  datatype Option<+T> = None | Some(value: T)

  /** A cell coordinate (x, y): x grows to the right, y grows downward. */
  type Cell = (int, int)

  datatype Direction = Up | Down | Left | Right

  /** The axis the outer loop of the traversal runs over. */
  datatype Axis = X | Y

  /** The traversal "preference": the outer axis, then the order in which x
      values and y values are visited. */
  datatype Preference = Preference(outer: Axis, xs: seq<int>, ys: seq<int>)

  /** What a valid letter decodes to: a unit vector and a preference. */
  datatype DirectionData = DirectionData(vector: (int, int), preference: Preference)

  predicate InBounds(c: Cell, width: int) {
    0 <= c.0 < width && 0 <= c.1 < width
  }

  function Vector(d: Direction): (int, int) {
    match d
    case Up => (0, -1)
    case Down => (0, 1)
    case Left => (-1, 0)
    case Right => (1, 0)
  }

  function Ascending(width: nat): seq<int> {
    seq(width, i => i)
  }

  function Descending(width: nat): seq<int> {
    seq(width, i => width - 1 - i)
  }

  function PreferenceOf(d: Direction, width: nat): Preference {
    match d
    case Up => Preference(Y, Ascending(width), Ascending(width))
    case Down => Preference(Y, Ascending(width), Descending(width))
    case Left => Preference(X, Ascending(width), Ascending(width))
    case Right => Preference(X, Descending(width), Ascending(width))
  }

  /** ASCII lower-casing, the part of str.lower() that can change whether a
      string equals one of "w", "s", "a", "d". */
  function LowerChar(c: char): char {
    if 'A' <= c <= 'Z' then (c as int - 'A' as int + 'a' as int) as char else c
  }

  function Lower(s: string): string {
    seq(|s|, i requires 0 <= i < |s| => LowerChar(s[i]))
  }

  lemma LowerIsLetter(s: string, l: char)
    requires 'a' <= l <= 'z'
    ensures Lower(s) == [l] <==> s == [l] || s == [(l as int - 'a' as int + 'A' as int) as char]
  {
    if Lower(s) == [l] {
      assert |s| == |Lower(s)| == 1;
      assert LowerChar(s[0]) == Lower(s)[0] == l;
      assert s == [s[0]];
    }
    if s == [(l as int - 'a' as int + 'A' as int) as char] {
      assert Lower(s)[0] == l;
    }
  }

  /** Case-insensitive decoding of one line of input. */
  function Decode(letter: string): (r: Option<Direction>)
    ensures r == Some(Up) <==> letter == "w" || letter == "W"
    ensures r == Some(Down) <==> letter == "s" || letter == "S"
    ensures r == Some(Left) <==> letter == "a" || letter == "A"
    ensures r == Some(Right) <==> letter == "d" || letter == "D"
  {
    LowerIsLetter(letter, 'w');
    LowerIsLetter(letter, 's');
    LowerIsLetter(letter, 'a');
    LowerIsLetter(letter, 'd');
    var l := Lower(letter);
    if l == "w" then Some(Up)
    else if l == "s" then Some(Down)
    else if l == "a" then Some(Left)
    else if l == "d" then Some(Right)
    else None
  }

  /** letter_to_direction: the vector and preference of a valid letter, None
      for any other input. */
  function LetterToDirection(letter: string, width: nat): (r: Option<DirectionData>)
    ensures r.None? <==> letter !in {"w", "W", "s", "S", "a", "A", "d", "D"}
    ensures r.Some? && r.value.vector == (0, -1) <==> letter in {"w", "W"}
    ensures r.Some? && r.value.vector == (0, 1) <==> letter in {"s", "S"}
    ensures r.Some? && r.value.vector == (-1, 0) <==> letter in {"a", "A"}
    ensures r.Some? && r.value.vector == (1, 0) <==> letter in {"d", "D"}
  {
    match Decode(letter)
    case None => None
    case Some(d) => Some(DirectionData(Vector(d), PreferenceOf(d, width)))
  }

  /** The index of the line (row or column) that a cell slides along. */
  function LineOf(d: Direction, c: Cell): int {
    match d
    case Up => c.0
    case Down => c.0
    case Left => c.1
    case Right => c.1
  }

  /** The distance of a cell from the edge the tiles move toward. */
  function Depth(d: Direction, width: int, c: Cell): int {
    match d
    case Up => c.1
    case Down => width - 1 - c.1
    case Left => c.0
    case Right => width - 1 - c.0
  }

  /** The cell at depth p of line j. */
  function Pos(d: Direction, width: int, j: int, p: int): (c: Cell)
    ensures LineOf(d, c) == j && Depth(d, width, c) == p
    ensures InBounds(c, width) <==> 0 <= j < width && 0 <= p < width
  {
    match d
    case Up => (j, p)
    case Down => (j, width - 1 - p)
    case Left => (p, j)
    case Right => (width - 1 - p, j)
  }

  /** The cell n steps from c in direction d. */
  function Shift(c: Cell, d: Direction, n: int): (r: Cell)
    ensures LineOf(d, r) == LineOf(d, c)
    ensures forall width :: Depth(d, width, r) == Depth(d, width, c) - n
  {
    match d
    case Up => (c.0, c.1 - n)
    case Down => (c.0, c.1 + n)
    case Left => (c.0 - n, c.1)
    case Right => (c.0 + n, c.1)
  }

  lemma CellIsPos(d: Direction, width: int, c: Cell)
    ensures Pos(d, width, LineOf(d, c), Depth(d, width, c)) == c
  {
  }
}
