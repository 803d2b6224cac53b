/** A reference model of a move restricted to one line. A line is listed from
    the destination edge outward: s[0] is the cell on the edge the tiles move
    toward, s[p] the cell at depth p. */
module Lines {
  import opened Directions

  /** The new contents of a line and the score the change earned. */
  datatype Slide = Slide(line: seq<int>, gained: int)

  /** The depth of the nearest occupied cell in front of depth p, if any. */
  function Nearest(s: seq<int>, p: nat): (r: Option<nat>)
    requires p <= |s|
    ensures r.None? ==> forall i :: 0 <= i < p ==> s[i] == 0
    ensures r.Some? ==> r.value < p && s[r.value] != 0 && forall i :: r.value < i < p ==> s[i] == 0
  {
    if p == 0 then None
    else if s[p - 1] != 0 then Some(p - 1)
    else Nearest(s, p - 1)
  }

  /** The nearest occupied depth is determined by the cells in front of p. */
  lemma NearestIs(s: seq<int>, p: nat, q: nat)
    requires q < p <= |s| && s[q] != 0
    requires forall i :: q < i < p ==> s[i] == 0
    ensures Nearest(s, p) == Some(q)
  {
  }

  /** The tile at depth p stays on the edge, merges into the nearest tile in
      front of it when the values are equal, stops right behind it when they
      differ, and slides to the edge when there is none. */
  function LineStep(s: seq<int>, p: nat): (r: Slide)
    requires p < |s|
    ensures |r.line| == |s|
  {
    if p == 0 then Slide(s, 0)
    else
      match Nearest(s, p)
      case None => Slide(s[p := 0][0 := s[p]], 0)
      case Some(q) =>
        if s[q] == s[p] then Slide(s[p := 0][q := 2 * s[p]], 2 * s[p])
        else Slide(s[p := 0][q + 1 := s[p]], 0)
  }

  /** The tile at depth p meets the tile at depth q: it merges into it when
      the values are equal and stops right behind it otherwise. */
  lemma LineStepMeets(s: seq<int>, p: nat, q: nat)
    requires p < |s| && Nearest(s, p) == Some(q)
    ensures LineStep(s, p) ==
      if s[q] == s[p] then Slide(s[p := 0][q := 2 * s[p]], 2 * s[p]) else Slide(s[p := 0][q + 1 := s[p]], 0)
  {
  }

  /** The depths below n whose cells are occupied, in ascending order. */
  function OccupiedDepths(s: seq<int>, n: nat): (r: seq<nat>)
    requires n <= |s|
    ensures forall i :: 0 <= i < |r| ==> r[i] < n
  {
    if n == 0 then []
    else OccupiedDepths(s, n - 1) + (if s[n - 1] != 0 then [n - 1] else [])
  }

  /** The occupied depths are exactly the depths below n holding a tile. */
  lemma {:induction false} OccupiedDepthsMembers(s: seq<int>, n: nat)
    requires n <= |s|
    ensures forall q: nat :: q in OccupiedDepths(s, n) <==> q < n && s[q] != 0
  {
    if n > 0 {
      OccupiedDepthsMembers(s, n - 1);
    }
  }

  /** The tiles at depths ps processed one after another. */
  function LineFold(s: seq<int>, ps: seq<nat>): (r: Slide)
    requires forall i :: 0 <= i < |ps| ==> ps[i] < |s|
    ensures |r.line| == |s|
  {
    if ps == [] then Slide(s, 0)
    else
      var prev := LineFold(s, ps[..|ps| - 1]);
      var last := LineStep(prev.line, ps[|ps| - 1]);
      Slide(last.line, prev.gained + last.gained)
  }

  /** A move of one line: the tiles occupied at the start, nearest the edge
      first. */
  function LineMove(s: seq<int>): Slide {
    LineFold(s, OccupiedDepths(s, |s|))
  }

  /** An empty line stays empty and earns nothing. */
  lemma EmptyLineStays(s: seq<int>)
    requires forall i :: 0 <= i < |s| ==> s[i] == 0
    ensures LineMove(s) == Slide(s, 0)
  {
    NothingOccupied(s, |s|);
  }

  lemma {:induction false} NothingOccupied(s: seq<int>, n: nat)
    requires n <= |s| && forall i :: 0 <= i < |s| ==> s[i] == 0
    ensures OccupiedDepths(s, n) == []
  {
    if n > 0 {
      NothingOccupied(s, n - 1);
    }
  }

  /** Below depth n, no occupied cell lies behind an empty one. */
  predicate PackedBelow(s: seq<int>, n: nat)
    requires n <= |s|
  {
    forall a, b :: 0 <= a < b < n && s[a] == 0 ==> s[b] == 0
  }

  /** The occupied cells form one gap-free block against the edge. */
  predicate Packed(s: seq<int>) {
    PackedBelow(s, |s|)
  }

  /** Processing the tile at depth p keeps the part in front of it packed,
      extends it by one cell, and leaves the cells behind it alone. */
  lemma StepPacks(t: seq<int>, p: nat)
    requires p < |t| && t[p] != 0 && PackedBelow(t, p)
    ensures PackedBelow(LineStep(t, p).line, p + 1)
    ensures forall i :: p < i < |t| ==> LineStep(t, p).line[i] == t[i]
  {
    var r := LineStep(t, p).line;
    if p > 0 {
      match Nearest(t, p)
      case None =>
      case Some(q) =>
        assert forall i :: 0 <= i <= q ==> t[i] != 0;
    }
  }

  lemma FoldSnoc(s: seq<int>, ps: seq<nat>, p: nat)
    requires p < |s| && forall i :: 0 <= i < |ps| ==> ps[i] < |s|
    ensures LineFold(s, ps + [p]).line == LineStep(LineFold(s, ps).line, p).line
  {
    assert (ps + [p])[..|ps|] == ps;
  }

  lemma FoldSnocGained(s: seq<int>, ps: seq<nat>, p: nat)
    requires p < |s| && forall i :: 0 <= i < |ps| ==> ps[i] < |s|
    ensures LineFold(s, ps + [p]).gained == LineFold(s, ps).gained + LineStep(LineFold(s, ps).line, p).gained
  {
    assert (ps + [p])[..|ps|] == ps;
  }

  lemma PackedExtends(t: seq<int>, n: nat)
    requires 0 < n <= |t| && PackedBelow(t, n - 1) && t[n - 1] == 0
    ensures PackedBelow(t, n)
  {
  }

  /** An occupied depth n - 1 adds one step to the fold below n - 1. */
  lemma FoldOccupied(s: seq<int>, n: nat)
    requires 0 < n <= |s| && s[n - 1] != 0
    ensures LineFold(s, OccupiedDepths(s, n)).line == LineStep(LineFold(s, OccupiedDepths(s, n - 1)).line, n - 1).line
  {
    assert OccupiedDepths(s, n) == OccupiedDepths(s, n - 1) + [n - 1];
    FoldSnoc(s, OccupiedDepths(s, n - 1), n - 1);
  }

  /** t and s have the same length and agree from depth n on. */
  predicate SameFrom(t: seq<int>, s: seq<int>, n: nat) {
    |t| == |s| && forall i :: n <= i < |s| ==> t[i] == s[i]
  }

  /** Taking depth n - 1 into account keeps the folded line packed below n
      and equal to the original beyond it. */
  lemma FoldPacksStep(s: seq<int>, n: nat, t: seq<int>)
    requires 0 < n <= |s| && t == LineFold(s, OccupiedDepths(s, n - 1)).line
    requires PackedBelow(t, n - 1) && SameFrom(t, s, n - 1)
    ensures PackedBelow(LineFold(s, OccupiedDepths(s, n)).line, n)
    ensures SameFrom(LineFold(s, OccupiedDepths(s, n)).line, s, n)
  {
    if s[n - 1] != 0 {
      FoldOccupied(s, n);
      StepPacks(t, n - 1);
    } else {
      assert OccupiedDepths(s, n) == OccupiedDepths(s, n - 1);
      PackedExtends(t, n);
    }
  }

  lemma {:induction false} FoldPacks(s: seq<int>, n: nat)
    requires n <= |s|
    ensures PackedBelow(LineFold(s, OccupiedDepths(s, n)).line, n)
    ensures SameFrom(LineFold(s, OccupiedDepths(s, n)).line, s, n)
  {
    if n > 0 {
      var t := LineFold(s, OccupiedDepths(s, n - 1)).line;
      assert PackedBelow(t, n - 1) && SameFrom(t, s, n - 1) by {
        FoldPacks(s, n - 1);
      }
      FoldPacksStep(s, n, t);
    }
  }

  /** After a move, the tiles of a line form a gap-free block against the
      destination edge. */
  lemma LineMovePacks(s: seq<int>)
    ensures Packed(LineMove(s).line)
  {
    FoldPacks(s, |s|);
  }

  /** A tile that merged can merge again in the same move. */
  lemma MergedTileMergesAgain()
    ensures LineMove([2, 2, 4, 0]) == Slide([8, 0, 0, 0], 12)
  {
    var s := [2, 2, 4, 0];
    assert OccupiedDepths(s, 4) == [0, 1, 2];
    assert [0, 1, 2][..2] == [0, 1] && [0, 1][..1] == [0] && [0][..0] == [];
    assert LineFold(s, [0]) == Slide(s, 0);
    assert LineFold(s, [0, 1]) == Slide([4, 0, 4, 0], 4);
  }

  /** Three equal tiles give one merge. */
  lemma ThreeEqualTilesMergeOnce()
    ensures LineMove([2, 2, 2, 0]) == Slide([4, 2, 0, 0], 4)
  {
    var s := [2, 2, 2, 0];
    assert OccupiedDepths(s, 4) == [0, 1, 2];
    assert [0, 1, 2][..2] == [0, 1] && [0, 1][..1] == [0] && [0][..0] == [];
    assert LineFold(s, [0]) == Slide(s, 0);
    assert LineFold(s, [0, 1]) == Slide([4, 0, 2, 0], 4);
  }

  lemma PairMerges()
    ensures LineMove([2, 2, 0, 0]) == Slide([4, 0, 0, 0], 4)
  {
    var s := [2, 2, 0, 0];
    assert OccupiedDepths(s, 4) == [0, 1];
    assert [0, 1][..1] == [0] && [0][..0] == [];
    assert LineFold(s, [0]) == Slide(s, 0);
  }

  /** The row [2, 0, 2, 4] moved to the right, listed from the right edge. */
  lemma MergeStopsBehindLargerTile()
    ensures LineMove([4, 2, 0, 2]) == Slide([4, 4, 0, 0], 4)
  {
    var s := [4, 2, 0, 2];
    assert OccupiedDepths(s, 4) == [0, 1, 3];
    assert [0, 1, 3][..2] == [0, 1] && [0, 1][..1] == [0] && [0][..0] == [];
    assert LineFold(s, [0]) == Slide(s, 0);
    assert LineFold(s, [0, 1]) == Slide(s, 0);
    assert Nearest(s, 3) == Some(1);
  }
}
