/** The order in which a move visits the cells of the board. */
module Traversal {
  import opened Directions

  /** The cells at depth p, one per line, in ascending line order. */
  function Layer(d: Direction, width: nat, p: int): seq<Cell> {
    seq(width, j => Pos(d, width, j, p))
  }

  /** The cells of depths 0 .. n - 1, the nearest depth first. */
  function Layers(d: Direction, width: nat, n: nat): seq<Cell> {
    if n == 0 then [] else Layers(d, width, n - 1) + Layer(d, width, n - 1)
  }

  /** The traversal order of a move in direction d: every cell, those nearer
      the destination edge first. */
  function Order(d: Direction, width: nat): seq<Cell> {
    Layers(d, width, width)
  }

  predicate Distinct(s: seq<Cell>) {
    forall i, k :: 0 <= i < k < |s| ==> s[i] != s[k]
  }

  /** The nested loops that build `total` from the preference that d
      decodes to: the outer loop over x for Left and Right, over y for Up
      and Down. */
  method BuildOrder(preference: Preference, ghost d: Direction, width: nat) returns (total: seq<Cell>)
    requires preference == PreferenceOf(d, width)
    ensures total == Order(d, width)
  {
    total := [];
    if preference.outer == X {
      for a := 0 to |preference.xs|
        invariant total == Layers(d, width, a)
      {
        var x := preference.xs[a];
        for b := 0 to |preference.ys|
          invariant total == Layers(d, width, a) + Layer(d, width, a)[..b]
        {
          assert Layer(d, width, a)[..b + 1] == Layer(d, width, a)[..b] + [(x, preference.ys[b])];
          total := total + [(x, preference.ys[b])];
        }
        assert Layer(d, width, a)[..width] == Layer(d, width, a);
      }
    } else {
      for a := 0 to |preference.ys|
        invariant total == Layers(d, width, a)
      {
        var y := preference.ys[a];
        for b := 0 to |preference.xs|
          invariant total == Layers(d, width, a) + Layer(d, width, a)[..b]
        {
          assert Layer(d, width, a)[..b + 1] == Layer(d, width, a)[..b] + [(preference.xs[b], y)];
          total := total + [(preference.xs[b], y)];
        }
        assert Layer(d, width, a)[..width] == Layer(d, width, a);
      }
    }
  }

  lemma LayerShape(d: Direction, width: nat, p: int)
    requires 0 <= p < width
    ensures forall c :: c in Layer(d, width, p) <==> InBounds(c, width) && Depth(d, width, c) == p
  {
    forall c | InBounds(c, width) && Depth(d, width, c) == p
      ensures c in Layer(d, width, p)
    {
      CellIsPos(d, width, c);
      assert Layer(d, width, p)[LineOf(d, c)] == c;
    }
  }

  lemma {:induction false} LayersLength(d: Direction, width: nat, n: nat)
    ensures |Layers(d, width, n)| == n * width
  {
    if n > 0 {
      LayersLength(d, width, n - 1);
      assert |Layers(d, width, n)| == (n - 1) * width + width;
    }
  }

  lemma {:induction false} LayersMembers(d: Direction, width: nat, n: nat)
    requires n <= width
    ensures forall c :: c in Layers(d, width, n) <==> InBounds(c, width) && Depth(d, width, c) < n
  {
    if n > 0 {
      LayersMembers(d, width, n - 1);
      LayerShape(d, width, n - 1);
      var front, back := Layers(d, width, n - 1), Layer(d, width, n - 1);
      forall c ensures c in front + back <==> InBounds(c, width) && Depth(d, width, c) < n {
        assert c in front + back <==> c in front || c in back;
      }
    }
  }

  lemma {:induction false} LayersDistinct(d: Direction, width: nat, n: nat)
    requires n <= width
    ensures Distinct(Layers(d, width, n))
  {
    if n > 0 {
      LayersDistinct(d, width, n - 1);
      LayersMembers(d, width, n - 1);
      LayerShape(d, width, n - 1);
      var front, back := Layers(d, width, n - 1), Layer(d, width, n - 1);
      forall i, k | 0 <= i < k < |front + back| ensures (front + back)[i] != (front + back)[k] {
        if k < |front| {
          assert (front + back)[i] == front[i] && (front + back)[k] == front[k];
        } else if i < |front| {
          assert (front + back)[i] in front;
          assert (front + back)[k] in back;
        } else {
          assert (front + back)[i] == back[i - |front|] && (front + back)[k] == back[k - |front|];
        }
      }
    }
  }

  lemma {:induction false} LayersDepthSorted(d: Direction, width: nat, n: nat)
    requires n <= width
    ensures forall i, k :: 0 <= i <= k < |Layers(d, width, n)| ==>
      Depth(d, width, Layers(d, width, n)[i]) <= Depth(d, width, Layers(d, width, n)[k])
  {
    if n > 0 {
      LayersDepthSorted(d, width, n - 1);
      LayersMembers(d, width, n - 1);
      LayerShape(d, width, n - 1);
      var front, back := Layers(d, width, n - 1), Layer(d, width, n - 1);
      forall i, k | 0 <= i <= k < |front + back|
        ensures Depth(d, width, (front + back)[i]) <= Depth(d, width, (front + back)[k])
      {
        if k < |front| {
          assert (front + back)[i] == front[i] && (front + back)[k] == front[k];
        } else {
          assert (front + back)[k] in back;
          if i < |front| {
            assert (front + back)[i] in front;
          } else {
            assert (front + back)[i] in back;
          }
        }
      }
    }
  }

  /** The traversal order is a permutation of all width * width cells. */
  lemma OrderIsPermutation(d: Direction, width: nat)
    ensures |Order(d, width)| == width * width
    ensures forall c :: c in Order(d, width) <==> InBounds(c, width)
    ensures Distinct(Order(d, width))
  {
    LayersLength(d, width, width);
    LayersMembers(d, width, width);
    LayersDistinct(d, width, width);
  }

  /** Within a line, cells nearer the destination edge come first; across the
      whole order the depth never decreases. */
  lemma OrderNearestFirst(d: Direction, width: nat)
    ensures forall i, k :: 0 <= i <= k < |Order(d, width)| ==>
      Depth(d, width, Order(d, width)[i]) <= Depth(d, width, Order(d, width)[k])
    ensures forall i, k :: 0 <= i < k < |Order(d, width)| && LineOf(d, Order(d, width)[i]) == LineOf(d, Order(d, width)[k]) ==>
      Depth(d, width, Order(d, width)[i]) < Depth(d, width, Order(d, width)[k])
  {
    var t := Order(d, width);
    LayersDepthSorted(d, width, width);
    LayersDistinct(d, width, width);
    forall i, k | 0 <= i < k < |t| && LineOf(d, t[i]) == LineOf(d, t[k])
      ensures Depth(d, width, t[i]) < Depth(d, width, t[k])
    {
      CellIsPos(d, width, t[i]);
      CellIsPos(d, width, t[k]);
    }
  }
}
