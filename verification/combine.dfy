/**
 Merging a freshly flood-filled region into the accumulated selection mask,
 one of four pixel-wise rules chosen by the click's modifier, and the set
 algebra those rules implement on 0/255 masks.
 */
module Combination {
  import opened Grids
  import opened Modifiers

  /** The combination rules on bytes, as the selection window writes them. */
  function Combine(m: Modifier, mask: Grid, region: Grid): (r: Grid)
    requires SameShape(mask, region)
    ensures SameShape(r, mask)
    ensures Binary(mask) && Binary(region) ==> Binary(r)
  {
    match m
    case Intersect => BitwiseAnd(mask, region)
    case Union => BitwiseOr(mask, region)
    case Subtract => BitwiseAnd(mask, BitwiseNot(region))
    case Replace => region
  }

  /** The same rules stated on the sets of selected cells. */
  function SetRule(m: Modifier, mask: set<(int, int)>, region: set<(int, int)>): (cells: set<(int, int)>) {
    match m
    case Intersect => mask * region
    case Union => mask + region
    case Subtract => mask - region
    case Replace => region
  }

  /**
   On a 0/255 region every rule does to the selected cells what its set
   operation says: union, difference, intersection or replacement. Union
   needs nothing of the region; the other rules rely on each region byte
   being all ones or all zeros.
   */
  lemma CombineSelects(m: Modifier, mask: Grid, region: Grid)
    requires SameShape(mask, region)
    requires Binary(region)
    ensures Selected(Combine(m, mask, region)) == SetRule(m, Selected(mask), Selected(region))
  {
    var r := Combine(m, mask, region);
    var want := SetRule(m, Selected(mask), Selected(region));
    forall i, j | 0 <= i < |mask| && 0 <= j < |mask[i]|
      ensures (i, j) in Selected(r) <==> (i, j) in want
    {
      assert (i, j) in Selected(r) <==> r[i][j] != 0;
      assert (i, j) in Selected(mask) <==> mask[i][j] != 0;
      assert (i, j) in Selected(region) <==> region[i][j] != 0;
      assert region[i][j] == 0 || region[i][j] == 255;
    }
  }

  /** Replace discards the old mask entirely: the result is the region itself. */
  lemma ReplaceIgnoresMask(mask: Grid, mask': Grid, region: Grid)
    requires SameShape(mask, region) && SameShape(mask', region)
    ensures Combine(Replace, mask, region) == Combine(Replace, mask', region) == region
  {
  }

  /** Union keeps every cell of the old mask and every cell of the region. */
  lemma UnionContainsBoth(mask: Grid, region: Grid)
    requires SameShape(mask, region)
    ensures Selected(mask) <= Selected(Combine(Union, mask, region))
    ensures Selected(region) <= Selected(Combine(Union, mask, region))
  {
    var r := Combine(Union, mask, region);
    forall p | p in Selected(mask)
      ensures p in Selected(r)
    {
      var (i, j) := p;
      assert mask[i][j] != 0 && r[i][j] == mask[i][j] | region[i][j];
    }
    forall p | p in Selected(region)
      ensures p in Selected(r)
    {
      var (i, j) := p;
      assert region[i][j] != 0 && r[i][j] == mask[i][j] | region[i][j];
    }
  }

  /** Intersection selects only cells both operands select, whatever bytes they hold. */
  lemma IntersectWithinBoth(mask: Grid, region: Grid)
    requires SameShape(mask, region)
    ensures Selected(Combine(Intersect, mask, region)) <= Selected(mask) * Selected(region)
  {
    var r := Combine(Intersect, mask, region);
    forall p | p in Selected(r)
      ensures p in Selected(mask) && p in Selected(region)
    {
      var (i, j) := p;
      assert r[i][j] == mask[i][j] & region[i][j] && r[i][j] != 0;
      assert mask[i][j] != 0 && region[i][j] != 0;
    }
  }

  /**
   Subtraction by a 0/255 region keeps only cells of the old mask, and none of
   the region's.
   */
  lemma SubtractWithinMask(mask: Grid, region: Grid)
    requires SameShape(mask, region)
    requires Binary(region)
    ensures Selected(Combine(Subtract, mask, region)) <= Selected(mask)
    ensures Selected(Combine(Subtract, mask, region)) !! Selected(region)
  {
    CombineSelects(Subtract, mask, region);
  }

  /** Two unions commute: adding a then b selects the same as adding b then a. */
  lemma UnionCommutes(mask: Grid, a: Grid, b: Grid)
    requires SameShape(mask, a) && SameShape(mask, b)
    ensures Combine(Union, Combine(Union, mask, a), b) == Combine(Union, Combine(Union, mask, b), a)
  {
    var ab := Combine(Union, Combine(Union, mask, a), b);
    var ba := Combine(Union, Combine(Union, mask, b), a);
    forall i | 0 <= i < |mask|
      ensures ab[i] == ba[i]
    {
      forall j | 0 <= j < |mask[i]|
        ensures ab[i][j] == ba[i][j]
      {
        assert ab[i][j] == (mask[i][j] | a[i][j]) | b[i][j];
        assert ba[i][j] == (mask[i][j] | b[i][j]) | a[i][j];
      }
    }
  }

  /** Subtracting a mask from itself leaves nothing selected. */
  lemma SubtractSelfIsEmpty(a: Grid, h: nat, w: nat)
    requires IsGrid(a, h, w)
    ensures Combine(Subtract, a, a) == Zeros(h, w)
  {
    var r, z := Combine(Subtract, a, a), Zeros(h, w);
    forall i | 0 <= i < h
      ensures r[i] == z[i]
    {
      forall j | 0 <= j < w
        ensures r[i][j] == z[i][j]
      {
        assert r[i][j] == a[i][j] & !a[i][j];
      }
    }
  }

  /** Intersecting masks that select no cell in common leaves nothing selected. */
  lemma IntersectDisjointIsEmpty(a: Grid, b: Grid, h: nat, w: nat)
    requires IsGrid(a, h, w) && IsGrid(b, h, w)
    requires Selected(a) !! Selected(b)
    ensures Combine(Intersect, a, b) == Zeros(h, w)
  {
    var r, z := Combine(Intersect, a, b), Zeros(h, w);
    forall i | 0 <= i < h
      ensures r[i] == z[i]
    {
      forall j | 0 <= j < w
        ensures r[i][j] == z[i][j]
      {
        assert (i, j) !in Selected(a) || (i, j) !in Selected(b);
        assert r[i][j] == a[i][j] & b[i][j];
      }
    }
  }
}
