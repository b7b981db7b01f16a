/** generateMaskedOrthogonalRankGroups: the ranks of a mesh of the given shape are
    split into groups; the masked axes vary inside a group and the unmasked axes
    select the group. */
module RankGroups {
  import opened MeshIndexer
  import opened Masks

  /** The extents of the axes that vary inside a group. */
  function MaskedShape(shape: seq<nat>, mask: seq<bool>): (r: seq<nat>)
    ensures Positive(shape) ==> Positive(r)
  {
    FilterPositive(shape, mask, true);
    Filter(shape, mask, true)
  }

  /** The extents of the axes that select the group. */
  function UnmaskedShape(shape: seq<nat>, mask: seq<bool>): (r: seq<nat>)
    ensures Positive(shape) ==> Positive(r)
  {
    FilterPositive(shape, mask, false);
    Filter(shape, mask, false)
  }

  /** The number of ranks in each group: the product of the masked extents. */
  function GroupSize(shape: seq<nat>, mask: seq<bool>): (n: nat)
    requires Positive(shape)
    ensures n > 0
  {
    FilterPositive(shape, mask, true);
    Product(MaskedShape(shape, mask))
  }

  /** The global strides restricted to each side of the mask. The stride table is
      one entry longer than the mask, and its last entry (the size of the whole
      mesh) reads an undefined mask bit, so it lands on the unmasked side, where
      innerProduct never reads it. */
  lemma StrideSplit(shape: seq<nat>, mask: seq<bool>)
    requires |mask| == |shape|
    ensures Filter(Strides(shape), mask, true) == Filter(Strides(shape)[..|shape|], mask, true)
    ensures Filter(Strides(shape), mask, false) ==
            Filter(Strides(shape)[..|shape|], mask, false) + [Strides(shape)[|shape|]]
    ensures |Filter(Strides(shape), mask, true)| == |MaskedShape(shape, mask)|
    ensures |Filter(Strides(shape), mask, false)| == |UnmaskedShape(shape, mask)| + 1
  {
    var g := Strides(shape);
    assert g == g[..|shape|] + [g[|shape|]];
    FilterPastMask(g[..|shape|], mask, g[|shape|], true);
    FilterPastMask(g[..|shape|], mask, g[|shape|], false);
  }

  /** The rank at position rankInGroup of group groupIndex: the position is
      decomposed over the masked shape, the group index over the unmasked shape,
      and both digit vectors are recombined with the global strides. */
  ghost function RankOf(shape: seq<nat>, mask: seq<bool>, groupIndex: nat, rankInGroup: nat): nat
    requires Positive(shape) && |mask| == |shape|
  {
    FilterPositive(shape, mask, true);
    FilterPositive(shape, mask, false);
    StrideSplit(shape, mask);
    var globalStride := Strides(shape);
    InnerProduct(Decompose(rankInGroup, MaskedShape(shape, mask)), Filter(globalStride, mask, true)) +
    InnerProduct(Decompose(groupIndex, UnmaskedShape(shape, mask)), Filter(globalStride, mask, false))
  }

  /** The groups the generator returns for a world of worldSize ranks:
      floor(worldSize / groupSize) groups of groupSize ranks each. */
  ghost function Groups(worldSize: nat, shape: seq<nat>, mask: seq<bool>): seq<seq<nat>>
    requires Positive(shape) && |mask| == |shape|
  {
    var groupSize := GroupSize(shape, mask);
    seq(worldSize / groupSize, g requires 0 <= g => seq(groupSize, r requires 0 <= r => RankOf(shape, mask, g, r)))
  }

  /** Rank x occurs somewhere in the groups. */
  ghost predicate InGroups(gs: seq<seq<nat>>, x: nat) {
    exists g, i :: 0 <= g < |gs| && 0 <= i < |gs[g]| && gs[g][i] == x
  }

  /** generateMaskedOrthogonalRankGroups, with its nested loops over the group
      index and the position inside the group. */
  method GenerateMaskedOrthogonalRankGroups(worldSize: nat, parallelSize: seq<nat>, mask: seq<bool>)
    returns (ranks: seq<seq<nat>>)
    requires Positive(parallelSize) && |mask| == |parallelSize|
    ensures ranks == Groups(worldSize, parallelSize, mask)
    ensures |ranks| == worldSize / GroupSize(parallelSize, mask)
    ensures forall g :: 0 <= g < |ranks| ==> |ranks[g]| == GroupSize(parallelSize, mask)
  {
    FilterPositive(parallelSize, mask, true);
    FilterPositive(parallelSize, mask, false);
    var maskedShape := Filter(parallelSize, mask, true);
    var unmaskedShape := Filter(parallelSize, mask, false);

    var globalStride := PrefixProduct(parallelSize, 1);
    var maskedStride := Filter(globalStride, mask, true);
    var unmaskedStride := Filter(globalStride, mask, false);
    StrideSplit(parallelSize, mask);

    var groupSize := Product(maskedShape);
    var numOfGroup := worldSize / groupSize;

    ranks := [];
    for groupIndex := 0 to numOfGroup
      invariant |ranks| == groupIndex
      invariant forall g :: 0 <= g < groupIndex ==>
        ranks[g] == seq(groupSize, r requires 0 <= r => RankOf(parallelSize, mask, g, r))
    {
      var decomposedGroupIdx := Decompose(groupIndex, unmaskedShape);
      var rank := [];
      for rankInGroup := 0 to groupSize
        invariant |rank| == rankInGroup
        invariant forall r :: 0 <= r < rankInGroup ==> rank[r] == RankOf(parallelSize, mask, groupIndex, r)
      {
        var decomposedRankIdx := Decompose(rankInGroup, maskedShape);
        rank := rank + [InnerProduct(decomposedRankIdx, maskedStride) +
                        InnerProduct(decomposedGroupIdx, unmaskedStride)];
      }
      assert rank == seq(groupSize, r requires 0 <= r => RankOf(parallelSize, mask, groupIndex, r));
      ranks := ranks + [rank];
    }
    GroupsEq(worldSize, parallelSize, mask, ranks);
  }

  /** Groups, entry by entry. */
  lemma GroupsEq(worldSize: nat, shape: seq<nat>, mask: seq<bool>, ranks: seq<seq<nat>>)
    requires Positive(shape) && |mask| == |shape|
    requires |ranks| == worldSize / GroupSize(shape, mask)
    requires forall g :: 0 <= g < |ranks| ==>
      ranks[g] == seq(GroupSize(shape, mask), r requires 0 <= r => RankOf(shape, mask, g, r))
    ensures ranks == Groups(worldSize, shape, mask)
  {
  }

  // ---------------------------------------------------------------------------
  // What the groups mean.

  /** A rank is the recombination, with the global strides, of the full coordinate
      vector obtained by merging the in-group digits and the group digits. */
  lemma RankOfMerge(shape: seq<nat>, mask: seq<bool>, g: nat, r: nat)
    requires Positive(shape) && |mask| == |shape|
    ensures
      RankOf(shape, mask, g, r) ==
      InnerProduct(Merge(Decompose(r, MaskedShape(shape, mask)), Decompose(g, UnmaskedShape(shape, mask)), mask),
                   Strides(shape))
  {
    FilterPositive(shape, mask, true);
    FilterPositive(shape, mask, false);
    StrideSplit(shape, mask);
    var ms, us := MaskedShape(shape, mask), UnmaskedShape(shape, mask);
    var cm, cu := Decompose(r, ms), Decompose(g, us);
    var c := Merge(cm, cu, mask);
    var gs := Strides(shape);
    var g' := gs[..|shape|];
    assert gs == g' + [gs[|shape|]];
    FilterMerge(cm, cu, mask);
    InnerSplit(c, g', mask);
    InnerProductPrefix(cu, Filter(g', mask, false), [gs[|shape|]]);
    InnerProductPrefix(c, g', [gs[|shape|]]);
  }

  /** Every generated rank lies inside the mesh, and its coordinates on the masked
      axes are the digits of its position in the group while its coordinates on the
      unmasked axes are the digits of its group index. */
  lemma RankCoordinates(shape: seq<nat>, mask: seq<bool>, g: nat, r: nat)
    requires Positive(shape) && |mask| == |shape|
    ensures RankOf(shape, mask, g, r) < Product(shape)
    ensures
      Filter(Decompose(RankOf(shape, mask, g, r), shape), mask, true) == Decompose(r, MaskedShape(shape, mask))
    ensures
      Filter(Decompose(RankOf(shape, mask, g, r), shape), mask, false) == Decompose(g, UnmaskedShape(shape, mask))
  {
    FilterPositive(shape, mask, true);
    FilterPositive(shape, mask, false);
    var ms, us := MaskedShape(shape, mask), UnmaskedShape(shape, mask);
    var cm, cu := Decompose(r, ms), Decompose(g, us);
    var c := Merge(cm, cu, mask);
    RankOfMerge(shape, mask, g, r);
    MergeBounded(cm, cu, shape, mask);
    DecomposeInner(c, shape);
    FilterMerge(cm, cu, mask);
  }

  /** Every rank of the mesh is generated: at the position given by its masked
      coordinates, in the group given by its unmasked coordinates. */
  lemma RankOfCovers(shape: seq<nat>, mask: seq<bool>, x: nat)
    requires Positive(shape) && |mask| == |shape| && x < Product(shape)
    ensures
      var c := Decompose(x, shape);
      var g := InnerProduct(Filter(c, mask, false), Strides(UnmaskedShape(shape, mask)));
      var r := InnerProduct(Filter(c, mask, true), Strides(MaskedShape(shape, mask)));
      g < Product(UnmaskedShape(shape, mask)) && r < Product(MaskedShape(shape, mask)) &&
      RankOf(shape, mask, g, r) == x
  {
    FilterPositive(shape, mask, true);
    FilterPositive(shape, mask, false);
    var ms, us := MaskedShape(shape, mask), UnmaskedShape(shape, mask);
    var c := Decompose(x, shape);
    var cm, cu := Filter(c, mask, true), Filter(c, mask, false);
    FilterBounded(c, shape, mask, true);
    FilterBounded(c, shape, mask, false);
    var g := InnerProduct(cu, Strides(us));
    var r := InnerProduct(cm, Strides(ms));
    DecomposeInner(cm, ms);
    DecomposeInner(cu, us);
    RankOfMerge(shape, mask, g, r);
    MergeFilter(c, mask);
    RoundTripInRange(x, shape);
  }

  /** Group g, position i of the generator's output. */
  lemma GroupsAt(worldSize: nat, shape: seq<nat>, mask: seq<bool>, g: nat, i: nat)
    requires Positive(shape) && |mask| == |shape|
    requires g < worldSize / GroupSize(shape, mask) && i < GroupSize(shape, mask)
    ensures g < |Groups(worldSize, shape, mask)| && i < |Groups(worldSize, shape, mask)[g]|
    ensures Groups(worldSize, shape, mask)[g][i] == RankOf(shape, mask, g, i)
  {
  }

  /** When the shape multiplies to the world size the division is exact: there is
      one group per combination of unmasked coordinates. */
  lemma GroupCountExact(worldSize: nat, shape: seq<nat>, mask: seq<bool>)
    requires Positive(shape) && |mask| == |shape| && Product(shape) == worldSize
    ensures worldSize / GroupSize(shape, mask) == Product(UnmaskedShape(shape, mask))
    ensures |Groups(worldSize, shape, mask)| == Product(UnmaskedShape(shape, mask))
  {
    ProductSplit(shape, mask);
    var m, u := Product(MaskedShape(shape, mask)), Product(UnmaskedShape(shape, mask));
    DivModUnique(worldSize, m, u, 0);
  }

  /** Distinct (group, position) pairs inside the mesh give distinct ranks. */
  lemma RankOfInjective(shape: seq<nat>, mask: seq<bool>, g1: nat, i1: nat, g2: nat, i2: nat)
    requires Positive(shape) && |mask| == |shape|
    requires g1 < Product(UnmaskedShape(shape, mask)) && g2 < Product(UnmaskedShape(shape, mask))
    requires i1 < Product(MaskedShape(shape, mask)) && i2 < Product(MaskedShape(shape, mask))
    requires RankOf(shape, mask, g1, i1) == RankOf(shape, mask, g2, i2)
    ensures g1 == g2 && i1 == i2
  {
    RankCoordinates(shape, mask, g1, i1);
    RankCoordinates(shape, mask, g2, i2);
    DecomposeInjective(g1, g2, UnmaskedShape(shape, mask));
    DecomposeInjective(i1, i2, MaskedShape(shape, mask));
  }

  /** The partition property: when the shape multiplies to the world size, the
      groups hold only ranks of [0, worldSize), no rank twice, and every rank. */
  lemma GroupsPartition(worldSize: nat, shape: seq<nat>, mask: seq<bool>)
    requires Positive(shape) && |mask| == |shape| && Product(shape) == worldSize
    ensures var gs := Groups(worldSize, shape, mask);
      forall g, i :: 0 <= g < |gs| && 0 <= i < |gs[g]| ==> gs[g][i] < worldSize
    ensures var gs := Groups(worldSize, shape, mask);
      forall g1, i1, g2, i2 ::
        (0 <= g1 < |gs| && 0 <= i1 < |gs[g1]| && 0 <= g2 < |gs| && 0 <= i2 < |gs[g2]| &&
         gs[g1][i1] == gs[g2][i2]) ==> g1 == g2 && i1 == i2
    ensures var gs := Groups(worldSize, shape, mask);
      forall x :: 0 <= x < worldSize ==> InGroups(gs, x)
  {
    var gs := Groups(worldSize, shape, mask);
    var ms, us := MaskedShape(shape, mask), UnmaskedShape(shape, mask);
    GroupCountExact(worldSize, shape, mask);
    assert |gs| == Product(us);
    assert forall g :: 0 <= g < |gs| ==> |gs[g]| == Product(ms);
    forall g, i | 0 <= g < |gs| && 0 <= i < |gs[g]| ensures gs[g][i] < worldSize {
      RankCoordinates(shape, mask, g, i);
    }
    forall g1, i1, g2, i2 |
      0 <= g1 < |gs| && 0 <= i1 < |gs[g1]| && 0 <= g2 < |gs| && 0 <= i2 < |gs[g2]| &&
      gs[g1][i1] == gs[g2][i2]
      ensures g1 == g2 && i1 == i2
    {
      RankOfInjective(shape, mask, g1, i1, g2, i2);
    }
    forall x | 0 <= x < worldSize ensures InGroups(gs, x) {
      RankOfCovers(shape, mask, x);
      var c := Decompose(x, shape);
      var g := InnerProduct(Filter(c, mask, false), Strides(us));
      var i := InnerProduct(Filter(c, mask, true), Strides(ms));
      assert gs[g][i] == x;
    }
  }

  /** Two ranks of the mesh share a group exactly when their coordinates on the
      unmasked axes agree; group g is the one whose index has those coordinates
      as digits. */
  lemma GroupMembership(worldSize: nat, shape: seq<nat>, mask: seq<bool>, x: nat, g: nat)
    requires Positive(shape) && |mask| == |shape| && Product(shape) == worldSize
    requires x < worldSize && g < |Groups(worldSize, shape, mask)|
    ensures
      x in Groups(worldSize, shape, mask)[g] <==>
      Filter(Decompose(x, shape), mask, false) == Decompose(g, UnmaskedShape(shape, mask))
  {
    var gs := Groups(worldSize, shape, mask);
    FilterPositive(shape, mask, true);
    FilterPositive(shape, mask, false);
    var ms, us := MaskedShape(shape, mask), UnmaskedShape(shape, mask);
    GroupCountExact(worldSize, shape, mask);
    if x in gs[g] {
      var i :| 0 <= i < |gs[g]| && gs[g][i] == x;
      RankCoordinates(shape, mask, g, i);
    }
    if Filter(Decompose(x, shape), mask, false) == Decompose(g, us) {
      RankOfCovers(shape, mask, x);
      var c := Decompose(x, shape);
      var g' := InnerProduct(Filter(c, mask, false), Strides(us));
      var i := InnerProduct(Filter(c, mask, true), Strides(ms));
      RankCoordinates(shape, mask, g', i);
      DecomposeInjective(g, g', us);
      assert gs[g][i] == x;
    }
  }

  /** The group that holds rank x: the one indexed by x's unmasked coordinates. */
  lemma GroupOf(worldSize: nat, shape: seq<nat>, mask: seq<bool>, x: nat) returns (g: nat)
    requires Positive(shape) && |mask| == |shape| && Product(shape) == worldSize && x < worldSize
    ensures g < |Groups(worldSize, shape, mask)| && x in Groups(worldSize, shape, mask)[g]
  {
    var gs := Groups(worldSize, shape, mask);
    var ms, us := MaskedShape(shape, mask), UnmaskedShape(shape, mask);
    GroupCountExact(worldSize, shape, mask);
    RankOfCovers(shape, mask, x);
    var c := Decompose(x, shape);
    g := InnerProduct(Filter(c, mask, false), Strides(us));
    var i := InnerProduct(Filter(c, mask, true), Strides(ms));
    GroupsAt(worldSize, shape, mask, g, i);
  }

  /** Two ranks of the mesh lie in a common group iff their unmasked coordinates agree. */
  lemma SameGroup(worldSize: nat, shape: seq<nat>, mask: seq<bool>, x: nat, y: nat)
    requires Positive(shape) && |mask| == |shape| && Product(shape) == worldSize
    requires x < worldSize && y < worldSize
    ensures (exists g :: 0 <= g < |Groups(worldSize, shape, mask)| &&
               x in Groups(worldSize, shape, mask)[g] && y in Groups(worldSize, shape, mask)[g]) <==>
            Filter(Decompose(x, shape), mask, false) == Filter(Decompose(y, shape), mask, false)
  {
    var gs := Groups(worldSize, shape, mask);
    FilterPositive(shape, mask, false);
    var us := UnmaskedShape(shape, mask);
    GroupCountExact(worldSize, shape, mask);
    if exists g :: 0 <= g < |gs| && x in gs[g] && y in gs[g] {
      var g :| 0 <= g < |gs| && x in gs[g] && y in gs[g];
      GroupMembership(worldSize, shape, mask, x, g);
      GroupMembership(worldSize, shape, mask, y, g);
    }
    if Filter(Decompose(x, shape), mask, false) == Filter(Decompose(y, shape), mask, false) {
      var g := GroupOf(worldSize, shape, mask, x);
      GroupMembership(worldSize, shape, mask, x, g);
      GroupMembership(worldSize, shape, mask, y, g);
    }
  }

  /** Orthogonality: the groups of a mask and the groups of its complement form a
      grid. Position i of group g for the mask is position g of group i for the
      complement, so each rank is identified by the pair of groups it lies in. */
  lemma GroupsTranspose(worldSize: nat, shape: seq<nat>, mask: seq<bool>)
    requires Positive(shape) && |mask| == |shape| && Product(shape) == worldSize
    ensures var gs, hs := Groups(worldSize, shape, mask), Groups(worldSize, shape, Complement(mask));
      |hs| == GroupSize(shape, mask) && (forall i :: 0 <= i < |hs| ==> |hs[i]| == |gs|) &&
      forall g, i :: 0 <= g < |gs| && 0 <= i < |gs[g]| ==> gs[g][i] == hs[i][g]
  {
    var cm := Complement(mask);
    var gs, hs := Groups(worldSize, shape, mask), Groups(worldSize, shape, cm);
    FilterComplement(shape, mask, true);
    FilterComplement(shape, mask, false);
    CountComplement(mask, true);
    CountComplement(mask, false);
    var ms, us := MaskedShape(shape, mask), UnmaskedShape(shape, mask);
    assert MaskedShape(shape, cm) == us && UnmaskedShape(shape, cm) == ms;
    GroupCountExact(worldSize, shape, mask);
    GroupCountExact(worldSize, shape, cm);
    forall g, i | 0 <= g < |gs| && 0 <= i < |gs[g]| ensures gs[g][i] == hs[i][g] {
      GroupsAt(worldSize, shape, mask, g, i);
      GroupsAt(worldSize, shape, cm, i, g);
      RankOfMerge(shape, mask, g, i);
      RankOfMerge(shape, cm, i, g);
      MergeComplement(Decompose(i, ms), Decompose(g, us), mask);
    }
  }
}
