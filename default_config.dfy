/** The configuration the visualiser starts with: tp = 2, ep = 1, dp = 2, pp = 2,
    cp = 1 and the order tp-cp-ep-dp-pp, with no rank offset. */
module DefaultConfiguration {
  import opened MeshIndexer
  import opened Masks
  import opened RankGroups
  import opened RankTopology

  const DefaultSizes := Sizes(2, 1, 2, 2, 1)
  const DefaultOrder := [TP, CP, EP, DP, PP]

  /** The shape the queries without an independent ep axis use: orderWithoutEp is
      tp-cp-dp-pp with sizes 2, 1, 2, 2. */
  const DefaultShape: seq<nat> := [2, 1, 2, 2]

  /** The default order is complete and passes the adjacency check. */
  lemma DefaultCompletion()
    ensures Completion(DefaultSizes, DefaultOrder) == Ok(DefaultOrder)
  {
    assert Adjacent(DefaultOrder, EP, DP) by {
      assert DefaultOrder[2] == EP && DefaultOrder[3] == DP;
    }
    var s, o := DefaultSizes, DefaultOrder;
    assert FirstUnspecified(s, o, 4) == 5;
    assert FirstUnspecified(s, o, 3) == 5;
    assert FirstUnspecified(s, o, 2) == 5;
    assert FirstUnspecified(s, o, 1) == 5;
    assert FirstUnspecified(s, o, 0) == 5;
    assert [CP][1..] == [];
    assert MissingAmong([CP], o) == [];
    assert [EP, CP][1..] == [CP];
    assert MissingAmong([EP, CP], o) == [];
    assert [DP, EP, CP][1..] == [EP, CP];
    assert MissingAmong([DP, EP, CP], o) == [];
    assert [PP, DP, EP, CP][1..] == [DP, EP, CP];
    assert MissingAmong([PP, DP, EP, CP], o) == [];
    assert Dimensions[1..] == [PP, DP, EP, CP];
    assert MissingAmong(Dimensions, o) == [];
    assert o + [] == o;
  }

  /** Dropping ep leaves tp-cp-dp-pp, with sizes 2, 1, 2, 2 (and 2, 1, 1, 2, 2 with
      ep kept as its own axis). */
  lemma DefaultSizeLists()
    ensures WithoutEp(DefaultOrder) == [TP, CP, DP, PP]
    ensures OrderedSizeWithoutEp(DefaultSizes, DefaultOrder) == DefaultShape
    ensures OrderedSizeWithEp(DefaultSizes, DefaultOrder) == [2, 1, 1, 2, 2]
  {
    DefaultWithoutEp();
    var without := OrderedSizeWithoutEp(DefaultSizes, DefaultOrder);
    assert without[0] == 2 && without[1] == 1 && without[2] == 2 && without[3] == 2;
    var with := OrderedSizeWithEp(DefaultSizes, DefaultOrder);
    assert with[0] == 2 && with[1] == 1 && with[2] == 1 && with[3] == 2 && with[4] == 2;
  }

  lemma DefaultWithoutEp()
    ensures WithoutEp(DefaultOrder) == [TP, CP, DP, PP]
  {
    assert DefaultOrder[..4] == [TP, CP, EP, DP];
    assert [TP, CP, EP, DP][..3] == [TP, CP, EP];
    assert [TP, CP, EP][..2] == [TP, CP];
    assert [TP, CP][..1] == [TP];
    assert [TP][..0] == [];
    assert WithoutEp([TP]) == [TP];
    assert WithoutEp([TP, CP]) == [TP, CP];
    assert WithoutEp([TP, CP, EP]) == [TP, CP];
    assert WithoutEp([TP, CP, EP, DP]) == [TP, CP, DP];
  }

  /** The strides of tp-cp-dp-pp are 1, 2, 2, 4, 8. */
  lemma DefaultStrides()
    ensures Strides(DefaultShape) == [1, 2, 2, 4, 8]
  {
    PrefixProductsStep(DefaultShape, 1);
  }

  // ---------------------------------------------------------------------------
  // Evaluating the generic definitions on four axes.

  function Pick(x: nat, bit: bool, keep: bool): seq<nat> {
    if bit == keep then [x] else []
  }

  lemma FilterCons(s: seq<nat>, m: seq<bool>, keep: bool)
    requires |s| > 0 && |m| > 0
    ensures Filter(s, m, keep) == Pick(s[0], m[0], keep) + Filter(s[1..], m[1..], keep)
  {
  }

  lemma FilterFour(s: seq<nat>, m: seq<bool>, keep: bool)
    requires |s| == 4 && |m| == 4
    ensures Filter(s, m, keep) == Pick(s[0], m[0], keep) + Pick(s[1], m[1], keep) + Pick(s[2], m[2], keep) + Pick(s[3], m[3], keep)
  {
    var s1, m1 := s[1..], m[1..];
    var s2, m2 := s1[1..], m1[1..];
    var s3, m3 := s2[1..], m2[1..];
    FilterCons(s, m, keep);
    FilterCons(s1, m1, keep);
    FilterCons(s2, m2, keep);
    FilterCons(s3, m3, keep);
    assert s3[1..] == [];
  }

  /** The stride table has one entry more than the mask; the last one goes to the
      unmasked side. */
  lemma FilterStrides(s: seq<nat>, m: seq<bool>, keep: bool)
    requires |s| == 5 && |m| == 4
    ensures Filter(s, m, keep) ==
      Pick(s[0], m[0], keep) + Pick(s[1], m[1], keep) + Pick(s[2], m[2], keep) + Pick(s[3], m[3], keep) +
      Pick(s[4], false, keep)
  {
    assert s == s[..4] + [s[4]];
    FilterPastMask(s[..4], m, s[4], keep);
    FilterFour(s[..4], m, keep);
  }

  lemma InnerOne(a: seq<nat>, b: seq<nat>)
    requires |a| == 1 && |b| >= 1
    ensures InnerProduct(a, b) == a[0] * b[0]
  {
    assert a[1..] == [];
  }

  lemma InnerThree(a: seq<nat>, b: seq<nat>)
    requires |a| == 3 && |b| >= 3
    ensures InnerProduct(a, b) == a[0] * b[0] + a[1] * b[1] + a[2] * b[2]
  {
    var a1, b1 := a[1..], b[1..];
    var a2, b2 := a1[1..], b1[1..];
    assert a2[1..] == [];
    assert InnerProduct(a2, b2) == a[2] * b[2];
    assert InnerProduct(a1, b1) == a[1] * b[1] + InnerProduct(a2, b2);
  }

  lemma SmallStrides()
    ensures Strides([2]) == [1, 2]
    ensures Strides([1, 2, 2]) == [1, 1, 2, 4]
    ensures Strides([2, 1, 2]) == [1, 2, 2, 4]
  {
    PrefixProductsStep([2], 1);
    PrefixProductsStep([1, 2, 2], 1);
    PrefixProductsStep([2, 1, 2], 1);
  }

  /** Group g, position r of the default layout's groups, given the rank formula. */
  lemma GroupsFromFormula(m: seq<bool>, expected: seq<seq<nat>>)
    requires |m| == 4 && GroupSize(DefaultShape, m) == 2
    requires |expected| == 4 && forall g :: 0 <= g < 4 ==> |expected[g]| == 2
    requires forall g, r :: 0 <= g < 4 && 0 <= r < 2 ==> RankOf(DefaultShape, m, g, r) == expected[g][r]
    ensures Groups(8, DefaultShape, m) == expected
  {
    var actual := Groups(8, DefaultShape, m);
    forall g | 0 <= g < 4 ensures actual[g] == expected[g] {
      assert actual[g] == [RankOf(DefaultShape, m, g, 0), RankOf(DefaultShape, m, g, 1)];
    }
  }

  /** The facts about the default shape that every query below uses. */
  lemma DefaultQuery(m: seq<bool>, masked: nat, mStride: nat, unmasked: seq<nat>, uStrides: seq<nat>, digits: seq<nat>, g: nat, r: nat)
    requires |m| == 4 && |unmasked| == 3 && |uStrides| == 4
    requires masked > 0 && Positive(unmasked) && Strides(unmasked) == digits
    requires Filter(DefaultShape, m, true) == [masked] && Filter(DefaultShape, m, false) == unmasked
    requires Filter(Strides(DefaultShape), m, true) == [mStride]
    requires Filter(Strides(DefaultShape), m, false) == uStrides
    ensures RankOf(DefaultShape, m, g, r) ==
      (r % masked) * mStride +
      ((g / digits[0]) % unmasked[0]) * uStrides[0] +
      ((g / digits[1]) % unmasked[1]) * uStrides[1] +
      ((g / digits[2]) % unmasked[2]) * uStrides[2]
  {
    assert Positive(DefaultShape);
    var dm := Decompose(r, [masked]);
    var du := Decompose(g, unmasked);
    assert Strides([masked])[0] == 1;
    assert dm[0] == r % masked;
    InnerOne(dm, [mStride]);
    InnerThree(du, uStrides);
  }

  /** The digit sums of the three queries below, evaluated. */
  lemma DigitArithmetic(g: nat, r: nat)
    requires g < 4 && r < 2
    ensures (r % 2) * 1 + ((g / 1) % 1) * 2 + ((g / 1) % 2) * 2 + ((g / 2) % 2) * 4 ==
            [[0, 1], [2, 3], [4, 5], [6, 7]][g][r]
    ensures (r % 2) * 4 + ((g / 1) % 2) * 1 + ((g / 2) % 1) * 2 + ((g / 2) % 2) * 2 ==
            [[0, 4], [1, 5], [2, 6], [3, 7]][g][r]
    ensures (r % 2) * 2 + ((g / 1) % 2) * 1 + ((g / 2) % 1) * 2 + ((g / 2) % 2) * 4 ==
            [[0, 2], [1, 3], [4, 6], [5, 7]][g][r]
  {
  }

  const TensorMask: seq<bool> := [true, false, false, false]

  /** The query "tp" masks only the tp position of tp-cp-dp-pp. */
  lemma TensorMaskOf()
    ensures Mask([TP, CP, DP, PP], ["tp"]) == TensorMask
  {
    MaskOfDistinctOrder([TP, CP, DP, PP], ["tp"]);
  }

  /** How the mask of "tp" splits the default shape and its strides. */
  lemma TensorSplit()
    ensures Filter(DefaultShape, TensorMask, true) == [2]
    ensures Filter(DefaultShape, TensorMask, false) == [1, 2, 2]
    ensures Filter(Strides(DefaultShape), TensorMask, true) == [1]
    ensures Filter(Strides(DefaultShape), TensorMask, false) == [2, 2, 4, 8]
  {
    DefaultStrides();
    FilterStrides(Strides(DefaultShape), TensorMask, true);
    FilterStrides(Strides(DefaultShape), TensorMask, false);
    FilterFour(DefaultShape, TensorMask, true);
    FilterFour(DefaultShape, TensorMask, false);
  }

  lemma TensorRank(g: nat, r: nat)
    requires g < 4 && r < 2
    ensures RankOf(DefaultShape, TensorMask, g, r) == [[0, 1], [2, 3], [4, 5], [6, 7]][g][r]
  {
    TensorSplit();
    SmallStrides();
    DefaultQuery(TensorMask, 2, 1, [1, 2, 2], [2, 2, 4, 8], [1, 1, 2, 4], g, r);
    DigitArithmetic(g, r);
  }

  /** With ep folded into dp, the query "tp" pairs neighbouring ranks. */
  lemma TensorGroups()
    ensures Groups(8, DefaultShape, TensorMask) == [[0, 1], [2, 3], [4, 5], [6, 7]]
  {
    var expected := [[0, 1], [2, 3], [4, 5], [6, 7]];
    forall g, r | 0 <= g < 4 && 0 <= r < 2 ensures RankOf(DefaultShape, TensorMask, g, r) == expected[g][r] {
      TensorRank(g, r);
    }
    TensorSplit();
    assert Product([2]) == 2;
    GroupsFromFormula(TensorMask, expected);
  }

  const PipelineMask: seq<bool> := [false, false, false, true]

  /** The query "pp" masks only the pp position of tp-cp-dp-pp. */
  lemma PipelineMaskOf()
    ensures Mask([TP, CP, DP, PP], ["pp"]) == PipelineMask
  {
    MaskOfDistinctOrder([TP, CP, DP, PP], ["pp"]);
  }

  /** How the mask of "pp" splits the default shape and its strides. */
  lemma PipelineSplit()
    ensures Filter(DefaultShape, PipelineMask, true) == [2]
    ensures Filter(DefaultShape, PipelineMask, false) == [2, 1, 2]
    ensures Filter(Strides(DefaultShape), PipelineMask, true) == [4]
    ensures Filter(Strides(DefaultShape), PipelineMask, false) == [1, 2, 2, 8]
  {
    DefaultStrides();
    FilterStrides(Strides(DefaultShape), PipelineMask, true);
    FilterStrides(Strides(DefaultShape), PipelineMask, false);
    FilterFour(DefaultShape, PipelineMask, true);
    FilterFour(DefaultShape, PipelineMask, false);
  }

  lemma PipelineRank(g: nat, r: nat)
    requires g < 4 && r < 2
    ensures RankOf(DefaultShape, PipelineMask, g, r) == [[0, 4], [1, 5], [2, 6], [3, 7]][g][r]
  {
    PipelineSplit();
    SmallStrides();
    DefaultQuery(PipelineMask, 2, 4, [2, 1, 2], [1, 2, 2, 8], [1, 2, 2, 4], g, r);
    DigitArithmetic(g, r);
  }

  /** The query "pp" joins rank i with rank i + 4, a pipeline stage further on. */
  lemma PipelineGroups()
    ensures Groups(8, DefaultShape, PipelineMask) == [[0, 4], [1, 5], [2, 6], [3, 7]]
  {
    var expected := [[0, 4], [1, 5], [2, 6], [3, 7]];
    forall g, r | 0 <= g < 4 && 0 <= r < 2 ensures RankOf(DefaultShape, PipelineMask, g, r) == expected[g][r] {
      PipelineRank(g, r);
    }
    PipelineSplit();
    assert Product([2]) == 2;
    GroupsFromFormula(PipelineMask, expected);
  }

  const DataMask: seq<bool> := [false, false, true, false]

  /** The query "dp" masks only the dp position of tp-cp-dp-pp. */
  lemma DataMaskOf()
    ensures Mask([TP, CP, DP, PP], ["dp"]) == DataMask
  {
    MaskOfDistinctOrder([TP, CP, DP, PP], ["dp"]);
  }

  /** How the mask of "dp" splits the default shape and its strides. */
  lemma DataSplit()
    ensures Filter(DefaultShape, DataMask, true) == [2]
    ensures Filter(DefaultShape, DataMask, false) == [2, 1, 2]
    ensures Filter(Strides(DefaultShape), DataMask, true) == [2]
    ensures Filter(Strides(DefaultShape), DataMask, false) == [1, 2, 4, 8]
  {
    DefaultStrides();
    FilterStrides(Strides(DefaultShape), DataMask, true);
    FilterStrides(Strides(DefaultShape), DataMask, false);
    FilterFour(DefaultShape, DataMask, true);
    FilterFour(DefaultShape, DataMask, false);
  }

  lemma DataRank(g: nat, r: nat)
    requires g < 4 && r < 2
    ensures RankOf(DefaultShape, DataMask, g, r) == [[0, 2], [1, 3], [4, 6], [5, 7]][g][r]
  {
    DataSplit();
    SmallStrides();
    DefaultQuery(DataMask, 2, 2, [2, 1, 2], [1, 2, 4, 8], [1, 2, 2, 4], g, r);
    DigitArithmetic(g, r);
  }

  /** The query "dp" joins ranks two apart inside each pipeline stage. */
  lemma DataGroups()
    ensures Groups(8, DefaultShape, DataMask) == [[0, 2], [1, 3], [4, 6], [5, 7]]
  {
    var expected := [[0, 2], [1, 3], [4, 6], [5, 7]];
    forall g, r | 0 <= g < 4 && 0 <= r < 2 ensures RankOf(DefaultShape, DataMask, g, r) == expected[g][r] {
      DataRank(g, r);
    }
    DataSplit();
    assert Product([2]) == 2;
    GroupsFromFormula(DataMask, expected);
  }

  /** A generator built from the default configuration answers a query (ep folded
      into dp) with the groups of the default shape under that query's mask. */
  lemma DefaultRanks(generator: RankGenerator, tokens: seq<string>, mask: seq<bool>)
    requires generator.Valid() && generator.order == DefaultOrder
    requires generator.NameToSize() == DefaultSizes && generator.rankOffset == 0
    requires |mask| == 4 && Mask([TP, CP, DP, PP], tokens) == mask
    ensures generator.Ranks(tokens, false) == Groups(8, DefaultShape, mask)
  {
    DefaultSizeLists();
    assert generator.worldSize == 8;
    ShiftNone(Groups(8, DefaultShape, mask));
  }

  /** The visualiser's start-up: construct the generator for the default
      configuration and ask for the tp, pp and dp groups (ep folded into dp). */
  method DefaultScenario() returns (tensor: seq<seq<nat>>, pipeline: seq<seq<nat>>, data: seq<seq<nat>>)
    ensures tensor == [[0, 1], [2, 3], [4, 5], [6, 7]]
    ensures pipeline == [[0, 4], [1, 5], [2, 6], [3, 7]]
    ensures data == [[0, 2], [1, 3], [4, 6], [5, 7]]
  {
    DefaultCompletion();
    var created := RankGenerator.Create(2, 1, 2, 2, 1, DefaultOrder, 0);
    var generator := created.value;
    TensorMaskOf();
    TensorGroups();
    DefaultRanks(generator, ["tp"], TensorMask);
    tensor := generator.GetRanks(["tp"], false);
    PipelineMaskOf();
    PipelineGroups();
    DefaultRanks(generator, ["pp"], PipelineMask);
    pipeline := generator.GetRanks(["pp"], false);
    DataMaskOf();
    DataGroups();
    DefaultRanks(generator, ["dp"], DataMask);
    data := generator.GetRanks(["dp"], false);
  }
}
