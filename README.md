# Parallelism rank-group generator, modelled in Dafny

The parallelism group visualiser places the ranks of a training job on a mesh
with five axes. The axes are tensor (tp), expert (ep), data (dp), pipeline (pp)
and context (cp) parallelism. A user-supplied order such as `tp-cp-ep-dp-pp`
says which axis varies fastest. `RankGenerator` checks and completes that
order. It derives two orders with their size lists: one with ep as its own axis
(dp then contributes dp/ep), and one with ep folded into dp. It answers a
query such as `tp` with the groups of ranks that differ only along the queried
axes. The groups come from `generateMaskedOrthogonalRankGroups`, which works by
mixed-radix decomposition and recombination with row-major strides.

The model has five modules, one per layer of that code:

- `MeshIndexer` (`mesh_indexer.dfy`): `prefixProduct`, `innerProduct` and
  `decompose`, with the mixed-radix round trip in both directions.
- `Masks` (`masks.dfy`): the two `filter` calls that split a list by the
  mask, and the merge that undoes them.
- `RankGroups` (`rank_groups.dfy`): `generateMaskedOrthogonalRankGroups` as
  a method with its two nested loops. It is proved equal to a specification
  function. Lemmas about that function state what the groups mean: they
  partition the ranks, each group is identified by the coordinates of its
  ranks, and the groups of a mask and of its complement are each other's
  transpose.
- `RankTopology` (`rank_generator.dfy`): the `RankGenerator` class with its
  fields, its construction and its `getMask` and `getRanks` methods. It also
  holds the specification functions behind those methods: order completion,
  the derived orders and size lists, the query mask and the rank offset.
- `DefaultConfiguration` (`default_config.dfy`): the configuration the page
  starts with (tp = 2, ep = 1, dp = 2, pp = 2, cp = 1, order
  `tp-cp-ep-dp-pp`). It works out the tp, pp and dp groups this configuration
  produces.

Orders and queries are token sequences. An order is a sequence of `Axis`
values. A query is a sequence of strings, so a token that names no axis can
still be written. The model follows the code in places that may surprise a
reader:

- The ep/dp adjacency check runs on the order as given
  (`src/app/page.tsx:17`), before the absent dimensions are appended
  (`:25`). A completed order can therefore hold ep apart from dp
  (`CompletionMayBreakAdjacency`, `AdjacencyNotRechecked`).
- A query token that names no dimension of the order has index -1, and the
  write `mask[-1] = true` (`:52`) changes no entry of the mask
  (`MaskIgnoresUnknownToken`).
- The global stride table has one entry more than the mask, and its last
  entry reads an undefined mask bit, so it falls on the unmasked side
  (`:100-101`, `FilterPastMask`, `StrideSplit`).
- The generator's `worldSize` is `tp * dp * pp * cp` (`:12`), without ep.
  The page computes its own grid size with ep included (`:164`); that one
  is not part of the model.

## Model

| member | source | states |
|---|---|---|
| MeshIndexer.Product | src/app/page.tsx:103 | the product of a shape whose extents are all at least one is positive |
| MeshIndexer.ProductAppend | src/app/page.tsx:103 | the product of a concatenation is the product of the two products |
| MeshIndexer.PrefixProduct | src/app/page.tsx:75-82 | the loop builds the stride table: one entry more than the shape, starting at init, entry k is init times the product of the first k extents, the last is init times the whole product |
| MeshIndexer.PrefixProductsStep | src/app/page.tsx:75-82 | the stride table follows the loop's recurrence (each entry is the previous one times one extent) and ends at init times the product |
| MeshIndexer.Strides | src/app/page.tsx:90 | the strides of a shape have one entry per axis plus one, all positive for a positive shape |
| MeshIndexer.StridesCons | src/app/page.tsx:75-82 | the strides of a shape start at 1 and are the first extent times the strides of the rest |
| MeshIndexer.InnerProduct | src/app/page.tsx:84-86 | the sum of the elementwise products; it requires the second list to be at least as long as the first, which both call sites at :113-114 meet (StrideSplit gives the stride lists those lengths); what the sum means is stated by InnerProductTerms, InnerProductPrefix and the round-trip lemmas |
| MeshIndexer.InnerProductTerms | src/app/page.tsx:84-86 | every term of the sum is at most the sum, and the sum is 0 when the first list is all zeros |
| MeshIndexer.InnerProductPrefix | src/app/page.tsx:84-86 | entries of the second argument beyond the length of the first are never read |
| MeshIndexer.Decompose | src/app/page.tsx:88-94 | every digit of decompose lies inside its axis |
| MeshIndexer.DecomposeCons | src/app/page.tsx:88-94 | the first digit is index mod the first extent, and the rest are the digits of index div that extent over the remaining axes |
| MeshIndexer.RoundTrip | src/app/page.tsx:84-94 | recombining the digits of any index with the strides gives the index mod the size of the shape |
| MeshIndexer.RoundTripInRange | src/app/page.tsx:84-94 | for an index inside the shape, recombining its digits gives the index back |
| MeshIndexer.DecomposeInner | src/app/page.tsx:84-94 | a coordinate vector inside the shape recombines to an index inside the shape whose digits are that vector |
| MeshIndexer.DecomposeInjective | src/app/page.tsx:88-94 | two indices inside the shape with equal digits are equal |
| Masks.Count | src/app/page.tsx:96-97 | the number of mask entries of one value is at most the mask length |
| Masks.Filter | src/app/page.tsx:96-101 | the filtered list is no longer than the list, and has one entry per matching mask bit when the lengths agree |
| Masks.CountSplit | src/app/page.tsx:96-97 | the true and false entries of a mask add up to its length |
| Masks.FilterPositive | src/app/page.tsx:96-97 | filtering a shape of positive extents gives a shape of positive extents |
| Masks.FilterPastMask | src/app/page.tsx:99-101 | an entry past the end of the mask always goes to the unmasked side |
| Masks.Merge | src/app/page.tsx:96-101 | interleaving the two halves along the mask gives a list as long as the mask |
| Masks.FilterMerge | src/app/page.tsx:96-101 | filtering a merged list on either side gives back that side's half |
| Masks.MergeFilter | src/app/page.tsx:96-101 | merging the two filtered halves gives back the list |
| Masks.FilterBounded | src/app/page.tsx:96-97 | a coordinate vector inside the shape stays inside after both are filtered |
| Masks.MergeBounded | src/app/page.tsx:96-97 | two coordinate vectors inside the two halves of a shape merge into one inside the shape |
| Masks.InnerSplit | src/app/page.tsx:112-115 | an inner product is the sum of the inner products of its masked and unmasked halves |
| Masks.ProductSplit | src/app/page.tsx:103-104 | the size of a shape is the group size times the product of the unmasked extents |
| Masks.Complement | src/app/page.tsx:96-97 | the complementary mask has the same length |
| Masks.FilterComplement | src/app/page.tsx:96-97 | filtering with the complementary mask selects the other side |
| Masks.CountComplement | src/app/page.tsx:96-97 | the complementary mask has as many true entries as the mask has false ones |
| Masks.MergeComplement | src/app/page.tsx:96-101 | merging along the complementary mask with the halves swapped gives the same list |
| RankGroups.MaskedShape | src/app/page.tsx:96 | the masked shape of a positive shape is positive |
| RankGroups.UnmaskedShape | src/app/page.tsx:97 | the unmasked shape of a positive shape is positive |
| RankGroups.GroupSize | src/app/page.tsx:103 | every group holds at least one rank |
| RankGroups.StrideSplit | src/app/page.tsx:99-101 | the masked strides are the strides of the masked axes; the unmasked strides are those of the unmasked axes followed by the size of the whole mesh |
| RankGroups.GenerateMaskedOrthogonalRankGroups | src/app/page.tsx:74-120 | the nested loops return floor(worldSize / groupSize) groups of groupSize ranks, rank i of group g being the recombination of the digits of i over the masked axes and of g over the unmasked axes |
| RankGroups.RankOfMerge | src/app/page.tsx:108-115 | each rank is the full coordinate vector (in-group digits on masked axes, group digits on unmasked axes) recombined with the global strides |
| RankGroups.RankCoordinates | src/app/page.tsx:108-115 | each generated rank lies inside the mesh; its masked coordinates are the digits of its position and its unmasked coordinates the digits of its group index |
| RankGroups.RankOfCovers | src/app/page.tsx:106-119 | every rank of the mesh is generated, at the position and in the group its coordinates give |
| RankGroups.GroupsAt | src/app/page.tsx:106-119 | entry i of group g of the output is the rank for that group and position |
| RankGroups.GroupCountExact | src/app/page.tsx:103-104 | when the shape multiplies to the world size, the division is exact and the number of groups is the product of the unmasked extents |
| RankGroups.RankOfInjective | src/app/page.tsx:106-119 | distinct group and position pairs give distinct ranks |
| RankGroups.GroupsPartition | src/app/page.tsx:74-120 | when the shape multiplies to the world size, the groups hold only ranks below worldSize, none twice, and all of them |
| RankGroups.GroupMembership | src/app/page.tsx:74-120 | a rank lies in group g exactly when its unmasked coordinates are the digits of g |
| RankGroups.GroupOf | src/app/page.tsx:74-120 | every rank lies in some group |
| RankGroups.SameGroup | src/app/page.tsx:74-120 | two ranks share a group exactly when their coordinates on the unmasked axes agree |
| RankGroups.GroupsTranspose | src/app/page.tsx:74-120 | the groups of a mask and of its complement are transposes: position i of group g is position g of group i, so each rank is identified by its pair of groups |
| RankTopology.Name | src/app/page.tsx:14 | each dimension's token has two letters |
| RankTopology.NameInjective | src/app/page.tsx:14 | distinct dimensions have distinct tokens |
| RankTopology.VisitIndex | src/app/page.tsx:14 | each dimension has a position in the visiting order tp, pp, dp, ep, cp |
| RankTopology.FirstUnspecified | src/app/page.tsx:21-27 | the first dimension, in visiting order, that is absent from the order and has a size other than 1, if there is one |
| RankTopology.Completion | src/app/page.tsx:17-27 | the adjacency error carries the order as given, which holds ep; a missing-dimension error names a dimension absent from the order whose size is not 1, with the order as extended so far; success keeps the given order as a prefix |
| RankTopology.CompleteOrder | src/app/page.tsx:17-27 | the adjacency check and the completion loop produce the result of Completion |
| RankTopology.CompletionStep | src/app/page.tsx:21-26 | one step of the loop: a dimension is in the order extended so far exactly when it is in the given order, and it is appended exactly when it is absent |
| RankTopology.CompletionFailures | src/app/page.tsx:17-27 | the adjacency failure happens exactly when the order holds ep without dp beside it; construction succeeds exactly when, in addition, every dimension of size other than 1 is named; the missing-dimension failure names the first such absent dimension and its size |
| RankTopology.CompletionAppends | src/app/page.tsx:21-27 | on success the given tokens are kept, every dimension is present, and the appended tokens are the absent dimensions, each of size 1, each once, in visiting order |
| RankTopology.MissingAmongMembers | src/app/page.tsx:21-27 | the appended dimensions are exactly those visited and absent from the order |
| RankTopology.MissingAmongOrdered | src/app/page.tsx:21-27 | the appended dimensions come in visiting order |
| RankTopology.CompletionMayBreakAdjacency | src/app/page.tsx:17-27 | a completed order always holds ep, and ep can stand apart from dp in it only when ep was appended with size 1 |
| RankTopology.AdjacencyNotRechecked | src/app/page.tsx:17-27 | with ep = 1, the order dp-pp-tp completes to dp-pp-tp-ep-cp, in which ep is not next to dp |
| RankTopology.FailureExamples | src/app/page.tsx:17-23 | tp-ep-pp-dp fails the adjacency check, and tp-pp with dp = 2 fails on dp |
| RankTopology.WithoutEp | src/app/page.tsx:30 | orderWithoutEp holds no ep token |
| RankTopology.AxisSize | src/app/page.tsx:34-44 | an axis contributes at most its own size, exactly its own size unless it is dp with ep kept as its own axis, and, when ep divides dp, a positive size, dp's being the one that times ep gives dp |
| RankTopology.DivBounds | src/app/page.tsx:36 | dp/ep is at most dp, and when ep divides dp it is positive and times ep gives dp |
| RankTopology.OrderedSizeWithEp | src/app/page.tsx:29-44 | orderedSizeWithEp has one size per token of the completed order |
| RankTopology.OrderedSizeWithEpEntries | src/app/page.tsx:34-43 | in orderedSizeWithEp each axis other than dp has its own size, and dp the size that times ep gives dp when ep divides dp |
| RankTopology.OrderedSizeWithoutEp | src/app/page.tsx:30-44 | orderedSizeWithoutEp has one size per token of orderWithoutEp |
| RankTopology.OrderedSizeWithoutEpEntries | src/app/page.tsx:34-43 | no token of orderWithoutEp is ep, and each entry of orderedSizeWithoutEp is the axis's own size, dp's included |
| RankTopology.SizesAlong | src/app/page.tsx:34-44 | each size list has one entry per token of its order |
| RankTopology.DivPositive | src/app/page.tsx:36 | when ep divides dp, dp/ep is a positive size that times ep gives dp |
| RankTopology.SizesPositive | src/app/page.tsx:34-44 | when ep divides dp, every size in either list is at least one |
| RankTopology.SizesAlongAppend | src/app/page.tsx:34-44 | the sizes of a concatenated order are the concatenated sizes |
| RankTopology.SizesAlongPermutation | src/app/page.tsx:34-44 | orders that are permutations of each other have size lists with the same product |
| RankTopology.WithoutEpMultiset | src/app/page.tsx:30 | removing ep removes every ep token and keeps every other token as often as before |
| RankTopology.SizesMatchWorldSize | src/app/page.tsx:12 | for an order naming each dimension once with ep dividing dp, both size lists multiply to worldSize = tp * dp * pp * cp |
| RankTopology.CompletionNoDuplicates | src/app/page.tsx:21-27 | completing an order without repeats yields an order without repeats |
| RankTopology.CompletionIsPermutation | src/app/page.tsx:21-27 | completing an order without repeats yields a permutation of the five dimensions |
| RankTopology.IndexOf | src/app/page.tsx:52 | indexOf gives -1 exactly when no token matches, and otherwise the first matching position |
| RankTopology.Mask | src/app/page.tsx:47-55 | the mask has one entry per order token |
| RankTopology.MaskPositions | src/app/page.tsx:47-55 | the mask is true exactly at the first occurrence of each dimension the query names |
| RankTopology.MaskOfDistinctOrder | src/app/page.tsx:47-55 | for an order without repeats, a position is masked exactly when the query names its dimension |
| RankTopology.MaskIgnoresUnknownToken | src/app/page.tsx:52 | a query token that names no dimension of the order leaves the mask unchanged |
| RankTopology.Shift | src/app/page.tsx:63-69 | the shifted groups have the same count and lengths, each rank increased by the offset |
| RankTopology.ShiftNone | src/app/page.tsx:63 | without an offset the groups are returned as generated |
| RankTopology.ShiftPartitions | src/app/page.tsx:63-69 | shifting a partition of 0..n-1 by k gives a partition of k..k+n-1 |
| RankTopology.AddRankOffset | src/app/page.tsx:63-69 | the nested offset loop computes Shift |
| RankTopology.RankGenerator.FromCompletedOrder | src/app/page.tsx:29-44 | the size loop over the completed order produces orderedSizeWithEp and orderedSizeWithoutEp |
| RankTopology.RankGenerator.Create | src/app/page.tsx:5-45 | construction fails with the completion's error, or yields a fresh valid generator over the completed order |
| RankTopology.RankGenerator.GetMask | src/app/page.tsx:47-55 | the array loop computes Mask |
| RankTopology.RankGenerator.ParallelSizeFits | src/app/page.tsx:58-59 | the size list a query uses is positive and as long as its order |
| RankTopology.RankGenerator.GetRanks | src/app/page.tsx:57-71 | the groups for the query's mask over the chosen order and sizes, moved up by rankOffset when that is positive |
| RankTopology.RankGenerator.RanksPartition | src/app/page.tsx:57-71 | for an order naming each dimension once, the groups of any query partition the ranks offset .. offset + worldSize - 1 |
| DefaultConfiguration.DefaultCompletion | src/app/page.tsx:140-145 | the default order is complete and passes the adjacency check |
| DefaultConfiguration.DefaultSizeLists | src/app/page.tsx:29-44 | for the default configuration, orderWithoutEp is tp-cp-dp-pp with sizes 2, 1, 2, 2, and the sizes with ep are 2, 1, 1, 2, 2 |
| DefaultConfiguration.DefaultStrides | src/app/page.tsx:99 | the strides of tp-cp-dp-pp are 1, 2, 2, 4, 8 |
| DefaultConfiguration.TensorGroups | src/app/page.tsx:74-120 | with the default shape, the tp mask groups the ranks as [0,1], [2,3], [4,5], [6,7] |
| DefaultConfiguration.PipelineGroups | src/app/page.tsx:74-120 | the pp mask groups them as [0,4], [1,5], [2,6], [3,7] |
| DefaultConfiguration.DataGroups | src/app/page.tsx:74-120 | the dp mask groups them as [0,2], [1,3], [4,6], [5,7] |
| DefaultConfiguration.DefaultRanks | src/app/page.tsx:57-71 | a default-built generator answers a query with ep folded into dp with the groups of the default shape under the query's mask |
| DefaultConfiguration.DefaultScenario | src/app/page.tsx:163-165 | building the default generator and querying tp, pp and dp returns the three tables above |

## Left out

- The page component is not part of this model: the React state, the form, `updateGrid`'s grid colouring, `generateColor` and `calculateSizeAndStride`. They draw the result and compute nothing the generator relies on.
- Order strings are not parsed. The lower-casing, the `split('-')` and `join('-')` and the substring tests are left out. The order is a sequence of dimensions and the query is a sequence of tokens. For an order made of the five tokens joined by `-`, a substring test such as `includes('ep-dp')` means the same as sequence adjacency.
- An order string with tokens that name no dimension is not modelled. Nor is the empty order string, whose completion string starts with `-` and so yields an empty first token. The source gives those tokens undefined sizes.
- RankTopology.RankGenerator.Create: requires ep to divide dp. Otherwise the source stores the fractional size dp/ep, and floating point is not modelled. FromCompletedOrder carries the same precondition.
- RankTopology.Size: the sizes are positive integers. The source accepts whatever numbers the form passes and does not check them.
- `decompose`'s optional `stride` argument is never passed by its callers, so Decompose always uses the shape's own strides.
- The page's own `worldSize`, which includes ep, only drives the grid drawing and is left out. The generator's `tp * dp * pp * cp` is modelled.
- GetRanks adds the offset to the group arrays in place. The model does this on sequence values (AddRankOffset returns the shifted groups), so aliasing of those arrays is not captured.
- Thrown errors are modelled as the `Err` case of a `Result`. Rendering the error message is left out.
- Repeated tokens in an order are allowed, as in the source. The partition results assume an order that names each dimension once, which completion ensures for orders without repeats (CompletionIsPermutation).
