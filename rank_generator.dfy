/** The RankGenerator class: five parallelism sizes and a dimension order, the
    validation and completion of that order, the two derived orders with their
    size lists, and the group queries built on generateMaskedOrthogonalRankGroups. */
module RankTopology {
  import opened MeshIndexer
  import opened Masks
  import opened RankGroups

  /** The five parallelism dimensions: tensor, expert, data, pipeline, context. */
  datatype Axis = TP | EP | DP | PP | CP

  /** The token that names a dimension in an order string. */
  function Name(a: Axis): (t: string)
    ensures |t| == 2
  {
    match a
    case TP => "tp"
    case EP => "ep"
    case DP => "dp"
    case PP => "pp"
    case CP => "cp"
  }

  lemma NameInjective(a: Axis, b: Axis)
    ensures Name(a) == Name(b) <==> a == b
  {
    if a != b {
      assert Name(a)[0] != Name(b)[0];
    }
  }

  /** The dimensions in the order the constructor visits them: the insertion order
      of its name-to-size table. */
  const Dimensions: seq<Axis> := [TP, PP, DP, EP, CP]

  /** The position of a dimension in that visiting order. */
  function VisitIndex(a: Axis): (i: nat)
    ensures i < |Dimensions| && Dimensions[i] == a
  {
    match a
    case TP => 0
    case PP => 1
    case DP => 2
    case EP => 3
    case CP => 4
  }

  /** A parallelism size. */
  type Size = n: nat | n > 0 witness 1

  /** The name-to-size table. */
  datatype Sizes = Sizes(tp: Size, ep: Size, dp: Size, pp: Size, cp: Size)

  function SizeOf(s: Sizes, a: Axis): Size {
    match a
    case TP => s.tp
    case EP => s.ep
    case DP => s.dp
    case PP => s.pp
    case CP => s.cp
  }

  /** The construction failures: ep present but not next to dp, and a dimension of
      size other than 1 absent from the order (reported with the order as extended
      so far). */
  datatype ConfigError =
    | OrderConstraintError(order: seq<Axis>)
    | MissingDimensionError(name: Axis, size: nat, order: seq<Axis>)

  datatype Result<T, E> = Ok(value: T) | Err(error: E)

  predicate NoDuplicates(o: seq<Axis>) {
    forall i, j :: 0 <= i < j < |o| ==> o[i] != o[j]
  }

  /** Token a is immediately followed by token b somewhere in o (the order string
      contains "a-b"). */
  predicate Adjacent(o: seq<Axis>, a: Axis, b: Axis) {
    exists k :: 0 <= k < |o| - 1 && o[k] == a && o[k + 1] == b
  }

  predicate EpDpAdjacent(o: seq<Axis>) {
    Adjacent(o, EP, DP) || Adjacent(o, DP, EP)
  }

  // ---------------------------------------------------------------------------
  // Completing the order.

  /** The dimensions of names that are absent from o, in the order of names. */
  function MissingAmong(names: seq<Axis>, o: seq<Axis>): seq<Axis> {
    if names == [] then []
    else (if names[0] in o then [] else [names[0]]) + MissingAmong(names[1..], o)
  }

  /** A dimension the order must name: its size is not 1 and it is absent. */
  predicate Unspecified(s: Sizes, o: seq<Axis>, a: Axis) {
    a !in o && SizeOf(s, a) != 1
  }

  /** The first position, from j on, of the visiting order that is unspecified
      (5 if there is none). */
  function FirstUnspecified(s: Sizes, o: seq<Axis>, j: nat): (r: nat)
    requires j <= |Dimensions|
    ensures j <= r <= |Dimensions|
    ensures forall i :: j <= i < r ==> !Unspecified(s, o, Dimensions[i])
    ensures r < |Dimensions| ==> Unspecified(s, o, Dimensions[r])
    decreases |Dimensions| - j
  {
    if j == |Dimensions| then j
    else if Unspecified(s, o, Dimensions[j]) then j
    else FirstUnspecified(s, o, j + 1)
  }

  /** What the constructor makes of an order: the adjacency check on the order as
      given, then, visiting tp, pp, dp, ep, cp, a failure at the first absent
      dimension whose size is not 1, or else the order with every absent
      dimension appended. */
  function Completion(s: Sizes, o: seq<Axis>): (r: Result<seq<Axis>, ConfigError>)
    ensures r.Ok? ==> |o| <= |r.value| && r.value[..|o|] == o
    ensures r.Err? && r.error.OrderConstraintError? ==> r.error.order == o && EP in o
    ensures r.Err? && r.error.MissingDimensionError? ==>
      r.error.name !in o && r.error.size == SizeOf(s, r.error.name) != 1 &&
      |o| <= |r.error.order| && r.error.order[..|o|] == o
  {
    if EP in o && !EpDpAdjacent(o) then Err(OrderConstraintError(o))
    else
      var j := FirstUnspecified(s, o, 0);
      if j < |Dimensions| then
        Err(MissingDimensionError(Dimensions[j], SizeOf(s, Dimensions[j]), o + MissingAmong(Dimensions[..j], o)))
      else Ok(o + MissingAmong(Dimensions, o))
  }

  lemma {:induction false} MissingAmongMembers(names: seq<Axis>, o: seq<Axis>)
    ensures forall a :: a in MissingAmong(names, o) <==> a in names && a !in o
  {
    if names != [] {
      MissingAmongMembers(names[1..], o);
      assert names == [names[0]] + names[1..];
    }
  }

  lemma {:induction false} MissingAmongSnoc(names: seq<Axis>, x: Axis, o: seq<Axis>)
    ensures MissingAmong(names + [x], o) == MissingAmong(names, o) + (if x in o then [] else [x])
  {
    if names != [] {
      assert (names + [x])[1..] == names[1..] + [x];
      MissingAmongSnoc(names[1..], x, o);
    }
  }

  /** The loop of the constructor over tp, pp, dp, ep, cp, extending the order by one
      token per absent size-1 dimension. */
  method CompleteOrder(s: Sizes, order: seq<Axis>) returns (res: Result<seq<Axis>, ConfigError>)
    ensures res == Completion(s, order)
  {
    if EP in order && !Adjacent(order, EP, DP) && !Adjacent(order, DP, EP) {
      return Err(OrderConstraintError(order));
    }
    var current := order;
    for i := 0 to |Dimensions|
      invariant current == order + MissingAmong(Dimensions[..i], order)
      invariant FirstUnspecified(s, order, 0) >= i
    {
      var name := Dimensions[i];
      CompletionStep(order, i);
      if name !in current && SizeOf(s, name) != 1 {
        return Err(MissingDimensionError(name, SizeOf(s, name), current));
      } else if name !in current {
        current := current + [name];
      }
    }
    assert Dimensions[..|Dimensions|] == Dimensions;
    return Ok(current);
  }

  /** One step of the completion loop: dimension i is in the order extended so far
      exactly when it was in the given order, and it is appended exactly when it
      is absent. */
  lemma CompletionStep(order: seq<Axis>, i: nat)
    requires i < |Dimensions|
    ensures Dimensions[i] in order + MissingAmong(Dimensions[..i], order) <==> Dimensions[i] in order
    ensures MissingAmong(Dimensions[..i + 1], order) ==
            MissingAmong(Dimensions[..i], order) + (if Dimensions[i] in order then [] else [Dimensions[i]])
  {
    var name := Dimensions[i];
    MissingAmongMembers(Dimensions[..i], order);
    assert name !in Dimensions[..i] by {
      forall k | 0 <= k < i ensures Dimensions[k] != name {
        VisitIndexOf(k);
        VisitIndexOf(i);
      }
    }
    assert Dimensions[..i + 1] == Dimensions[..i] + [name];
    MissingAmongSnoc(Dimensions[..i], name, order);
  }

  /** The failure conditions of construction, both ways round: the adjacency failure
      happens exactly when the given order holds ep without dp beside it, and
      construction succeeds exactly when, besides, every dimension of size other
      than 1 is named. A missing-dimension failure names an absent dimension of
      size other than 1, the first in visiting order. */
  lemma CompletionFailures(s: Sizes, o: seq<Axis>)
    ensures Completion(s, o).Err? && Completion(s, o).error.OrderConstraintError? <==>
            EP in o && !EpDpAdjacent(o)
    ensures Completion(s, o).Ok? <==>
            (EP in o ==> EpDpAdjacent(o)) && forall a :: SizeOf(s, a) != 1 ==> a in o
    ensures Completion(s, o).Err? && Completion(s, o).error.MissingDimensionError? ==>
            var e := Completion(s, o).error;
            e.name !in o && e.size == SizeOf(s, e.name) != 1 &&
            forall a :: VisitIndex(a) < VisitIndex(e.name) ==> !Unspecified(s, o, a)
  {
    var j := FirstUnspecified(s, o, 0);
    if j == |Dimensions| {
      forall a | SizeOf(s, a) != 1 ensures a in o {
        assert !Unspecified(s, o, Dimensions[VisitIndex(a)]);
      }
    }
  }

  /** On success the given tokens are kept as they are, every dimension is present,
      and what is appended are the absent dimensions, each of size 1, each once, in
      the visiting order tp, pp, dp, ep, cp. */
  lemma CompletionAppends(s: Sizes, o: seq<Axis>)
    requires Completion(s, o).Ok?
    ensures var c := Completion(s, o).value;
      |o| <= |c| && c[..|o|] == o &&
      (forall a :: a in c) &&
      (forall k :: |o| <= k < |c| ==> c[k] !in o && SizeOf(s, c[k]) == 1) &&
      (forall a :: a !in o ==> a in c[|o|..]) &&
      (forall k1, k2 :: |o| <= k1 < k2 < |c| ==> VisitIndex(c[k1]) < VisitIndex(c[k2]))
  {
    var c := Completion(s, o).value;
    var m := MissingAmong(Dimensions, o);
    assert c == o + m && c[|o|..] == m;
    MissingFacts(s, o);
    forall a ensures a in c {
      if a !in o {
        assert a in m;
      }
    }
    forall k | |o| <= k < |c| ensures c[k] !in o && SizeOf(s, c[k]) == 1 {
      assert c[k] == m[k - |o|];
    }
    forall k1, k2 | |o| <= k1 < k2 < |c| ensures VisitIndex(c[k1]) < VisitIndex(c[k2]) {
      assert c[k1] == m[k1 - |o|] && c[k2] == m[k2 - |o|];
    }
  }

  /** What a successful construction appends: every absent dimension, each of size
      1, in visiting order. */
  lemma MissingFacts(s: Sizes, o: seq<Axis>)
    requires Completion(s, o).Ok?
    ensures forall a :: a !in o ==> a in MissingAmong(Dimensions, o)
    ensures forall a :: a in MissingAmong(Dimensions, o) ==> a !in o && SizeOf(s, a) == 1
    ensures VisitOrdered(MissingAmong(Dimensions, o), 0)
  {
    MissingAmongMembers(Dimensions, o);
    CompletionFailures(s, o);
    forall a | a !in o ensures a in MissingAmong(Dimensions, o) {
      assert Dimensions[VisitIndex(a)] == a;
    }
    MissingAmongOrdered(Dimensions, o, 0);
  }

  lemma VisitIndexOf(i: nat)
    requires i < |Dimensions|
    ensures VisitIndex(Dimensions[i]) == i
  {
    if i == 0 {
    } else if i == 1 {
    } else if i == 2 {
    } else if i == 3 {
    } else {
    }
  }

  /** The dimensions of m come at or after position from of the visiting order,
      each strictly after the one before it. */
  predicate VisitOrdered(m: seq<Axis>, from: nat) {
    (forall k :: 0 <= k < |m| ==> from <= VisitIndex(m[k])) &&
    (forall k1, k2 :: 0 <= k1 < k2 < |m| ==> VisitIndex(m[k1]) < VisitIndex(m[k2]))
  }

  /** MissingAmong keeps the visiting order of the names it is given. */
  lemma {:induction false} MissingAmongOrdered(names: seq<Axis>, o: seq<Axis>, from: nat)
    requires from + |names| <= |Dimensions| && names == Dimensions[from..from + |names|]
    ensures VisitOrdered(MissingAmong(names, o), from)
    decreases |names|
  {
    if names != [] {
      assert names[0] == Dimensions[from];
      VisitIndexOf(from);
      assert names[1..] == Dimensions[from + 1..from + |names|];
      MissingAmongOrdered(names[1..], o, from + 1);
      var tail := MissingAmong(names[1..], o);
      if names[0] in o {
        OrderedLater(tail, from + 1, from);
      } else {
        OrderedCons(names[0], tail, from);
      }
    }
  }

  lemma OrderedLater(m: seq<Axis>, later: nat, from: nat)
    requires from <= later && VisitOrdered(m, later)
    ensures VisitOrdered(m, from)
  {
  }

  /** A dimension placed in front of later ones keeps the visiting order. */
  lemma OrderedCons(x: Axis, tail: seq<Axis>, from: nat)
    requires VisitIndex(x) == from && VisitOrdered(tail, from + 1)
    ensures VisitOrdered([x] + tail, from)
  {
    var m := [x] + tail;
    forall k | 0 <= k < |m| ensures from <= VisitIndex(m[k]) {
      if k > 0 {
        assert m[k] == tail[k - 1];
      }
    }
    forall k1, k2 | 0 <= k1 < k2 < |m| ensures VisitIndex(m[k1]) < VisitIndex(m[k2]) {
      assert m[k2] == tail[k2 - 1];
      if k1 > 0 {
        assert m[k1] == tail[k1 - 1];
      }
    }
  }

  /** The adjacency check looks at the order before it is completed: a completed
      order can hold ep away from dp, but only when ep has size 1 and was
      appended at the end. */
  lemma CompletionMayBreakAdjacency(s: Sizes, o: seq<Axis>)
    requires Completion(s, o).Ok?
    ensures var c := Completion(s, o).value;
      EP in c && (!EpDpAdjacent(c) ==> EP !in o && s.ep == 1)
  {
    var c := Completion(s, o).value;
    CompletionAppends(s, o);
    CompletionFailures(s, o);
    if EP in o {
      var k :| 0 <= k < |o| - 1 && ((o[k] == EP && o[k + 1] == DP) || (o[k] == DP && o[k + 1] == EP));
      assert c[k] == o[k] && c[k + 1] == o[k + 1];
    } else {
      assert SizeOf(s, EP) == 1;
    }
  }

  /** A concrete instance of the lemma above: dp-pp-tp with ep = cp = 1 completes to
      dp-pp-tp-ep-cp, in which ep does not stand next to dp. */
  lemma AdjacencyNotRechecked()
    ensures Completion(Sizes(2, 1, 2, 2, 1), [DP, PP, TP]) == Ok([DP, PP, TP, EP, CP])
    ensures !EpDpAdjacent([DP, PP, TP, EP, CP])
  {
    var s, o := Sizes(2, 1, 2, 2, 1), [DP, PP, TP];
    NoUnspecifiedExample();
    MissingExample();
    assert o + [EP, CP] == [DP, PP, TP, EP, CP];
  }

  lemma NoUnspecifiedExample()
    ensures FirstUnspecified(Sizes(2, 1, 2, 2, 1), [DP, PP, TP], 0) == 5
  {
    var s, o := Sizes(2, 1, 2, 2, 1), [DP, PP, TP];
    assert FirstUnspecified(s, o, 4) == 5;
    assert FirstUnspecified(s, o, 3) == 5;
    assert FirstUnspecified(s, o, 2) == 5;
    assert FirstUnspecified(s, o, 1) == 5;
  }

  lemma MissingExample()
    ensures MissingAmong(Dimensions, [DP, PP, TP]) == [EP, CP]
  {
    var o := [DP, PP, TP];
    assert [CP][1..] == [];
    assert MissingAmong([CP], o) == [CP];
    assert [EP, CP][1..] == [CP];
    assert MissingAmong([EP, CP], o) == [EP, CP];
    assert [DP, EP, CP][1..] == [EP, CP];
    assert MissingAmong([DP, EP, CP], o) == [EP, CP];
    assert [PP, DP, EP, CP][1..] == [DP, EP, CP];
    assert MissingAmong([PP, DP, EP, CP], o) == [EP, CP];
    assert Dimensions[1..] == [PP, DP, EP, CP];
  }

  /** The two failures on concrete orders: ep separated from dp, and dp (of size 2)
      left out of the order. */
  lemma FailureExamples()
    ensures Completion(Sizes(2, 2, 2, 2, 1), [TP, EP, PP, DP]) == Err(OrderConstraintError([TP, EP, PP, DP]))
    ensures Completion(Sizes(2, 1, 2, 2, 1), [TP, PP]) == Err(MissingDimensionError(DP, 2, [TP, PP]))
  {
    var o := [TP, EP, PP, DP];
    assert !Adjacent(o, EP, DP) && !Adjacent(o, DP, EP);
    var s, p := Sizes(2, 1, 2, 2, 1), [TP, PP];
    assert FirstUnspecified(s, p, 2) == 2;
    assert FirstUnspecified(s, p, 0) == 2;
    assert Dimensions[..2] == [TP, PP];
    assert [TP, PP][1..] == [PP];
    assert MissingAmong([PP], p) == [];
    assert MissingAmong([TP, PP], p) == [];
    assert p + [] == p;
  }

  // ---------------------------------------------------------------------------
  // The derived orders and size lists.

  /** orderWithoutEp: the order with every ep token removed. */
  function WithoutEp(o: seq<Axis>): (r: seq<Axis>)
    ensures EP !in r
  {
    if o == [] then []
    else WithoutEp(o[..|o| - 1]) + (if o[|o| - 1] == EP then [] else [o[|o| - 1]])
  }

  /** The size an axis contributes: with ep as its own axis, dp contributes dp/ep
      (the data-parallel extent left after the expert split) and ep contributes ep;
      otherwise every axis, dp included, contributes its own size. */
  function AxisSize(s: Sizes, a: Axis, independentEp: bool): (r: nat)
    ensures r <= SizeOf(s, a)
    ensures a != DP || !independentEp ==> r == SizeOf(s, a)
    ensures s.dp % s.ep == 0 ==> r > 0 && (a == DP && independentEp ==> r * s.ep == s.dp)
  {
    if independentEp && a == DP then DivBounds(s.dp, s.ep); s.dp / s.ep else SizeOf(s, a)
  }

  /** The sizes of the axes of o, one entry per token. */
  function SizesAlong(s: Sizes, o: seq<Axis>, independentEp: bool): (r: seq<nat>)
    ensures |r| == |o|
  {
    seq(|o|, k requires 0 <= k < |o| => AxisSize(s, o[k], independentEp))
  }

  /** orderedSizeWithEp: aligned with orderWithEp (the completed order). */
  function OrderedSizeWithEp(s: Sizes, o: seq<Axis>): (r: seq<nat>)
    ensures |r| == |o|
  {
    SizesAlong(s, o, true)
  }

  /** orderedSizeWithoutEp: aligned with orderWithoutEp, so it has no entry for ep
      and every entry, dp's included, is that axis's own size. */
  function OrderedSizeWithoutEp(s: Sizes, o: seq<Axis>): (r: seq<nat>)
    ensures |r| == |WithoutEp(o)|
  {
    SizesAlong(s, WithoutEp(o), false)
  }

  /** The entries of orderedSizeWithEp: every axis but dp has its own size, and dp
      the size that times ep gives dp. */
  lemma OrderedSizeWithEpEntries(s: Sizes, o: seq<Axis>)
    ensures forall k :: 0 <= k < |o| && o[k] != DP ==> OrderedSizeWithEp(s, o)[k] == SizeOf(s, o[k])
    ensures s.dp % s.ep == 0 ==> forall k :: 0 <= k < |o| && o[k] == DP ==> OrderedSizeWithEp(s, o)[k] * s.ep == s.dp
  {
  }

  /** The entries of orderedSizeWithoutEp: no ep, and every axis its own size. */
  lemma OrderedSizeWithoutEpEntries(s: Sizes, o: seq<Axis>)
    ensures forall k :: 0 <= k < |WithoutEp(o)| ==>
      WithoutEp(o)[k] != EP && OrderedSizeWithoutEp(s, o)[k] == SizeOf(s, WithoutEp(o)[k])
  {
  }

  lemma DivBounds(dp: Size, ep: Size)
    ensures dp / ep <= dp
    ensures dp % ep == 0 ==> dp / ep > 0 && (dp / ep) * ep == dp
  {
    assert dp == ep * (dp / ep) + dp % ep;
    MulMonotone(dp / ep, 1, ep);
    if dp % ep == 0 {
      DivPositive(dp, ep);
    }
  }

  lemma DivPositive(dp: Size, ep: Size)
    requires dp % ep == 0
    ensures dp / ep > 0 && (dp / ep) * ep == dp
  {
    assert dp == ep * (dp / ep) + dp % ep;
  }

  /** When ep divides dp every size in both lists is at least one. */
  lemma SizesPositive(s: Sizes, o: seq<Axis>, independentEp: bool)
    requires s.dp % s.ep == 0
    ensures Positive(SizesAlong(s, o, independentEp))
  {
    DivPositive(s.dp, s.ep);
  }

  /** Sizes along a concatenation are the concatenated sizes. */
  lemma SizesAlongAppend(s: Sizes, x: seq<Axis>, y: seq<Axis>, independentEp: bool)
    ensures SizesAlong(s, x + y, independentEp) == SizesAlong(s, x, independentEp) + SizesAlong(s, y, independentEp)
  {
  }

  /** Taking the same element out of two sequences with equal multisets leaves
      equal multisets. */
  lemma MultisetRemove(x: seq<Axis>, y: seq<Axis>, j: nat)
    requires multiset(x) == multiset(y) && x != [] && j < |y| && y[j] == x[0]
    ensures multiset(x[1..]) == multiset(y[..j] + y[j + 1..])
  {
    var left, right := y[..j], y[j + 1..];
    assert y == left + [y[j]] + right;
    var m := multiset{x[0]};
    assert multiset(y) == multiset(left) + m + multiset(right);
    assert multiset(left + right) == multiset(left) + multiset(right);
    assert x == [x[0]] + x[1..];
    assert multiset(x) == m + multiset(x[1..]);
    forall a ensures multiset(x[1..])[a] == multiset(left + right)[a] {
      assert multiset(x)[a] == multiset(y)[a];
    }
  }

  lemma ProductAround(a: seq<nat>, v: nat, b: seq<nat>)
    ensures Product(a + [v] + b) == v * Product(a + b)
  {
    ProductAppend(a, b);
    ProductAppend(a + [v], b);
    ProductSnoc(a, v);
    var pa, pb := Product(a), Product(b);
    assert Product(a + [v] + b) == (pa * v) * pb;
    assert Product(a + b) == pa * pb;
    MulAssoc(pa, v, pb);
    MulAssoc(v, pa, pb);
    assert pa * v == v * pa;
  }

  /** The product of the sizes along an order depends only on which tokens it holds,
      not on their order. */
  lemma {:induction false} SizesAlongPermutation(s: Sizes, x: seq<Axis>, y: seq<Axis>, independentEp: bool)
    requires multiset(x) == multiset(y)
    ensures Product(SizesAlong(s, x, independentEp)) == Product(SizesAlong(s, y, independentEp))
    decreases |x|
  {
    if x != [] {
      assert x[0] in multiset(y);
      var j :| 0 <= j < |y| && y[j] == x[0];
      var rest := y[..j] + y[j + 1..];
      MultisetRemove(x, y, j);
      SizesAlongPermutation(s, x[1..], rest, independentEp);
      var a, b := SizesAlong(s, y[..j], independentEp), SizesAlong(s, y[j + 1..], independentEp);
      var v := AxisSize(s, x[0], independentEp);
      assert y == y[..j] + [y[j]] + y[j + 1..];
      SizesAlongAppend(s, y[..j], y[j + 1..], independentEp);
      SizesAlongAppend(s, y[..j] + [y[j]], y[j + 1..], independentEp);
      SizesAlongAppend(s, y[..j], [y[j]], independentEp);
      assert SizesAlong(s, y, independentEp) == a + [v] + b;
      assert SizesAlong(s, rest, independentEp) == a + b;
      ProductAround(a, v, b);
      assert SizesAlong(s, x, independentEp) == [v] + SizesAlong(s, x[1..], independentEp);
    }
  }

  lemma {:induction false} WithoutEpMultiset(o: seq<Axis>)
    ensures multiset(WithoutEp(o)) == multiset(o)[EP := 0]
  {
    if o != [] {
      var init, last := o[..|o| - 1], o[|o| - 1];
      assert o == init + [last];
      WithoutEpMultiset(init);
    }
  }

  lemma ProductOfFour(x: seq<nat>)
    requires |x| == 4
    ensures Product(x) == x[0] * (x[1] * (x[2] * x[3]))
  {
    var x1 := x[1..];
    var x2 := x1[1..];
    var x3 := x2[1..];
    assert x3[1..] == [];
    assert Product(x3) == x[3];
    assert Product(x2) == x[2] * x[3];
    assert Product(x1) == x[1] * (x[2] * x[3]);
  }

  lemma ProductOfFive(x: seq<nat>)
    requires |x| == 5
    ensures Product(x) == x[0] * (x[1] * (x[2] * (x[3] * x[4])))
  {
    ProductOfFour(x[1..]);
  }

  /** tp * (pp * (dp * cp)), regrouped as the constructor's worldSize. */
  lemma WorldSizeRegroup(tp: nat, dp: nat, pp: nat, cp: nat)
    ensures tp * (pp * (dp * cp)) == tp * dp * pp * cp
  {
    calc {
      tp * (pp * (dp * cp));
      { MulAssoc(pp, dp, cp); }
      tp * ((pp * dp) * cp);
      { assert pp * dp == dp * pp; }
      tp * ((dp * pp) * cp);
      { MulAssoc(tp, dp * pp, cp); }
      (tp * (dp * pp)) * cp;
      { MulAssoc(tp, dp, pp); }
      tp * dp * pp * cp;
    }
  }

  lemma ProductWithEp(s: Sizes, o: seq<Axis>)
    requires s.dp % s.ep == 0
    requires multiset(o) == multiset(Dimensions)
    ensures Product(OrderedSizeWithEp(s, o)) == s.tp * s.dp * s.pp * s.cp
  {
    SizesAlongPermutation(s, o, Dimensions, true);
    var x := SizesAlong(s, Dimensions, true);
    var q := s.dp / s.ep;
    assert x[0] == s.tp && x[1] == s.pp && x[2] == q && x[3] == s.ep && x[4] == s.cp;
    ProductOfFive(x);
    DivPositive(s.dp, s.ep);
    MulAssoc(q, s.ep, s.cp);
    assert q * (s.ep * s.cp) == s.dp * s.cp;
    WorldSizeRegroup(s.tp, s.dp, s.pp, s.cp);
  }

  lemma ProductWithoutEp(s: Sizes, o: seq<Axis>)
    requires multiset(o) == multiset(Dimensions)
    ensures Product(OrderedSizeWithoutEp(s, o)) == s.tp * s.dp * s.pp * s.cp
  {
    WithoutEpMultiset(o);
    var rest := [TP, PP, DP, CP];
    assert multiset(Dimensions)[EP := 0] == multiset(rest);
    SizesAlongPermutation(s, WithoutEp(o), rest, false);
    var x := SizesAlong(s, rest, false);
    assert x[0] == s.tp && x[1] == s.pp && x[2] == s.dp && x[3] == s.cp;
    ProductOfFour(x);
    WorldSizeRegroup(s.tp, s.dp, s.pp, s.cp);
  }

  /** When the order names each dimension exactly once and ep divides dp, both size
      lists multiply to the world size tp * dp * pp * cp. */
  lemma SizesMatchWorldSize(s: Sizes, o: seq<Axis>)
    requires s.dp % s.ep == 0
    requires multiset(o) == multiset(Dimensions)
    ensures Product(OrderedSizeWithEp(s, o)) == s.tp * s.dp * s.pp * s.cp
    ensures Product(OrderedSizeWithoutEp(s, o)) == s.tp * s.dp * s.pp * s.cp
  {
    ProductWithEp(s, o);
    ProductWithoutEp(s, o);
  }

  lemma {:induction false} MultisetNoDuplicates(o: seq<Axis>, a: Axis)
    requires NoDuplicates(o)
    ensures multiset(o)[a] == if a in o then 1 else 0
  {
    if o != [] {
      var init, last := o[..|o| - 1], o[|o| - 1];
      assert o == init + [last];
      assert NoDuplicates(init);
      MultisetNoDuplicates(init, a);
      assert last !in init;
    }
  }

  /** An order that names no dimension twice completes to one that names none
      twice. */
  lemma CompletionNoDuplicates(s: Sizes, o: seq<Axis>)
    requires Completion(s, o).Ok? && NoDuplicates(o)
    ensures NoDuplicates(Completion(s, o).value)
  {
    var c := Completion(s, o).value;
    CompletionAppends(s, o);
    forall i, j | 0 <= i < j < |c| ensures c[i] != c[j] {
      if j >= |o| {
        if i < |o| {
          assert c[i] == o[i];
        } else {
          assert VisitIndex(c[i]) < VisitIndex(c[j]);
        }
      } else {
        assert c[i] == o[i] && c[j] == o[j];
      }
    }
  }

  /** An order that names no dimension twice completes to one that names every
      dimension exactly once. */
  lemma CompletionIsPermutation(s: Sizes, o: seq<Axis>)
    requires Completion(s, o).Ok? && NoDuplicates(o)
    ensures multiset(Completion(s, o).value) == multiset(Dimensions)
  {
    CompletionNoDuplicates(s, o);
    CompletionAppends(s, o);
    EachDimensionOnce(Completion(s, o).value);
  }

  /** A sequence that names every dimension and none twice holds each exactly once. */
  lemma EachDimensionOnce(c: seq<Axis>)
    requires NoDuplicates(c) && forall a :: a in c
    ensures multiset(c) == multiset(Dimensions)
  {
    assert NoDuplicates(Dimensions) by {
      forall i, j | 0 <= i < j < |Dimensions| ensures Dimensions[i] != Dimensions[j] {
        VisitIndexOf(i);
        VisitIndexOf(j);
      }
    }
    forall a ensures multiset(c)[a] == multiset(Dimensions)[a] {
      MultisetNoDuplicates(c, a);
      MultisetNoDuplicates(Dimensions, a);
      assert Dimensions[VisitIndex(a)] == a;
    }
    assert multiset(c) == multiset(Dimensions);
  }

  // ---------------------------------------------------------------------------
  // Query masks.

  /** Array.prototype.indexOf over the tokens of an order: the first position whose
      token is t, or -1 when there is none. */
  function IndexOf(o: seq<Axis>, t: string): (r: int)
    ensures -1 <= r < |o|
    ensures r == -1 <==> forall k :: 0 <= k < |o| ==> Name(o[k]) != t
    ensures r >= 0 ==> Name(o[r]) == t && forall k :: 0 <= k < r ==> Name(o[k]) != t
  {
    if o == [] then -1
    else if Name(o[0]) == t then 0
    else
      var r := IndexOf(o[1..], t);
      if r == -1 then -1 else r + 1
  }

  /** The mask getMask builds: position k is true when some query token's first
      occurrence in the order is at k. A token absent from the order has index -1,
      and writing mask[-1] touches no position of the array. */
  ghost function Mask(o: seq<Axis>, tokens: seq<string>): (m: seq<bool>)
    ensures |m| == |o|
  {
    seq(|o|, k requires 0 <= k < |o| => exists j :: 0 <= j < |tokens| && IndexOf(o, tokens[j]) == k)
  }

  lemma MaskAt(o: seq<Axis>, tokens: seq<string>, k: nat)
    requires k < |o|
    ensures Mask(o, tokens)[k] <==> Name(o[k]) in tokens && forall i :: 0 <= i < k ==> o[i] != o[k]
  {
    forall i | 0 <= i < k ensures Name(o[i]) == Name(o[k]) <==> o[i] == o[k] {
      NameInjective(o[i], o[k]);
    }
    assert Mask(o, tokens)[k] == exists j :: 0 <= j < |tokens| && IndexOf(o, tokens[j]) == k;
    if Mask(o, tokens)[k] {
      var j :| 0 <= j < |tokens| && IndexOf(o, tokens[j]) == k;
      assert tokens[j] == Name(o[k]);
    }
    if Name(o[k]) in tokens && forall i :: 0 <= i < k ==> o[i] != o[k] {
      var j :| 0 <= j < |tokens| && tokens[j] == Name(o[k]);
      var r := IndexOf(o, tokens[j]);
      assert r >= 0;
      assert r == k;
    }
  }

  /** The mask is true exactly at the first occurrence of each dimension the query
      names; a token that names no dimension of the order has no effect. */
  lemma MaskPositions(o: seq<Axis>, tokens: seq<string>)
    ensures forall k :: 0 <= k < |o| ==>
      (Mask(o, tokens)[k] <==> Name(o[k]) in tokens && forall i :: 0 <= i < k ==> o[i] != o[k])
  {
    forall k | 0 <= k < |o|
      ensures Mask(o, tokens)[k] <==> Name(o[k]) in tokens && forall i :: 0 <= i < k ==> o[i] != o[k]
    {
      MaskAt(o, tokens, k);
    }
  }

  /** For an order without repeated tokens: position k is masked iff its dimension is named. */
  lemma MaskOfDistinctOrder(o: seq<Axis>, tokens: seq<string>)
    requires NoDuplicates(o)
    ensures forall k :: 0 <= k < |o| ==> (Mask(o, tokens)[k] <==> Name(o[k]) in tokens)
  {
    MaskPositions(o, tokens);
  }

  /** Appending a token that names no dimension of the order leaves the mask as it was. */
  lemma MaskIgnoresUnknownToken(o: seq<Axis>, tokens: seq<string>, t: string)
    requires forall k :: 0 <= k < |o| ==> Name(o[k]) != t
    ensures Mask(o, tokens + [t]) == Mask(o, tokens)
  {
    MaskPositions(o, tokens);
    MaskPositions(o, tokens + [t]);
    forall k | 0 <= k < |o| ensures Mask(o, tokens + [t])[k] == Mask(o, tokens)[k] {
      assert Name(o[k]) in tokens + [t] <==> Name(o[k]) in tokens;
    }
  }

  /** The groups with every rank moved up by k; group count, group lengths and the
      order inside each group are those of gs. */
  function Shift(gs: seq<seq<nat>>, k: nat): (r: seq<seq<nat>>)
    ensures |r| == |gs|
    ensures forall g :: 0 <= g < |gs| ==> |r[g]| == |gs[g]| && forall i :: 0 <= i < |gs[g]| ==> r[g][i] == gs[g][i] + k
  {
    seq(|gs|, g requires 0 <= g < |gs| => seq(|gs[g]|, i requires 0 <= i < |gs[g]| => gs[g][i] + k))
  }

  lemma ShiftNone(gs: seq<seq<nat>>)
    ensures Shift(gs, 0) == gs
  {
    var r := Shift(gs, 0);
    forall g | 0 <= g < |gs| ensures r[g] == gs[g] {
    }
  }

  /** gs splits the ranks lo .. lo + n - 1 into groups: every entry is in range,
      no rank appears twice, and every rank in range appears. */
  ghost predicate Partitions(gs: seq<seq<nat>>, lo: nat, n: nat) {
    (forall g, i :: 0 <= g < |gs| && 0 <= i < |gs[g]| ==> lo <= gs[g][i] < lo + n) &&
    (forall g1, i1, g2, i2 ::
      (0 <= g1 < |gs| && 0 <= i1 < |gs[g1]| && 0 <= g2 < |gs| && 0 <= i2 < |gs[g2]| &&
       gs[g1][i1] == gs[g2][i2]) ==> g1 == g2 && i1 == i2) &&
    (forall x :: lo <= x < lo + n ==> InGroups(gs, x))
  }

  /** Shifting a partition of 0 .. n - 1 by k gives a partition of k .. k + n - 1. */
  lemma ShiftPartitions(gs: seq<seq<nat>>, n: nat, k: nat)
    requires Partitions(gs, 0, n)
    ensures Partitions(Shift(gs, k), k, n)
  {
    var rs := Shift(gs, k);
    forall x | k <= x < k + n ensures InGroups(rs, x) {
      assert InGroups(gs, x - k);
      var g, i :| 0 <= g < |gs| && 0 <= i < |gs[g]| && gs[g][i] == x - k;
      assert rs[g][i] == x;
    }
  }

  /** The offset loop of getRanks: every rank of every group is increased by k,
      entry by entry. */
  method AddRankOffset(groups: seq<seq<nat>>, k: nat) returns (ranks: seq<seq<nat>>)
    ensures ranks == Shift(groups, k)
  {
    ranks := groups;
    for g := 0 to |ranks|
      invariant |ranks| == |groups|
      invariant forall h :: 0 <= h < g ==> ranks[h] == Shift(groups, k)[h]
      invariant forall h :: g <= h < |ranks| ==> ranks[h] == groups[h]
    {
      var rankGroup := ranks[g];
      for i := 0 to |rankGroup|
        invariant |rankGroup| == |groups[g]|
        invariant forall j :: 0 <= j < i ==> rankGroup[j] == groups[g][j] + k
        invariant forall j :: i <= j < |rankGroup| ==> rankGroup[j] == groups[g][j]
      {
        rankGroup := rankGroup[i := rankGroup[i] + k];
      }
      ranks := ranks[g := rankGroup];
    }
  }

  // ---------------------------------------------------------------------------
  // The generator object.

  class RankGenerator {
    const tp: Size
    const ep: Size
    const dp: Size
    const pp: Size
    const cp: Size
    const rankOffset: int
    const worldSize: nat
    const order: seq<Axis>
    const orderWithEp: seq<Axis>
    const orderWithoutEp: seq<Axis>
    const orderedSizeWithEp: seq<nat>
    const orderedSizeWithoutEp: seq<nat>

    function NameToSize(): Sizes {
      Sizes(tp, ep, dp, pp, cp)
    }

    /** The derived fields are the functions of the sizes and the order that the
        constructor computes. */
    ghost predicate Valid() {
      dp % ep == 0 &&
      worldSize == tp * dp * pp * cp &&
      orderWithEp == order &&
      orderWithoutEp == WithoutEp(order) &&
      orderedSizeWithEp == OrderedSizeWithEp(NameToSize(), order) &&
      orderedSizeWithoutEp == OrderedSizeWithoutEp(NameToSize(), order)
    }

    /** The field assignments of the constructor and its loop over the tokens of the
        completed order, which pushes one size per token onto each list (none onto
        the list without ep for an ep token). */
    constructor FromCompletedOrder(tp: Size, ep: Size, dp: Size, pp: Size, cp: Size, order: seq<Axis>, rankOffset: int)
      requires dp % ep == 0
      ensures Valid()
      ensures this.tp == tp && this.ep == ep && this.dp == dp && this.pp == pp && this.cp == cp
      ensures this.order == order && this.rankOffset == rankOffset
    {
      var s := Sizes(tp, ep, dp, pp, cp);
      var withEp: seq<nat> := [];
      var withoutEp: seq<nat> := [];
      for i := 0 to |order|
        invariant withEp == OrderedSizeWithEp(s, order[..i])
        invariant withoutEp == OrderedSizeWithoutEp(s, order[..i])
      {
        var token := order[i];
        assert order[..i + 1][..i] == order[..i];
        if token == DP {
          withEp := withEp + [dp / ep];
          withoutEp := withoutEp + [dp];
        } else if token == EP {
          withEp := withEp + [ep];
        } else {
          withEp := withEp + [SizeOf(s, token)];
          withoutEp := withoutEp + [SizeOf(s, token)];
        }
      }
      assert order[..|order|] == order;
      this.tp, this.ep, this.dp, this.pp, this.cp := tp, ep, dp, pp, cp;
      this.rankOffset := rankOffset;
      this.worldSize := tp * dp * pp * cp;
      this.order := order;
      this.orderWithEp := order;
      this.orderWithoutEp := WithoutEp(order);
      this.orderedSizeWithEp := withEp;
      this.orderedSizeWithoutEp := withoutEp;
    }

    /** new RankGenerator(tp, ep, dp, pp, cp, order, rankOffset): fails as the order
        check and the completion loop fail, and otherwise yields a generator over
        the completed order. */
    static method Create(tp: Size, ep: Size, dp: Size, pp: Size, cp: Size, order: seq<Axis>, rankOffset: int)
      returns (res: Result<RankGenerator, ConfigError>)
      requires dp % ep == 0
      ensures var c := Completion(Sizes(tp, ep, dp, pp, cp), order);
        c.Err? ==> res == Err(c.error)
      ensures var c := Completion(Sizes(tp, ep, dp, pp, cp), order);
        c.Ok? ==> res.Ok? && fresh(res.value) && res.value.Valid() &&
                  res.value.NameToSize() == Sizes(tp, ep, dp, pp, cp) &&
                  res.value.order == c.value && res.value.rankOffset == rankOffset
    {
      var completed := CompleteOrder(Sizes(tp, ep, dp, pp, cp), order);
      if completed.Err? {
        return Err(completed.error);
      }
      var generator := new RankGenerator.FromCompletedOrder(tp, ep, dp, pp, cp, completed.value, rankOffset);
      return Ok(generator);
    }

    /** getMask: a false entry per order token, then true at the index of each query
        token (the write to index -1 of an absent token changes no entry). */
    static method GetMask(order: seq<Axis>, tokens: seq<string>) returns (mask: seq<bool>)
      ensures mask == Mask(order, tokens)
    {
      var m := new bool[|order|](_ => false);
      for j := 0 to |tokens|
        invariant forall k :: 0 <= k < m.Length ==>
          (m[k] <==> exists t :: 0 <= t < j && IndexOf(order, tokens[t]) == k)
      {
        var index := IndexOf(order, tokens[j]);
        if index >= 0 {
          m[index] := true;
        }
      }
      mask := m[..];
    }

    /** The order and the size list a query uses: with ep as its own axis or folded
        into dp. */
    function ActiveOrder(independentEp: bool): seq<Axis> {
      if independentEp then orderWithEp else orderWithoutEp
    }

    function ParallelSize(independentEp: bool): seq<nat> {
      if independentEp then orderedSizeWithEp else orderedSizeWithoutEp
    }

    /** The offset getRanks adds: rankOffset when it is positive, otherwise none. */
    function AddedOffset(): nat {
      if rankOffset > 0 then rankOffset else 0
    }

    lemma ParallelSizeFits(independentEp: bool)
      requires Valid()
      ensures Positive(ParallelSize(independentEp))
      ensures |ParallelSize(independentEp)| == |ActiveOrder(independentEp)|
    {
      SizesPositive(NameToSize(), order, true);
      SizesPositive(NameToSize(), WithoutEp(order), false);
    }

    /** What getRanks returns for a query. */
    ghost function Ranks(tokens: seq<string>, independentEp: bool): seq<seq<nat>>
      requires Valid()
    {
      ParallelSizeFits(independentEp);
      Shift(Groups(worldSize, ParallelSize(independentEp), Mask(ActiveOrder(independentEp), tokens)), AddedOffset())
    }

    /** getRanks: the generator's groups for the query, then (when rankOffset is
        positive) rankOffset added to every rank, group by group and entry by entry. */
    method GetRanks(tokens: seq<string>, independentEp: bool) returns (ranks: seq<seq<nat>>)
      requires Valid()
      ensures ranks == Ranks(tokens, independentEp)
    {
      var parallelSize := if independentEp then orderedSizeWithEp else orderedSizeWithoutEp;
      var activeOrder := if independentEp then orderWithEp else orderWithoutEp;
      var mask := GetMask(activeOrder, tokens);
      ParallelSizeFits(independentEp);
      ranks := GenerateMaskedOrthogonalRankGroups(worldSize, parallelSize, mask);
      if rankOffset > 0 {
        ranks := AddRankOffset(ranks, rankOffset);
      } else {
        ShiftNone(ranks);
      }
    }

    /** With an order that names each dimension once, the groups of any query
        partition the ranks k .. k + worldSize - 1, k being the offset getRanks
        adds: every rank lies in that range, no rank appears twice, and every rank
        in it appears. */
    lemma RanksPartition(tokens: seq<string>, independentEp: bool)
      requires Valid() && multiset(order) == multiset(Dimensions)
      ensures Partitions(Ranks(tokens, independentEp), AddedOffset(), worldSize)
    {
      ParallelSizeFits(independentEp);
      SizesMatchWorldSize(NameToSize(), order);
      var shape, mask := ParallelSize(independentEp), Mask(ActiveOrder(independentEp), tokens);
      GroupsPartition(worldSize, shape, mask);
      ShiftPartitions(Groups(worldSize, shape, mask), worldSize, AddedOffset());
    }
  }
}
