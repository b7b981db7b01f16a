/** Splitting a list by a boolean mask, as generateMaskedOrthogonalRankGroups does
    with `filter((_, i) => mask[i])` and `filter((_, i) => !mask[i])`, and the
    inverse operation that interleaves the two halves again. */
module Masks {
  import opened MeshIndexer

  /** The number of mask entries equal to keep. */
  function Count(m: seq<bool>, keep: bool): (n: nat)
    ensures n <= |m|
  {
    if m == [] then 0 else (if m[0] == keep then 1 else 0) + Count(m[1..], keep)
  }

  /** The entries s[i] whose mask bit equals keep, in their original order. A mask
      shorter than s reads as false past its end, as an undefined array entry
      does in a `filter` callback. */
  function Filter<T>(s: seq<T>, m: seq<bool>, keep: bool): (r: seq<T>)
    ensures |r| <= |s|
    ensures |m| == |s| ==> |r| == Count(m, keep)
  {
    if s == [] then []
    else
      var bit := |m| > 0 && m[0];
      var tail := Filter(s[1..], if |m| > 0 then m[1..] else [], keep);
      if bit == keep then [s[0]] + tail else tail
  }

  /** Interleaves a (at the true bits) and b (at the false bits) along m. */
  ghost function Merge<T>(a: seq<T>, b: seq<T>, m: seq<bool>): (c: seq<T>)
    requires |a| == Count(m, true) && |b| == Count(m, false)
    ensures |c| == |m|
    decreases m
  {
    if m == [] then []
    else if m[0] then [a[0]] + Merge(a[1..], b, m[1..])
    else [b[0]] + Merge(a, b[1..], m[1..])
  }

  lemma {:induction false} CountSplit(m: seq<bool>)
    ensures Count(m, true) + Count(m, false) == |m|
  {
    if m != [] {
      CountSplit(m[1..]);
    }
  }

  lemma {:induction false} FilterPositive(s: seq<nat>, m: seq<bool>, keep: bool)
    ensures Positive(s) ==> Positive(Filter(s, m, keep))
  {
    if s != [] {
      FilterPositive(s[1..], if |m| > 0 then m[1..] else [], keep);
    }
  }

  /** An entry past the end of the mask always goes to the false side. */
  lemma {:induction false} FilterPastMask<T>(g: seq<T>, m: seq<bool>, x: T, keep: bool)
    requires |g| == |m|
    ensures Filter(g + [x], m, keep) == Filter(g, m, keep) + (if keep then [] else [x])
  {
    if g == [] {
      assert m == [];
    } else {
      assert (g + [x])[1..] == g[1..] + [x];
      FilterPastMask(g[1..], m[1..], x, keep);
    }
  }

  /** Each half of a merged list is the list merged in on that side. */
  lemma {:induction false} FilterMerge<T>(a: seq<T>, b: seq<T>, m: seq<bool>)
    requires |a| == Count(m, true) && |b| == Count(m, false)
    ensures Filter(Merge(a, b, m), m, true) == a
    ensures Filter(Merge(a, b, m), m, false) == b
    decreases m
  {
    if m != [] {
      if m[0] {
        FilterMerge(a[1..], b, m[1..]);
      } else {
        FilterMerge(a, b[1..], m[1..]);
      }
    }
  }

  /** Merging the two halves of a list gives the list back. */
  lemma {:induction false} MergeFilter<T>(s: seq<T>, m: seq<bool>)
    requires |m| == |s|
    ensures Merge(Filter(s, m, true), Filter(s, m, false), m) == s
  {
    if s != [] {
      MergeFilter(s[1..], m[1..]);
    }
  }

  /** Restricting a coordinate vector and its shape to one side keeps it inside. */
  lemma {:induction false} FilterBounded(c: seq<nat>, s: seq<nat>, m: seq<bool>, keep: bool)
    requires Bounded(c, s) && |m| == |s|
    ensures Bounded(Filter(c, m, keep), Filter(s, m, keep))
  {
    if s != [] {
      FilterBounded(c[1..], s[1..], m[1..], keep);
    }
  }

  /** Two coordinate vectors inside the two halves of a shape merge into a vector
      inside the whole shape. */
  lemma {:induction false} MergeBounded(a: seq<nat>, b: seq<nat>, s: seq<nat>, m: seq<bool>)
    requires |m| == |s|
    requires Bounded(a, Filter(s, m, true)) && Bounded(b, Filter(s, m, false))
    ensures Bounded(Merge(a, b, m), s)
  {
    if s != [] {
      if m[0] {
        MergeBounded(a[1..], b, s[1..], m[1..]);
      } else {
        MergeBounded(a, b[1..], s[1..], m[1..]);
      }
    }
  }

  /** An inner product splits into the inner products of its two halves. */
  lemma {:induction false} InnerSplit(c: seq<nat>, g: seq<nat>, m: seq<bool>)
    requires |c| == |g| == |m|
    ensures InnerProduct(c, g) ==
            InnerProduct(Filter(c, m, true), Filter(g, m, true)) +
            InnerProduct(Filter(c, m, false), Filter(g, m, false))
  {
    if c != [] {
      InnerSplit(c[1..], g[1..], m[1..]);
    }
  }

  /** The size of a shape is the size of its masked half times that of its unmasked half. */
  lemma {:induction false} ProductSplit(s: seq<nat>, m: seq<bool>)
    requires |m| == |s|
    ensures Product(s) == Product(Filter(s, m, true)) * Product(Filter(s, m, false))
  {
    if s != [] {
      ProductSplit(s[1..], m[1..]);
      var a, b := Product(Filter(s[1..], m[1..], true)), Product(Filter(s[1..], m[1..], false));
      if m[0] {
        MulAssoc(s[0], a, b);
      } else {
        calc {
          Product(s);
          s[0] * (a * b);
          { MulAssoc(s[0], a, b); }
          (s[0] * a) * b;
          (a * s[0]) * b;
          { MulAssoc(a, s[0], b); }
          a * (s[0] * b);
        }
      }
    }
  }

  /** The complementary mask. */
  function Complement(m: seq<bool>): (r: seq<bool>)
    ensures |r| == |m|
  {
    seq(|m|, k requires 0 <= k < |m| => !m[k])
  }

  /** Selecting with the complementary mask selects the other side. */
  lemma {:induction false} FilterComplement<T>(s: seq<T>, m: seq<bool>, keep: bool)
    requires |m| == |s|
    ensures Filter(s, Complement(m), keep) == Filter(s, m, !keep)
  {
    if s != [] {
      assert Complement(m)[1..] == Complement(m[1..]);
      FilterComplement(s[1..], m[1..], keep);
    }
  }

  lemma {:induction false} CountComplement(m: seq<bool>, keep: bool)
    ensures Count(Complement(m), keep) == Count(m, !keep)
  {
    if m != [] {
      assert Complement(m)[1..] == Complement(m[1..]);
      CountComplement(m[1..], keep);
    }
  }

  /** Merging along the complementary mask swaps the roles of the two halves. */
  lemma {:induction false} MergeComplement<T>(a: seq<T>, b: seq<T>, m: seq<bool>)
    requires |a| == Count(m, true) && |b| == Count(m, false)
    requires |b| == Count(Complement(m), true) && |a| == Count(Complement(m), false)
    ensures Merge(b, a, Complement(m)) == Merge(a, b, m)
    decreases m
  {
    if m != [] {
      assert Complement(m)[1..] == Complement(m[1..]);
      CountComplement(m[1..], true);
      CountComplement(m[1..], false);
      if m[0] {
        MergeComplement(a[1..], b, m[1..]);
      } else {
        MergeComplement(a, b[1..], m[1..]);
      }
    }
  }
}
