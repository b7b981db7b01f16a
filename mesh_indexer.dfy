/** Stateless index arithmetic over a "shape": an ordered list of axis extents,
    fastest-varying axis first. Models the helpers prefixProduct, innerProduct and
    decompose that generateMaskedOrthogonalRankGroups defines for itself. */
module MeshIndexer {

  /** Every extent of the shape is at least one. */
  predicate Positive(shape: seq<nat>) {
    forall k :: 0 <= k < |shape| ==> shape[k] > 0
  }

  /** A coordinate vector lies inside the shape: one coordinate per axis, each
      below that axis's extent. */
  predicate Bounded(coord: seq<nat>, shape: seq<nat>) {
    |coord| == |shape| && forall k :: 0 <= k < |shape| ==> coord[k] < shape[k]
  }

  /** The product of the entries; the empty product is 1 (the reduce with initial value 1). */
  function Product(s: seq<nat>): (p: nat)
    ensures Positive(s) ==> p > 0
  {
    if s == [] then 1 else s[0] * Product(s[1..])
  }

  lemma {:induction false} ProductSnoc(s: seq<nat>, x: nat)
    ensures Product(s + [x]) == Product(s) * x
  {
    if s != [] {
      assert (s + [x])[1..] == s[1..] + [x];
      ProductSnoc(s[1..], x);
      MulAssoc(s[0], Product(s[1..]), x);
    }
  }

  /** The product of a concatenation is the product of the products. */
  lemma {:induction false} ProductAppend(s: seq<nat>, t: seq<nat>)
    ensures Product(s + t) == Product(s) * Product(t)
  {
    if s == [] {
      assert s + t == t;
    } else {
      assert (s + t)[1..] == s[1..] + t;
      ProductAppend(s[1..], t);
      MulAssoc(s[0], Product(s[1..]), Product(t));
    }
  }

  /** The stride table of prefixProduct(a, init): entry k is init times the product
      of the first k extents, so the table is one entry longer than a. */
  function PrefixProducts(a: seq<nat>, init: nat): (r: seq<nat>)
  {
    seq(|a| + 1, k requires 0 <= k <= |a| => init * Product(a[..k]))
  }

  /** The row-major strides of a shape: prefixProduct(shape) with init = 1. */
  function Strides(shape: seq<nat>): (r: seq<nat>)
    ensures |r| == |shape| + 1
    ensures Positive(shape) ==> forall k :: 0 <= k < |r| ==> r[k] > 0
  {
    var r := PrefixProducts(shape, 1);
    assert Positive(shape) ==> forall k :: 0 <= k < |r| ==> Positive(shape[..k]);
    r
  }

  /** The recurrence prefixProduct implements: it starts at init, multiplies in one
      extent per step, and (for init = 1) ends at the product of the whole shape. */
  lemma PrefixProductsStep(a: seq<nat>, init: nat)
    ensures Recurrence(PrefixProducts(a, init), a, init)
    ensures PrefixProducts(a, init)[|a|] == init * Product(a)
  {
    PrefixProductsEnds(a, init);
    PrefixProductsAll(a, init);
  }

  lemma PrefixProductsAll(a: seq<nat>, init: nat)
    ensures forall i :: 0 <= i < |a| ==> PrefixProducts(a, init)[i + 1] == PrefixProducts(a, init)[i] * a[i]
  {
    forall i | 0 <= i < |a| {
      PrefixProductsAt(a, init, i);
    }
  }

  /** r starts at init and multiplies in one extent of a per step. */
  predicate Recurrence(r: seq<nat>, a: seq<nat>, init: nat) {
    |r| == |a| + 1 && r[0] == init && forall i :: 0 <= i < |a| ==> r[i + 1] == r[i] * a[i]
  }

  lemma PrefixProductsEnds(a: seq<nat>, init: nat)
    ensures PrefixProducts(a, init)[0] == init
    ensures PrefixProducts(a, init)[|a|] == init * Product(a)
  {
    assert a[..0] == [];
    assert a[..|a|] == a;
  }

  lemma PrefixProductsAt(a: seq<nat>, init: nat, i: nat)
    requires i < |a|
    ensures PrefixProducts(a, init)[i + 1] == PrefixProducts(a, init)[i] * a[i]
  {
    var r := PrefixProducts(a, init);
    var before, after := Product(a[..i]), Product(a[..i + 1]);
    assert r[i] == init * before;
    assert r[i + 1] == init * after;
    PrefixStep(a, init, i);
  }

  lemma PrefixStep(a: seq<nat>, init: nat, i: nat)
    requires i < |a|
    ensures init * Product(a[..i + 1]) == (init * Product(a[..i])) * a[i]
  {
    assert a[..i + 1] == a[..i] + [a[i]];
    ProductSnoc(a[..i], a[i]);
    MulAssoc(init, Product(a[..i]), a[i]);
  }

  /** prefixProduct: the accumulator is multiplied by each extent in turn and every
      intermediate value is pushed. */
  method PrefixProduct(a: seq<nat>, init: nat) returns (r: seq<nat>)
    ensures r == PrefixProducts(a, init)
    ensures |r| == |a| + 1 && r[0] == init && r[|a|] == init * Product(a)
  {
    var acc := init;
    r := [acc];
    for i := 0 to |a|
      invariant |r| == i + 1
      invariant acc == init * Product(a[..i])
      invariant forall k :: 0 <= k <= i ==> r[k] == init * Product(a[..k])
    {
      PrefixStep(a, init, i);
      acc := acc * a[i];
      r := r + [acc];
    }
    assert a[..|a|] == a;
  }

  /** innerProduct: the sum of the elementwise products of a with the leading
      entries of b (b may be longer than a; its extra entries are never read). */
  function InnerProduct(a: seq<nat>, b: seq<nat>): (r: nat)
    requires |a| <= |b|
  {
    if a == [] then 0 else a[0] * b[0] + InnerProduct(a[1..], b[1..])
  }

  /** Every term of the inner product is at most the whole sum (no term is negative),
      and it is 0 when every entry of a is. */
  lemma {:induction false} InnerProductTerms(a: seq<nat>, b: seq<nat>)
    requires |a| <= |b|
    ensures forall k :: 0 <= k < |a| ==> a[k] * b[k] <= InnerProduct(a, b)
    ensures (forall k :: 0 <= k < |a| ==> a[k] == 0) ==> InnerProduct(a, b) == 0
  {
    if a != [] {
      InnerProductTerms(a[1..], b[1..]);
      forall k | 1 <= k < |a| ensures a[k] * b[k] <= InnerProduct(a, b) {
        assert a[k] == a[1..][k - 1] && b[k] == b[1..][k - 1];
      }
    }
  }

  /** Entries of b past the length of a do not take part in the inner product. */
  lemma {:induction false} InnerProductPrefix(a: seq<nat>, b: seq<nat>, extra: seq<nat>)
    requires |a| <= |b|
    ensures InnerProduct(a, b + extra) == InnerProduct(a, b)
  {
    if a != [] {
      assert (b + extra)[1..] == b[1..] + extra;
      InnerProductPrefix(a[1..], b[1..], extra);
    }
  }

  /** decompose(index, shape): the mixed-radix digits of index, coordinate k being
      floor(index / stride[k]) mod shape[k]; every digit lies inside the shape. */
  function Decompose(index: nat, shape: seq<nat>): (coord: seq<nat>)
    requires Positive(shape)
    ensures Bounded(coord, shape)
  {
    var stride := Strides(shape);
    seq(|shape|, k requires 0 <= k < |shape| => (index / stride[k]) % shape[k])
  }

  // ---------------------------------------------------------------------------
  // Arithmetic facts about natural division used by the mixed-radix proofs.

  lemma MulAssoc(a: nat, b: nat, c: nat)
    ensures a * (b * c) == (a * b) * c
  {
  }

  lemma MulCancelLt(d: int, a: int, b: int)
    requires d > 0 && d * a < d * b
    ensures a < b
  {
  }

  lemma MulMonotone(d: nat, a: nat, b: nat)
    requires a <= b
    ensures d * a <= d * b
  {
  }

  /** Natural division is determined by the quotient-remainder equation. */
  lemma DivModUnique(i: nat, d: nat, q: nat, r: nat)
    requires d > 0 && r < d && i == d * q + r
    ensures i / d == q && i % d == r
  {
    var q', r' := i / d, i % d;
    assert i == d * q' + r';
    assert d * q' < d * (q + 1);
    assert d * q < d * (q' + 1);
    MulCancelLt(d, q', q + 1);
    MulCancelLt(d, q, q' + 1);
  }

  lemma MulDistrib(a: nat, x: nat, y: nat)
    ensures a * (x + y) == a * x + a * y
  {
  }

  lemma DivDiv(i: nat, a: nat, b: nat)
    requires a > 0 && b > 0
    ensures i / (a * b) == (i / a) / b
    ensures i % (a * b) == i % a + a * ((i / a) % b)
  {
    var q1, r1 := i / a, i % a;
    var q2, r2 := q1 / b, q1 % b;
    assert i == a * q1 + r1;
    assert q1 == b * q2 + r2;
    MulDistrib(a, b * q2, r2);
    MulAssoc(a, b, q2);
    assert i == (a * b) * q2 + (a * r2 + r1);
    assert r2 + 1 <= b;
    MulMonotone(a, r2 + 1, b);
    MulDistrib(a, r2, 1);
    assert a * r2 + r1 < a * b;
    DivModUnique(i, a * b, q2, a * r2 + r1);
  }

  // ---------------------------------------------------------------------------
  // Peeling the fastest axis off a shape.

  lemma StridesCons(shape: seq<nat>)
    requires |shape| > 0
    ensures Strides(shape)[0] == 1
    ensures forall k :: 0 <= k < |shape| ==> Strides(shape)[k + 1] == shape[0] * Strides(shape[1..])[k]
  {
    forall k | 0 <= k < |shape| ensures Strides(shape)[k + 1] == shape[0] * Strides(shape[1..])[k] {
      assert shape[..k + 1][1..] == shape[1..][..k];
    }
  }

  lemma {:induction false} InnerScale(c: seq<nat>, b: seq<nat>, b': seq<nat>, m: nat)
    requires |c| <= |b| && |c| <= |b'|
    requires forall k :: 0 <= k < |c| ==> b[k] == m * b'[k]
    ensures InnerProduct(c, b) == m * InnerProduct(c, b')
  {
    if c != [] {
      InnerScale(c[1..], b[1..], b'[1..], m);
      calc {
        InnerProduct(c, b);
        c[0] * (m * b'[0]) + m * InnerProduct(c[1..], b'[1..]);
        { assert c[0] * (m * b'[0]) == m * (c[0] * b'[0]); }
        m * (c[0] * b'[0]) + m * InnerProduct(c[1..], b'[1..]);
        m * InnerProduct(c, b');
      }
    }
  }

  lemma InnerStridesCons(c: seq<nat>, shape: seq<nat>)
    requires |c| == |shape| > 0
    ensures InnerProduct(c, Strides(shape)) == c[0] + shape[0] * InnerProduct(c[1..], Strides(shape[1..]))
  {
    StridesCons(shape);
    InnerScale(c[1..], Strides(shape)[1..], Strides(shape[1..]), shape[0]);
  }

  lemma DecomposeCons(i: nat, shape: seq<nat>)
    requires Positive(shape) && |shape| > 0
    ensures Decompose(i, shape) == [i % shape[0]] + Decompose(i / shape[0], shape[1..])
  {
    assert Positive(shape[1..]);
    StridesCons(shape);
    var lhs, rhs := Decompose(i, shape), [i % shape[0]] + Decompose(i / shape[0], shape[1..]);
    forall k | 0 <= k < |shape| ensures lhs[k] == rhs[k] {
      if k > 0 {
        DivDiv(i, shape[0], Strides(shape[1..])[k - 1]);
      }
    }
  }

  /** The mixed-radix round trip: recombining the digits of i with the strides
      gives i back, reduced modulo the size of the shape. */
  lemma {:induction false} RoundTrip(i: nat, shape: seq<nat>)
    requires Positive(shape)
    ensures InnerProduct(Decompose(i, shape), Strides(shape)) == i % Product(shape)
    decreases shape
  {
    if shape != [] {
      var s0, rest := shape[0], shape[1..];
      assert Positive(rest);
      DecomposeCons(i, shape);
      var d := Decompose(i, shape);
      assert d[0] == i % s0 && d[1..] == Decompose(i / s0, rest);
      InnerStridesCons(d, shape);
      RoundTrip(i / s0, rest);
      DivDiv(i, s0, Product(rest));
      calc {
        InnerProduct(d, Strides(shape));
        d[0] + s0 * InnerProduct(d[1..], Strides(rest));
        i % s0 + s0 * ((i / s0) % Product(rest));
        i % (s0 * Product(rest));
      }
    }
  }

  /** The round trip for an index inside the shape: decompose is injective there
      and innerProduct with the strides is its inverse. */
  lemma RoundTripInRange(i: nat, shape: seq<nat>)
    requires Positive(shape) && i < Product(shape)
    ensures InnerProduct(Decompose(i, shape), Strides(shape)) == i
  {
    RoundTrip(i, shape);
    DivModUnique(i, Product(shape), 0, i);
  }

  /** The other direction: a coordinate vector inside the shape is recombined to an
      index inside the shape, and decomposing that index gives the vector back. */
  lemma {:induction false} DecomposeInner(c: seq<nat>, shape: seq<nat>)
    requires Positive(shape) && Bounded(c, shape)
    ensures InnerProduct(c, Strides(shape)) < Product(shape)
    ensures Decompose(InnerProduct(c, Strides(shape)), shape) == c
  {
    if shape != [] {
      var s0, rest := shape[0], shape[1..];
      assert Positive(rest);
      DecomposeInner(c[1..], rest);
      var y := InnerProduct(c[1..], Strides(rest));
      InnerStridesCons(c, shape);
      var x := InnerProduct(c, Strides(shape));
      assert x == c[0] + s0 * y;
      DigitBound(c[0], y, s0, Product(rest));
      DivModUnique(x, s0, y, c[0]);
      DecomposeCons(x, shape);
      assert c == [c[0]] + c[1..];
    }
  }

  /** A digit below the radix plus the radix times an index below p stays below
      the radix times p. */
  lemma DigitBound(d: nat, y: nat, radix: nat, p: nat)
    requires d < radix && y < p
    ensures d + radix * y < radix * p
  {
    MulDistrib(radix, y, 1);
    MulMonotone(radix, y + 1, p);
  }

  /** Decomposition is injective on the indices of the shape. */
  lemma DecomposeInjective(i: nat, j: nat, shape: seq<nat>)
    requires Positive(shape) && i < Product(shape) && j < Product(shape)
    requires Decompose(i, shape) == Decompose(j, shape)
    ensures i == j
  {
    RoundTripInRange(i, shape);
    RoundTripInRange(j, shape);
  }
}
