/** Face descriptor arithmetic: the comparison score the attendance route
    matches on, the Euclidean distance under it, and the mean of several
    descriptors. Descriptors are sequences of reals; the float32 rounding of
    the source is not modelled. `Math.sqrt` is passed in as `sqrt`, and the
    facts that need it to be a true square root say so in their `requires`. */
module FaceRecognition {
  import opened Results

  /** A face descriptor as produced by the detector (128 numbers in practice). */
  type Descriptor = seq<real>

  /** The threshold the attendance route compares similarity scores with. */
  const FACE_MATCH_THRESHOLD: real := 0.20

  /** What `compareFaceFeatures` throws. */
  datatype CompareError = LengthMismatch

  /** What `calculateMeanDescriptor` throws. */
  datatype MeanError = NoDescriptors

  /** `y` is the non-negative square root of `x`. */
  predicate IsSquareRoot(x: real, y: real) {
    y >= 0.0 && Product(y, y) == x
  }

  /** Real multiplication, `x * y`. It is named so that the proofs below
      can state facts about squares as `Product(x, x)` and have them apply
      wherever a square occurs; the solver does not reliably connect two
      separate occurrences of the bare expression `x * x`. */
  function Product(x: real, y: real): real {
    x * y
  }

  lemma ProductOfPositives(x: real, y: real)
    requires x > 0.0 && y > 0.0
    ensures Product(x, y) > 0.0
  {
  }

  lemma ProductNegated(x: real, y: real)
    ensures Product(-x, -y) == Product(x, y)
  {
  }

  lemma DifferenceOfSquares(x: real, c: real)
    ensures Product(x - c, x + c) == Product(x, x) - Product(c, c)
  {
  }

  function Square(x: real): (r: real)
    ensures r >= 0.0
    ensures x != 0.0 ==> r > 0.0
  {
    if x > 0.0 then
      ProductOfPositives(x, x);
      Product(x, x)
    else if x < 0.0 then
      ProductOfPositives(-x, -x);
      ProductNegated(x, x);
      Product(x, x)
    else
      Product(x, x)
  }

  function Max(x: real, y: real): real {
    if x >= y then x else y
  }

  function Min(x: real, y: real): real {
    if x <= y then x else y
  }

  /** `Math.max(0, Math.min(1, x))`. */
  function Clamp01(x: real): (r: real)
    ensures 0.0 <= r <= 1.0
    ensures 0.0 <= x <= 1.0 ==> r == x
    ensures x < 0.0 ==> r == 0.0
    ensures x > 1.0 ==> r == 1.0
  {
    Max(0.0, Min(1.0, x))
  }

  /** The sum of squared position-wise differences, the quantity under the
      square root in `euclideanDistance`. */
  function SquaredDistance(a: Descriptor, b: Descriptor): (r: real)
    requires |a| == |b|
    ensures r >= 0.0
    decreases |a|
  {
    if |a| == 0 then 0.0 else Square(a[0] - b[0]) + SquaredDistance(a[1..], b[1..])
  }

  /** `euclideanDistance`; its only caller has already checked the lengths. */
  function EuclideanDistance(a: Descriptor, b: Descriptor, sqrt: real -> real): real
    requires |a| == |b|
  {
    sqrt(SquaredDistance(a, b))
  }

  /** With a true square root, the distance is zero exactly between identical
      descriptors. */
  lemma EuclideanDistanceZeroIffEqual(a: Descriptor, b: Descriptor, sqrt: real -> real)
    requires |a| == |b|
    requires IsSquareRoot(SquaredDistance(a, b), EuclideanDistance(a, b, sqrt))
    ensures EuclideanDistance(a, b, sqrt) == 0.0 <==> a == b
  {
    SquaredDistanceZeroIffEqual(a, b);
    RootZero(SquaredDistance(a, b), EuclideanDistance(a, b, sqrt));
  }

  /** A square root is zero exactly when its square is. */
  lemma RootZero(s: real, d: real)
    ensures IsSquareRoot(s, d) ==> (d == 0.0 <==> s == 0.0)
  {
    if d > 0.0 {
      ProductOfPositives(d, d);
    }
  }

  /** `compareFaceFeatures`: throws on a length mismatch, otherwise a
      similarity score `1 - distance` clamped into [0, 1]. */
  function CompareFaceFeatures(a: Descriptor, b: Descriptor, sqrt: real -> real): (r: Result<real, CompareError>)
    ensures r.Failure? <==> |a| != |b|
    ensures r.Failure? ==> r.error == LengthMismatch
    ensures r.Success? ==> 0.0 <= r.value <= 1.0
  {
    if |a| != |b| then Failure(LengthMismatch)
    else Success(Clamp01(1.0 - EuclideanDistance(a, b, sqrt)))
  }

  lemma {:induction false} SquaredDistanceSymmetric(a: Descriptor, b: Descriptor)
    requires |a| == |b|
    ensures SquaredDistance(a, b) == SquaredDistance(b, a)
    decreases |a|
  {
    if |a| != 0 {
      ProductNegated(a[0] - b[0], a[0] - b[0]);
      assert Square(a[0] - b[0]) == Square(b[0] - a[0]);
      SquaredDistanceSymmetric(a[1..], b[1..]);
    }
  }

  /** The squared distance vanishes exactly on identical descriptors. */
  lemma {:induction false} SquaredDistanceZeroIffEqual(a: Descriptor, b: Descriptor)
    requires |a| == |b|
    ensures SquaredDistance(a, b) == 0.0 <==> a == b
    decreases |a|
  {
    if |a| != 0 {
      SquaredDistanceZeroIffEqual(a[1..], b[1..]);
      if a[0] != b[0] {
        assert Square(a[0] - b[0]) > 0.0;
      } else {
        assert a == [a[0]] + a[1..] && b == [b[0]] + b[1..];
      }
    }
  }

  /** The score does not depend on the order of the arguments. */
  lemma CompareSymmetric(a: Descriptor, b: Descriptor, sqrt: real -> real)
    ensures CompareFaceFeatures(a, b, sqrt) == CompareFaceFeatures(b, a, sqrt)
  {
    if |a| == |b| {
      SquaredDistanceSymmetric(a, b);
    }
  }

  /** A descriptor compared with itself scores the maximum, 1. */
  lemma CompareSelfIsOne(a: Descriptor, sqrt: real -> real)
    requires sqrt(0.0) == 0.0
    ensures CompareFaceFeatures(a, a, sqrt) == Success(1.0)
  {
    SquaredDistanceZeroIffEqual(a, a);
  }

  /** With a true square root, the score is 1 exactly when the two
      descriptors are identical. */
  lemma CompareIsOneIffIdentical(a: Descriptor, b: Descriptor, sqrt: real -> real)
    requires |a| == |b|
    requires IsSquareRoot(SquaredDistance(a, b), sqrt(SquaredDistance(a, b)))
    ensures CompareFaceFeatures(a, b, sqrt) == Success(1.0) <==> a == b
  {
    var s := SquaredDistance(a, b);
    var d := sqrt(s);
    assert CompareFaceFeatures(a, b, sqrt) == Success(Clamp01(1.0 - d));
    SquaredDistanceZeroIffEqual(a, b);
    if d > 0.0 {
      ProductOfPositives(d, d);
    }
  }

  /** A square root grows with its square: `s1 <= s2` gives `d1 <= d2`. */
  lemma RootMonotone(s1: real, d1: real, s2: real, d2: real)
    requires IsSquareRoot(s1, d1) && IsSquareRoot(s2, d2) && s1 <= s2
    ensures d1 <= d2
  {
    DifferenceOfSquares(d1, d2);
    if d1 > d2 {
      ProductOfPositives(d1 - d2, d1 + d2);
    }
  }

  /** Higher similarity means a closer face: a descriptor at most as far
      from `a` as another scores at least as high. */
  lemma CompareMonotone(a: Descriptor, b: Descriptor, c: Descriptor, sqrt: real -> real)
    requires |a| == |b| == |c|
    requires IsSquareRoot(SquaredDistance(a, b), sqrt(SquaredDistance(a, b)))
    requires IsSquareRoot(SquaredDistance(a, c), sqrt(SquaredDistance(a, c)))
    requires SquaredDistance(a, b) <= SquaredDistance(a, c)
    ensures CompareFaceFeatures(a, b, sqrt).value >= CompareFaceFeatures(a, c, sqrt).value
  {
    RootMonotone(SquaredDistance(a, b), sqrt(SquaredDistance(a, b)), SquaredDistance(a, c), sqrt(SquaredDistance(a, c)));
  }

  /** For a square root `d` of `s` and a constant `c >= 0`: `d > c` exactly
      when `s > c * c`. */
  lemma RootAbove(s: real, d: real, c: real)
    requires IsSquareRoot(s, d) && c >= 0.0
    ensures d > c <==> s > Product(c, c)
  {
    DifferenceOfSquares(d, c);
    if d > c {
      ProductOfPositives(d - c, d + c);
    } else if d < c {
      ProductOfPositives(c - d, d + c);
    }
  }

  /** A descriptor entry as JavaScript sees it: reading past the end of a
      typed array yields `undefined`, and adding it to a number gives NaN. */
  datatype Float = Num(value: real) | NaN

  function AddFloat(x: Float, y: Float): Float {
    if x.Num? && y.Num? then Num(x.value + y.value) else NaN
  }

  function DivideFloat(x: Float, n: real): Float
    requires n != 0.0
  {
    if x.Num? then Num(x.value / n) else NaN
  }

  /** `descriptor[i]` in the source: NaN past the end. */
  function ElementAt(d: Descriptor, i: nat): (r: Float)
    ensures r.Num? <==> i < |d|
  {
    if i < |d| then Num(d[i]) else NaN
  }

  /** Every descriptor in `ds` has a position `i`. */
  predicate Covers(ds: seq<Descriptor>, i: nat) {
    forall k :: 0 <= k < |ds| ==> i < |ds[k]|
  }

  /** The real sum of position `i` over descriptors that all have it. */
  function ColumnSum(ds: seq<Descriptor>, i: nat): real
    requires Covers(ds, i)
    decreases |ds|
  {
    if |ds| == 0 then 0.0 else ColumnSum(ds[..|ds| - 1], i) + ds[|ds| - 1][i]
  }

  /** The inner loop of `calculateMeanDescriptor`: `sum += descriptor[i]`
      over the descriptors in order, starting from 0. It is NaN exactly when
      some descriptor is too short, and the real column sum otherwise. */
  function ColumnTotal(ds: seq<Descriptor>, i: nat): (r: Float)
    ensures Covers(ds, i) ==> r == Num(ColumnSum(ds, i))
    ensures !Covers(ds, i) ==> r == NaN
    decreases |ds|
  {
    if |ds| == 0 then Num(0.0)
    else
      assert forall k :: 0 <= k < |ds| - 1 ==> ds[..|ds| - 1][k] == ds[k];
      AddFloat(ColumnTotal(ds[..|ds| - 1], i), ElementAt(ds[|ds| - 1], i))
  }

  /** `calculateMeanDescriptor`: throws on an empty list; otherwise as long as
      the first descriptor, each position being the column sum divided by the
      number of descriptors (NaN where a later descriptor is too short). */
  function CalculateMeanDescriptor(ds: seq<Descriptor>): (r: Result<seq<Float>, MeanError>)
    ensures r.Failure? <==> |ds| == 0
    ensures r.Failure? ==> r.error == NoDescriptors
    ensures r.Success? ==> |r.value| == |ds[0]|
    ensures r.Success? ==> forall i :: 0 <= i < |r.value| && Covers(ds, i) ==>
              r.value[i] == Num(ColumnSum(ds, i) / |ds| as real)
    ensures r.Success? ==> forall i :: 0 <= i < |r.value| && !Covers(ds, i) ==> r.value[i] == NaN
  {
    if |ds| == 0 then Failure(NoDescriptors)
    else Success(seq(|ds[0]|, i requires 0 <= i < |ds[0]| => DivideFloat(ColumnTotal(ds, i), |ds| as real)))
  }

  /** A descriptor read as JavaScript numbers. */
  function AsFloats(d: Descriptor): (r: seq<Float>)
    ensures |r| == |d|
    ensures forall i :: 0 <= i < |d| ==> r[i] == Num(d[i])
  {
    seq(|d|, i requires 0 <= i < |d| => Num(d[i]))
  }

  /** The mean of a single descriptor is that descriptor. */
  lemma MeanOfSingle(d: Descriptor)
    ensures CalculateMeanDescriptor([d]) == Success(AsFloats(d))
  {
    var r := CalculateMeanDescriptor([d]);
    forall i | 0 <= i < |d|
      ensures r.value[i] == Num(d[i])
    {
      assert Covers([d], i);
      assert ColumnSum([d], i) == ColumnSum([], i) + d[i];
    }
    assert r.value == AsFloats(d);
  }

  lemma {:induction false} ColumnSumOfCopies(d: Descriptor, n: nat, i: nat)
    requires i < |d|
    ensures Covers(seq(n, _ => d), i)
    ensures ColumnSum(seq(n, _ => d), i) == n as real * d[i]
    decreases n
  {
    var ds := seq(n, _ => d);
    if n != 0 {
      assert ds[..n - 1] == seq(n - 1, _ => d);
      ColumnSumOfCopies(d, n - 1, i);
    }
  }

  /** Averaging n >= 1 copies of a descriptor gives that descriptor back. */
  lemma MeanOfCopies(d: Descriptor, n: nat)
    requires n >= 1
    ensures CalculateMeanDescriptor(seq(n, _ => d)) == Success(AsFloats(d))
  {
    var ds := seq(n, _ => d);
    var r := CalculateMeanDescriptor(ds);
    forall i | 0 <= i < |d|
      ensures r.value[i] == Num(d[i])
    {
      ColumnSumOfCopies(d, n, i);
    }
    assert r.value == AsFloats(d);
  }
}
