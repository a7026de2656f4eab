/**
  Pixel-level vocabulary shared by the feature extractor: 8-bit channel
  values, HSV pixels, and the counting and summing reductions that numpy
  applies to whole images and masks.

  An image plane is a flat, row-major sequence of pixels; the extractor never
  looks at the 2-D layout, only at per-pixel values and the pixel count.
 */
module Pixels {

  /** An 8-bit unsigned channel value, as stored in an OpenCV uint8 image. */
  type Byte = x: int | 0 <= x < 256

  /**
    A pixel of OpenCV's 8-bit HSV image: hue, saturation and value
    (brightness), each one byte.
   */
  datatype Hsv = Hsv(h: Byte, s: Byte, v: Byte)

  /** The indices of a mask whose entry is non-zero. */
  ghost function NonZeroIndices(m: seq<Byte>): set<int>
  {
    set i | 0 <= i < |m| && m[i] > 0
  }

  /**
    The number of non-zero entries of a mask: numpy's `np.sum(mask > 0)`.
    It is zero exactly when the whole mask is zero, and equals the mask size
    exactly when no entry is zero.
   */
  function CountNonZero(m: seq<Byte>): (n: nat)
    ensures n <= |m|
    ensures n == 0 <==> forall i :: 0 <= i < |m| ==> m[i] == 0
    ensures n == |m| <==> forall i :: 0 <= i < |m| ==> m[i] > 0
  {
    if m == [] then 0
    else
      var init := m[..|m| - 1];
      assert forall i :: 0 <= i < |init| ==> init[i] == m[i];
      CountNonZero(init) + (if m[|m| - 1] > 0 then 1 else 0)
  }

  /** CountNonZero agrees with the plain definition: the size of the set of non-zero positions. */
  lemma {:induction false} CountNonZeroIsIndexCount(m: seq<Byte>)
    ensures CountNonZero(m) == |NonZeroIndices(m)|
  {
    if m != [] {
      var k := |m| - 1;
      var init := m[..k];
      CountNonZeroIsIndexCount(init);
      assert NonZeroIndices(init) == set i | 0 <= i < k && m[i] > 0;
      if m[k] > 0 {
        assert NonZeroIndices(m) == NonZeroIndices(init) + {k};
        assert k !in NonZeroIndices(init);
      } else {
        assert NonZeroIndices(m) == NonZeroIndices(init);
      }
    }
  }

  /**
    A count of qualifying entries divided by the total size: numpy's
    `np.sum(mask > 0) / mask.size`. It is a fraction in [0, 1], 0 exactly for a
    count of 0 and 1 exactly when every entry qualifies.
   */
  function Ratio(count: nat, size: nat): (r: real)
    requires 0 < size && count <= size
    ensures 0.0 <= r <= 1.0
    ensures r == 0.0 <==> count == 0
    ensures r == 1.0 <==> count == size
  {
    QuotientFacts(count as real, size as real);
    count as real / size as real
  }

  /** What dividing a non-negative amount by a positive total gives. */
  lemma QuotientFacts(a: real, t: real)
    requires 0.0 <= a && 0.0 < t
    ensures 0.0 <= a / t
    ensures a <= t ==> a / t <= 1.0
    ensures a / t == 0.0 <==> a == 0.0
    ensures a / t == 1.0 <==> a == t
  {
    var q := a / t;
    assert q * t == a;
    assert q < 0.0 ==> q * t < 0.0;
    assert q > 0.0 ==> q * t > 0.0;
    assert q < 1.0 ==> (1.0 - q) * t > 0.0;
    assert q > 1.0 ==> (q - 1.0) * t > 0.0;
  }

  /** An amount of c per unit of a positive total, divided by that total, gives back c. */
  lemma QuotientOfProduct(a: real, c: real, t: real)
    requires 0.0 < t && a == c * t
    ensures a / t == c
  {
    var q := a / t;
    assert q * t == a;
    assert q < c ==> (c - q) * t > 0.0;
    assert q > c ==> (q - c) * t > 0.0;
  }

  /** An amount of at most c per unit of a positive total gives a quotient of at most c. */
  lemma QuotientAtMost(a: real, t: real, c: real)
    requires 0.0 <= a && 0.0 < t && a <= c * t
    ensures 0.0 <= a / t <= c
  {
    var q := a / t;
    assert q * t == a;
    assert q < 0.0 ==> q * t < 0.0;
    assert q > c ==> (q - c) * t > 0.0;
  }

  /** The sum of a sequence of channel values (numpy accumulates without overflow). */
  function SumBytes(v: seq<Byte>): (s: nat)
    ensures s <= 255 * |v|
  {
    if v == [] then 0 else v[0] + SumBytes(v[1..])
  }

  /** Summing n copies of the same channel value c gives c * n. */
  lemma {:induction false} SumBytesOfUniform(v: seq<Byte>, c: Byte)
    requires forall i :: 0 <= i < |v| ==> v[i] == c
    ensures SumBytes(v) == c * |v|
  {
    if v != [] {
      SumBytesOfUniform(v[1..], c);
      assert SumBytes(v) == c + c * (|v| - 1);
    }
  }

  /** The values summed are each at most t, so the sum is at most t * n. */
  lemma {:induction false} SumBytesAtMost(v: seq<Byte>, t: Byte)
    requires forall i :: 0 <= i < |v| ==> v[i] <= t
    ensures SumBytes(v) <= t * |v|
  {
    if v != [] {
      SumBytesAtMost(v[1..], t);
      assert SumBytes(v) <= t + t * (|v| - 1);
    }
  }

  /** The sum of a sequence of counts. */
  function Sum(h: seq<nat>): nat
  {
    if h == [] then 0 else h[0] + Sum(h[1..])
  }

  /** A sequence of zero counts sums to zero. */
  lemma {:induction false} ZeroSum(h: seq<nat>)
    requires forall i :: 0 <= i < |h| ==> h[i] == 0
    ensures Sum(h) == 0
  {
    if h != [] {
      ZeroSum(h[1..]);
    }
  }

  /** No single count exceeds the total. */
  lemma {:induction false} CountAtMostSum(h: seq<nat>, k: nat)
    requires k < |h|
    ensures h[k] <= Sum(h)
  {
    if k > 0 {
      CountAtMostSum(h[1..], k - 1);
    }
  }

  /** Adding one to a single count adds one to the total. */
  lemma {:induction false} SumIncrement(h: seq<nat>, k: nat)
    requires k < |h|
    ensures Sum(h[k := h[k] + 1]) == Sum(h) + 1
  {
    if k == 0 {
      assert h[k := h[k] + 1][1..] == h[1..];
    } else {
      assert h[k := h[k] + 1][1..] == h[1..][k - 1 := h[k] + 1];
      SumIncrement(h[1..], k - 1);
    }
  }

  /** The sum of a sequence of reals. */
  function SumReal(p: seq<real>): real
  {
    if p == [] then 0.0 else p[0] + SumReal(p[1..])
  }
}
