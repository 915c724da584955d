/** mult and square of curve25519.c: the schoolbook product of two limb
    vectors, with the limbs that would land at positions 32..62 folded back
    into positions 0..30 times 38 (2^256 = 2p + 38), followed by squeeze. */
module FieldMult {
  import opened Bits
  import opened Field

  /** Limb bound under which the 32-bit accumulator of mult and square cannot
      wrap: 32 terms of at most 38 * 1024 * 1024 stay below 2^31. */
  const LimbMax: nat := 1024

  /** Largest single term 38 * a[k] * b[m] of the convolution. */
  const TermMax: nat := 38 * 1024 * 1024

  /** Term k of output limb i (curve25519.c:93-94): a[k] * b[i - k] for k <= i,
      and 38 * a[k] * b[i + 32 - k] for the wrapped-around part. */
  function Term(a: seq<nat>, b: seq<nat>, i: nat, k: nat): nat
    requires |a| == 32 && |b| == 32 && i < 32 && k < 32
  {
    if k <= i then a[k] * b[i - k] else 38 * a[k] * b[i + 32 - k]
  }

  /** The sum of Term(a, b, i, k) for lo <= k < hi. */
  function ConvSum(a: seq<nat>, b: seq<nat>, i: nat, lo: nat, hi: nat): nat
    requires |a| == 32 && |b| == 32 && i < 32 && lo <= hi <= 32
    decreases hi - lo
  {
    if hi == lo then 0 else ConvSum(a, b, i, lo, hi - 1) + Term(a, b, i, hi - 1)
  }

  /** The unreduced limbs mult computes before its final squeeze. */
  function Conv(a: seq<nat>, b: seq<nat>): seq<nat>
    requires |a| == 32 && |b| == 32
  {
    seq(32, i requires 0 <= i < 32 => ConvSum(a, b, i, 0, 32))
  }

  // ---------------------------------------------------------------------
  // Sums over index ranges

  lemma {:induction false} ConvSumSplit(a: seq<nat>, b: seq<nat>, i: nat, lo: nat, mid: nat, hi: nat)
    requires |a| == 32 && |b| == 32 && i < 32 && lo <= mid <= hi <= 32
    ensures ConvSum(a, b, i, lo, hi) == ConvSum(a, b, i, lo, mid) + ConvSum(a, b, i, mid, hi)
    decreases hi - mid
  {
    if hi > mid {
      ConvSumSplit(a, b, i, lo, mid, hi - 1);
    }
  }

  lemma MulBound(x: nat, y: nat, m: nat)
    requires x <= m && y <= m
    ensures x * y <= m * m
  {
    assert x * y <= m * y;
    assert m * y <= m * m;
  }

  lemma TermBound(a: seq<nat>, b: seq<nat>, i: nat, k: nat)
    requires Bounded(a, LimbMax) && Bounded(b, LimbMax) && i < 32 && k < 32
    ensures Term(a, b, i, k) <= TermMax
  {
    if k <= i {
      MulBound(a[k], b[i - k], LimbMax);
    } else {
      MulBound(a[k], b[i + 32 - k], LimbMax);
    }
  }

  lemma {:induction false} ConvSumBound(a: seq<nat>, b: seq<nat>, i: nat, lo: nat, hi: nat)
    requires Bounded(a, LimbMax) && Bounded(b, LimbMax) && i < 32 && lo <= hi <= 32
    ensures ConvSum(a, b, i, lo, hi) <= (hi - lo) * TermMax
    decreases hi - lo
  {
    if hi > lo {
      ConvSumBound(a, b, i, lo, hi - 1);
      TermBound(a, b, i, hi - 1);
    }
  }

  /** Every unreduced limb of mult stays below 2^31, so squeeze may take it. */
  lemma ConvBound(a: seq<nat>, b: seq<nat>)
    requires Bounded(a, LimbMax) && Bounded(b, LimbMax)
    ensures forall i :: 0 <= i < 32 ==> Conv(a, b)[i] < Two31
  {
    forall i | 0 <= i < 32
      ensures Conv(a, b)[i] < Two31
    {
      ConvSumBound(a, b, i, 0, 32);
    }
  }

  // ---------------------------------------------------------------------
  // The value of the convolution modulo p

  /** b times 256^k with the overflow folded back times 38: limb i is
      b[i - k] for k <= i and 38 * b[i + 32 - k] otherwise. */
  function Shifted(b: seq<nat>, k: nat): seq<nat>
    requires |b| == 32 && k < 32
  {
    seq(32, i requires 0 <= i < 32 => if k <= i then b[i - k] else 38 * b[i + 32 - k])
  }

  /** One more shift: the top limb comes round to the bottom times 38. */
  lemma ShiftedStep(b: seq<nat>, k: nat)
    requires |b| == 32 && k < 31
    ensures Shifted(b, k + 1) == [38 * Shifted(b, k)[31]] + Shifted(b, k)[..31]
  {
  }

  /** Rotating the limbs up by one and folding the top limb times 38
      multiplies the value by 256, less a multiple of 2p. */
  lemma RotValue(v: seq<nat>, r: seq<nat>)
    requires |v| == 32 && r == [38 * v[31]] + v[..31]
    ensures Value(r) + 2 * P * v[31] == 256 * Value(v)
  {
    assert r[1..] == v[..31];
    ValueTop(v);
    PowFacts();
    assert 256 * Top == 2 * P + 38;
  }

  lemma {:induction false} ShiftedValue(b: seq<nat>, k: nat)
    requires |b| == 32 && k < 32
    ensures Value(Shifted(b, k)) % P == (Pow256(k) * Value(b)) % P
    decreases k
  {
    if k == 0 {
      assert Shifted(b, 0) == b;
    } else {
      ShiftedValue(b, k - 1);
      var v := Shifted(b, k - 1);
      ShiftedStep(b, k - 1);
      RotValue(v, Shifted(b, k));
      ModMultiple(Value(Shifted(b, k)), 256 * Value(v), -2 * (v[31] as int));
      ModMul(256, Value(v), 256, Pow256(k - 1) * Value(b));
      ScaleAssoc(Pow256(k - 1), Value(b), Pow256(k));
    }
  }

  lemma ScaleAssoc(w: int, x: int, w': int)
    requires w' == 256 * w
    ensures 256 * (w * x) == w' * x
  {
  }

  /** The convolution restricted to the first n terms of every limb. */
  function Partial(a: seq<nat>, b: seq<nat>, n: nat): seq<nat>
    requires |a| == 32 && |b| == 32 && n <= 32
  {
    seq(32, i requires 0 <= i < 32 => ConvSum(a, b, i, 0, n))
  }

  /** Adding term n to every limb adds a[n] times b shifted by n. */
  lemma PartialStep(a: seq<nat>, b: seq<nat>, n: nat)
    requires |a| == 32 && |b| == 32 && n < 32
    ensures Value(Partial(a, b, n + 1)) == Value(Partial(a, b, n)) + a[n] * Value(Shifted(b, n))
  {
    var s := Shifted(b, n);
    forall i | 0 <= i < 32
      ensures Partial(a, b, n + 1)[i] == Partial(a, b, n)[i] + a[n] * s[i]
    {
      if n > i {
        assert 38 * a[n] * b[i + 32 - n] == a[n] * (38 * b[i + 32 - n]);
      }
    }
    ValueLinear(Partial(a, b, n + 1), Partial(a, b, n), s, a[n]);
  }

  /** a' = a + d*y with a == x*w and y == z*w (mod p), d*z added to x: the step of PartialValue. */
  lemma CongruenceStep(a': int, a: int, d: int, y: int, x: int, z: int, w: int, x': int)
    requires a' == a + d * y && x' == x + d * z
    requires a % P == (x * w) % P && y % P == (z * w) % P
    ensures a' % P == (x' * w) % P
  {
    ModMul(d, y, d, z * w);
    ModAdd(a, d * y, x * w, d * (z * w));
    assert x * w + d * (z * w) == (x + d * z) * w;
  }

  lemma {:induction false} PartialValue(a: seq<nat>, b: seq<nat>, n: nat)
    requires |a| == 32 && |b| == 32 && n <= 32
    ensures Value(Partial(a, b, n)) % P == (Value(a[..n]) * Value(b)) % P
    decreases n
  {
    if n == 0 {
      assert Value(Partial(a, b, 0)) == 0 by {
        ValueRange(Partial(a, b, 0), 0, 0);
      }
      assert Value(a[..0]) == 0;
    } else {
      var x := Value(a[..n - 1]);
      assert Value(a[..n]) == x + a[n - 1] * Pow256(n - 1) by {
        assert a[..n] == a[..n - 1] + [a[n - 1]];
        ValueSnoc(a[..n - 1], a[n - 1]);
      }
      assert Value(Partial(a, b, n)) % P == (Value(a[..n]) * Value(b)) % P by {
        PartialValue(a, b, n - 1);
        PartialStep(a, b, n - 1);
        ShiftedValue(b, n - 1);
        CongruenceStep(Value(Partial(a, b, n)), Value(Partial(a, b, n - 1)), a[n - 1],
                       Value(Shifted(b, n - 1)), x, Pow256(n - 1), Value(b), Value(a[..n]));
      }
    }
  }

  /** The folded convolution is congruent to the product: 2^256 = 38 (mod p). */
  lemma ConvValue(a: seq<nat>, b: seq<nat>)
    requires |a| == 32 && |b| == 32
    ensures Value(Conv(a, b)) % P == (Value(a) * Value(b)) % P
  {
    PartialValue(a, b, 32);
    assert Partial(a, b, 32) == Conv(a, b);
    assert a[..32] == a;
  }

  // ---------------------------------------------------------------------
  // mult (curve25519.c:85-98)

  /** The product both mult and square compute: the squeezed convolution,
      a squeezed vector congruent to the product of the values. */
  function Product(a: seq<nat>, b: seq<nat>): (r: seq<nat>)
    requires Bounded(a, LimbMax) && Bounded(b, LimbMax)
    ensures Squeezed(r)
    ensures Value(r) % P == (Value(a) * Value(b)) % P
  {
    ConvBound(a, b);
    ConvValue(a, b);
    Squeeze(Conv(a, b))
  }

  /** mult: for each output limb i, accumulates a[j] * b[i - j] for j <= i and
      38 * a[j] * b[i + 32 - j] for j > i in the 32-bit `u`, then squeezes.
      With limbs at most 1024 no product and no partial sum wraps. */
  method Mult(a: seq<nat>, b: seq<nat>) returns (out: seq<nat>)
    requires Bounded(a, LimbMax) && Bounded(b, LimbMax)
    ensures out == Product(a, b)
    ensures Squeezed(out)
    ensures Value(out) % P == (Value(a) * Value(b)) % P
  {
    var limbs: seq<nat> := [];
    for i := 0 to 32
      invariant limbs == Conv(a, b)[..i]
    {
      var u := MultLimb(a, b, i);
      ConvPrefix(a, b, i, limbs, u);
      limbs := limbs + [u];
    }
    assert limbs == Conv(a, b);
    ConvBound(a, b);
    out := Squeeze(limbs);
  }

  /** Limb i of mult's convolution: a[j] * b[i - j] for j <= i, then
      38 * a[j] * b[i + 32 - j] for j > i. */
  method MultLimb(a: seq<nat>, b: seq<nat>, i: nat) returns (u: u32)
    requires Bounded(a, LimbMax) && Bounded(b, LimbMax) && i < 32
    ensures u == ConvSum(a, b, i, 0, 32)
  {
    u := 0;
    for j := 0 to i + 1
      invariant u == ConvSum(a, b, i, 0, j)
    {
      ConvSumBound(a, b, i, 0, j + 1);
      u := u + a[j] * b[i - j];
    }
    for j := i + 1 to 32
      invariant u == ConvSum(a, b, i, 0, j)
    {
      ConvSumBound(a, b, i, 0, j + 1);
      u := u + 38 * a[j] * b[i + 32 - j];
    }
  }

  /** Appending limb i of the convolution to its first i limbs gives the first i + 1. */
  lemma ConvPrefix(a: seq<nat>, b: seq<nat>, i: nat, limbs: seq<nat>, u: nat)
    requires |a| == 32 && |b| == 32 && i < 32
    requires limbs == Conv(a, b)[..i] && u == ConvSum(a, b, i, 0, 32)
    ensures limbs + [u] == Conv(a, b)[..i + 1]
  {
    var c := Conv(a, b);
    assert c[i] == u;
    PrefixSnoc(c, i, limbs, u);
  }

  lemma PrefixSnoc(s: seq<nat>, i: nat, limbs: seq<nat>, u: nat)
    requires i < |s| && limbs == s[..i] && u == s[i]
    ensures limbs + [u] == s[..i + 1]
  {
    assert s[..i + 1] == s[..i] + [s[i]];
  }

  // ---------------------------------------------------------------------
  // square (curve25519.c:113-131)

  /** When a = b the terms of limb i pair up: k with i - k below the diagonal
      and k with i + 32 - k above it, so a range symmetric about its middle
      sums to twice its lower half plus the middle term when its length is odd. */
  lemma {:induction false} MirrorSum(a: seq<nat>, i: nat, lo: nat, hi: nat)
    requires |a| == 32 && i < 32 && lo <= hi <= 32
    requires (lo + hi == i + 1 && hi <= i + 1) || (lo + hi == i + 33 && lo >= i + 1)
    ensures ConvSum(a, a, i, lo, hi)
         == 2 * ConvSum(a, a, i, lo, (lo + hi) / 2)
            + (if (hi - lo) % 2 == 1 then Term(a, a, i, (lo + hi) / 2) else 0)
    decreases hi - lo
  {
    var mid := (lo + hi) / 2;
    if hi - lo >= 2 {
      MirrorSum(a, i, lo + 1, hi - 1);
      ConvSumSplit(a, a, i, lo, lo + 1, hi - 1);
      ConvSumSplit(a, a, i, lo, lo + 1, mid);
      MirrorTerm(a, i, lo, hi - 1);
    }
  }

  /** Term k and its mirror image have the same value when a = b. */
  lemma MirrorTerm(a: seq<nat>, i: nat, k: nat, m: nat)
    requires |a| == 32 && i < 32 && k < 32 && m < 32
    requires (k + m == i && m <= i) || (k + m == i + 32 && k >= i + 1 && m >= i + 1)
    ensures Term(a, a, i, k) == Term(a, a, i, m)
  {
  }

  /** The decomposition square's loops follow: twice the strictly-lower
      halves of both ranges plus, for even i, the two diagonal squares. */
  lemma SquareSum(a: seq<nat>, i: nat)
    requires |a| == 32 && i < 32
    ensures ConvSum(a, a, i, 0, 32)
         == 2 * (ConvSum(a, a, i, 0, (i + 1) / 2) + ConvSum(a, a, i, i + 1, (i + 33) / 2))
            + (if i % 2 == 0 then a[i / 2] * a[i / 2] + 38 * a[i / 2 + 16] * a[i / 2 + 16] else 0)
  {
    ConvSumSplit(a, a, i, 0, i + 1, 32);
    LowerMirror(a, i);
    UpperMirror(a, i);
  }

  /** The terms a[k] * a[i - k], k <= i, pair up around k = i / 2. */
  lemma LowerMirror(a: seq<nat>, i: nat)
    requires |a| == 32 && i < 32
    ensures ConvSum(a, a, i, 0, i + 1)
         == 2 * ConvSum(a, a, i, 0, (i + 1) / 2) + (if i % 2 == 0 then a[i / 2] * a[i / 2] else 0)
  {
    MirrorSum(a, i, 0, i + 1);
    if i % 2 == 0 {
      assert (i + 1) / 2 == i / 2 && i - i / 2 == i / 2;
    }
  }

  /** The terms 38 * a[k] * a[i + 32 - k], k > i, pair up around k = i / 2 + 16. */
  lemma UpperMirror(a: seq<nat>, i: nat)
    requires |a| == 32 && i < 32
    ensures ConvSum(a, a, i, i + 1, 32)
         == 2 * ConvSum(a, a, i, i + 1, (i + 33) / 2)
            + (if i % 2 == 0 then 38 * a[i / 2 + 16] * a[i / 2 + 16] else 0)
  {
    MirrorSum(a, i, i + 1, 32);
    if i % 2 == 0 {
      assert (i + 33) / 2 == i / 2 + 16 && i + 32 - (i / 2 + 16) == i / 2 + 16;
    }
  }

  /** square: the loops run j over the lower half of each mirrored range only,
      double the sum, then add the diagonal terms a[i/2]^2 and
      38 * a[i/2 + 16]^2 when i is even. The limbs equal mult(a, a)'s. */
  method Square(a: seq<nat>) returns (out: seq<nat>)
    requires Bounded(a, LimbMax)
    ensures out == Product(a, a)
    ensures Squeezed(out)
    ensures Value(out) % P == (Value(a) * Value(a)) % P
  {
    var limbs: seq<nat> := [];
    for i := 0 to 32
      invariant |limbs| == i
      invariant limbs == Conv(a, a)[..i]
    {
      var u := SquareLimb(a, i);
      ConvPrefix(a, a, i, limbs, u);
      limbs := limbs + [u];
    }
    assert limbs == Conv(a, a);
    ConvBound(a, a);
    out := Squeeze(limbs);
  }

  /** Limb i of square's convolution: the terms below the diagonal, then those
      above it (times 38), doubled, plus the diagonal terms when i is even. */
  method SquareLimb(a: seq<nat>, i: nat) returns (u: u32)
    requires Bounded(a, LimbMax) && i < 32
    ensures u == ConvSum(a, a, i, 0, 32)
  {
    u := 0;
    var j := 0;
    while j < i - j
      invariant 0 <= j <= (i + 1) / 2
      invariant u == ConvSum(a, a, i, 0, j)
    {
      SquareStep(a, i, 0, j);
      u := u + a[j] * a[i - j];
      j := j + 1;
    }
    var low := u;
    SquareLow(a, i, low);
    j := i + 1;
    while j < i + 32 - j
      invariant i + 1 <= j <= 32 && j <= (i + 33) / 2
      invariant u == low + ConvSum(a, a, i, i + 1, j)
    {
      SquareStep(a, i, i + 1, j);
      u := u + 38 * a[j] * a[i + 32 - j];
      j := j + 1;
    }
    SquareTail(a, i, low, u);
    u := 2 * u;
    if i % 2 == 0 {
      u := u + a[i / 2] * a[i / 2];
      u := u + 38 * a[i / 2 + 16] * a[i / 2 + 16];
    }
    assert u == ConvSum(a, a, i, 0, 32) by {
      SquareSum(a, i);
    }
  }

  /** One step of either loop of square: the term added and the bound on the new partial sum. */
  lemma SquareStep(a: seq<nat>, i: nat, lo: nat, j: nat)
    requires Bounded(a, LimbMax) && i < 32 && lo <= j < 32
    requires (lo == 0 && 2 * j < i) || (lo == i + 1 && 2 * j < i + 32)
    ensures ConvSum(a, a, i, lo, j + 1) == ConvSum(a, a, i, lo, j)
              + (if lo == 0 then a[j] * a[i - j] else 38 * a[j] * a[i + 32 - j])
    ensures ConvSum(a, a, i, lo, j + 1) <= 16 * TermMax
  {
    assert ConvSum(a, a, i, lo, j + 1) == ConvSum(a, a, i, lo, j) + Term(a, a, i, j);
    ConvSumBound(a, a, i, lo, j + 1);
    LengthBound(j + 1 - lo, 16);
  }

  /** The lower half of the first range of square: at most 16 terms. */
  lemma SquareLow(a: seq<nat>, i: nat, low: nat)
    requires Bounded(a, LimbMax) && i < 32
    requires low == ConvSum(a, a, i, 0, (i + 1) / 2)
    ensures low <= 16 * TermMax
  {
    ConvSumBound(a, a, i, 0, (i + 1) / 2);
    LengthBound((i + 1) / 2, 16);
  }

  lemma LengthBound(n: nat, m: nat)
    requires n <= m
    ensures n * TermMax <= m * TermMax
  {
  }

  /** Before the doubling, the accumulator of square holds the two lower
      halves, each at most 16 terms; doubling and the diagonal terms keep it
      below 2^32. */
  lemma SquareTail(a: seq<nat>, i: nat, low: nat, u: nat)
    requires Bounded(a, LimbMax) && i < 32
    requires low == ConvSum(a, a, i, 0, (i + 1) / 2)
    requires u == low + ConvSum(a, a, i, i + 1, (i + 33) / 2)
    ensures 0 <= a[i / 2] * a[i / 2] <= LimbMax * LimbMax
    ensures 0 <= 38 * a[i / 2 + 16] * a[i / 2 + 16] <= TermMax
    ensures 2 * u + a[i / 2] * a[i / 2] + 38 * a[i / 2 + 16] * a[i / 2 + 16] < 0x1_0000_0000
  {
    SquareLow(a, i, low);
    ConvSumBound(a, a, i, i + 1, (i + 33) / 2);
    LengthBound((i + 33) / 2 - (i + 1), 16);
    DiagonalBound(a[i / 2], a[i / 2 + 16]);
  }

  lemma DiagonalBound(x: nat, y: nat)
    requires x <= LimbMax && y <= LimbMax
    ensures 0 <= x * x <= LimbMax * LimbMax
    ensures 0 <= 38 * y * y <= TermMax
  {
    MulBound(x, x, LimbMax);
    MulBound(y, y, LimbMax);
    assert 38 * y * y == 38 * (y * y);
  }
}
