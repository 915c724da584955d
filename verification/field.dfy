/** Arithmetic on elements of GF(2^255 - 19) in the representation of
    curve25519.c: 32 unsigned 32-bit limbs in radix 256, whose value is
    sum of limb[i] * 256^i. Limbs may hold more than a byte between
    reductions; every function states the limb bounds under which the
    source's 32-bit accumulator `u` cannot wrap. */
module Field {
  import opened Bits

  /** The field prime p = 2^255 - 19 (section 4.1 of RFC 7748). */
  const P: int := 0x7fffffffffffffffffffffffffffffffffffffffffffffffffffffffffffffed

  /** 2^31: limbs and carries below this keep every `u += ...` of the source under 2^32. */
  const Two31: nat := 0x8000_0000

  /** 256^31 = 2^248, the weight of the top limb. */
  const Top: nat := 0x1_00000000_00000000_00000000_00000000_00000000_00000000_00000000_000000

  function Pow256(n: nat): (r: nat)
    ensures r > 0
  {
    if n == 0 then 1 else 256 * Pow256(n - 1)
  }

  /** The integer a limb vector stands for: little-endian, radix 256. */
  function Value(s: seq<int>): int {
    if |s| == 0 then 0 else s[0] + 256 * Value(s[1..])
  }

  /** Every limb at most m. */
  predicate Bounded(a: seq<nat>, m: nat) {
    |a| == 32 && forall j :: 0 <= j < 32 ==> a[j] <= m
  }

  /** The output shape of squeeze: limbs 0..30 are bytes, limb 31 is at most 128. */
  predicate Squeezed(a: seq<nat>) {
    |a| == 32 && (forall j :: 0 <= j < 31 ==> a[j] <= 255) && a[31] <= 128
  }

  /** Reduction of an integer into [0, p), the meaning of a field element. */
  function Mod(x: int): int {
    x % P
  }

  // ---------------------------------------------------------------------
  // Powers of 256 and the value of limb vectors

  lemma {:induction false} Pow256Add(m: nat, n: nat)
    ensures Pow256(m + n) == Pow256(m) * Pow256(n)
    decreases m
  {
    if m > 0 {
      Pow256Add(m - 1, n);
    }
  }

  /** 256^31 = 2^248, 2^255 = 128 * 256^31 = p + 19 and 2^256 = 256^32 = 2p + 38. */
  lemma PowFacts()
    ensures Pow256(31) == Top
    ensures 128 * Top == P + 19
    ensures Pow256(32) == 2 * P + 38
  {
    assert Pow256(3) == 0x100_0000;
    assert Pow256(4) == 0x1_0000_0000;
    Pow256Add(4, 4);
    Pow256Add(8, 8);
    Pow256Add(16, 8);
    Pow256Add(24, 4);
    Pow256Add(28, 3);
    Pow256Add(16, 16);
  }

  lemma {:induction false} ValueSnoc(s: seq<int>, x: int)
    ensures Value(s + [x]) == Value(s) + x * Pow256(|s|)
    decreases |s|
  {
    if |s| > 0 {
      assert (s + [x])[1..] == s[1..] + [x];
      ValueSnoc(s[1..], x);
    }
  }

  /** A 32-limb vector is its low 31 limbs plus the top limb times 2^248. */
  lemma ValueTop(a: seq<int>)
    requires |a| == 32
    ensures Value(a) == Value(a[..31]) + a[31] * Top
  {
    assert a == a[..31] + [a[31]];
    ValueSnoc(a[..31], a[31]);
    PowFacts();
  }

  lemma ValueSnocTop(s: seq<int>, x: int)
    requires |s| == 31
    ensures Value(s + [x]) == Value(s) + x * Top
  {
    ValueSnoc(s, x);
    PowFacts();
  }

  /** Limbs all at least 255k give a value at least k(256^n - 1); at most 255k, at most that. */
  lemma {:induction false} ValueRange(s: seq<int>, lo: int, hi: int)
    requires forall j :: 0 <= j < |s| ==> 255 * lo <= s[j] <= 255 * hi
    ensures lo * (Pow256(|s|) - 1) <= Value(s) <= hi * (Pow256(|s|) - 1)
    decreases |s|
  {
    if |s| > 0 {
      ValueRange(s[1..], lo, hi);
      var w := Pow256(|s| - 1);
      assert 256 * (lo * (w - 1)) == lo * (256 * w - 1) - 255 * lo;
      assert 256 * (hi * (w - 1)) == hi * (256 * w - 1) - 255 * hi;
    }
  }

  lemma {:induction false} ValueNonNegative(s: seq<nat>)
    ensures 0 <= Value(s)
    decreases |s|
  {
    if |s| > 0 {
      ValueNonNegative(s[1..]);
    }
  }

  /** A vector of bytes is below 256^n. */
  lemma BytesBelow(s: seq<nat>)
    requires forall j :: 0 <= j < |s| ==> s[j] <= 255
    ensures 0 <= Value(s) < Pow256(|s|)
  {
    ValueRange(s, 0, 1);
  }

  /** Value is linear: limb-wise z = x + c*y gives Value(z) = Value(x) + c*Value(y). */
  lemma {:induction false} ValueLinear(z: seq<int>, x: seq<int>, y: seq<int>, c: int)
    requires |z| == |x| == |y|
    requires forall j :: 0 <= j < |z| ==> z[j] == x[j] + c * y[j]
    ensures Value(z) == Value(x) + c * Value(y)
    decreases |z|
  {
    if |z| > 0 {
      ValueLinear(z[1..], x[1..], y[1..], c);
      assert 256 * (c * Value(y[1..])) + c * y[0] == c * Value(y);
    }
  }

  // ---------------------------------------------------------------------
  // Congruence modulo p

  lemma ModMultiple(x: int, y: int, q: int)
    requires x == y + q * P
    ensures x % P == y % P
  {
  }

  lemma ModIdem(x: int)
    ensures 0 <= x % P < P && (x % P) % P == x % P
  {
    ModMultiple(x, x % P, x / P);
  }

  lemma ModSmall(x: int)
    requires 0 <= x < P
    ensures x % P == x
  {
  }

  lemma ModAdd(x: int, y: int, x': int, y': int)
    requires x % P == x' % P && y % P == y' % P
    ensures (x + y) % P == (x' + y') % P
  {
    ModMultiple(x + y, x' + y', (x / P - x' / P) + (y / P - y' / P));
  }

  lemma ModSub(x: int, y: int, x': int, y': int)
    requires x % P == x' % P && y % P == y' % P
    ensures (x - y) % P == (x' - y') % P
  {
    ModMultiple(x - y, x' - y', (x / P - x' / P) - (y / P - y' / P));
  }

  lemma ModMul(x: int, y: int, x': int, y': int)
    requires x % P == x' % P && y % P == y' % P
    ensures (x * y) % P == (x' * y') % P
  {
    var qx, qy := x / P - x' / P, y / P - y' / P;
    assert x == x' + qx * P && y == y' + qy * P;
    assert x * y == x' * y' + (x' * qy + qx * y' + qx * qy * P) * P;
    ModMultiple(x * y, x' * y', x' * qy + qx * y' + qx * qy * P);
  }

  // ---------------------------------------------------------------------
  // Carry propagation: the loop `u += c[j]; out[j] = u & 255; u >>= 8`
  // shared by add, sub, squeeze and mult121665 (curve25519.c:41, 50-54, 64, 67, 106, 109).

  datatype Carried = Carried(limbs: seq<nat>, carry: nat)

  /** Propagates carries through c starting from carry u. Every accumulator
      value u + c[j] stays below 2^32 because both terms are below 2^31. */
  function Carry(c: seq<nat>, u: nat): (r: Carried)
    requires u < Two31
    requires forall j :: 0 <= j < |c| ==> c[j] < Two31
    ensures |r.limbs| == |c|
    ensures forall j :: 0 <= j < |c| ==> r.limbs[j] <= 255
    ensures r.carry < Two31
    ensures Value(r.limbs) + r.carry * Pow256(|c|) == Value(c) + u
    decreases |c|
  {
    if |c| == 0 then Carried([], u)
    else
      var v := u + c[0];
      var t := Carry(c[1..], v / 256);
      CarryStep(c, u, v, t.limbs, t.carry);
      Carried([v % 256] + t.limbs, t.carry)
  }

  /** One step of the carry chain preserves the value equation. */
  lemma CarryStep(c: seq<nat>, u: nat, v: nat, rest: seq<nat>, w: nat)
    requires |c| > 0 && v == u + c[0] && |rest| == |c| - 1
    requires Value(rest) + w * Pow256(|c| - 1) == Value(c[1..]) + v / 256
    ensures Value([v % 256] + rest) + w * Pow256(|c|) == Value(c) + u
  {
    assert ([v % 256] + rest)[1..] == rest;
    var X := Pow256(|c| - 1);
    var vr, vc := Value(rest), Value(c[1..]);
    assert Value([v % 256] + rest) == v % 256 + 256 * vr;
    assert Value(c) == c[0] + 256 * vc;
    assert Pow256(|c|) == 256 * X;
    MulComm(w, 256, X);
    assert v == 256 * (v / 256) + v % 256;
  }

  /** The carry out of a 31-limb chain is between lo and hi when every limb
      lies in [255*lo, 255*hi] and the carry in is small. */
  lemma CarryRange(c: seq<nat>, u: nat, lo: int, hi: nat)
    requires |c| == 31 && u < Two31
    requires forall j :: 0 <= j < 31 ==> c[j] < Two31 && 255 * lo <= c[j] <= 255 * hi
    ensures lo * Top + u - Top - lo < Carry(c, u).carry * Top + Top
    ensures Carry(c, u).carry * Top <= hi * (Top - 1) + u
  {
    var r := Carry(c, u);
    PowFacts();
    ValueRange(c, lo, hi);
    BytesBelow(r.limbs);
    ValueNonNegative(r.limbs);
  }

  /** w*X <= e < (k+1)*X implies w <= k. */
  lemma QuotientAtMost(w: int, X: int, e: int, k: int)
    requires X > 0 && w * X <= e < (k + 1) * X
    ensures w <= k
  {
  }

  /** k*X < w*X + X implies k <= w. */
  lemma QuotientAtLeast(w: int, X: int, k: int)
    requires X > 0 && k * X < w * X + X
    ensures k <= w
  {
    assert (k - w) * X == k * X - w * X;
    NonPositiveFactor(k - w, X);
  }


  // ---------------------------------------------------------------------
  // add, sub, squeeze, mult121665 (curve25519.c:36-69, 100-111)

  /** add (curve25519.c:36-43): limb-wise sum with carries through limbs 0..30;
      the top limb keeps whatever arrives. */
  function Add(a: seq<nat>, b: seq<nat>): (out: seq<nat>)
    requires |a| == 32 && |b| == 32
    requires forall j :: 0 <= j < 32 ==> a[j] + b[j] < Two31
    ensures |out| == 32
    ensures Value(out) == Value(a) + Value(b)
    ensures forall j :: 0 <= j < 31 ==> out[j] <= 255
    ensures out[31] < 0x1_0000_0000
    ensures Bounded(a, 255) && Bounded(b, 255) ==> out[31] <= a[31] + b[31] + 1
  {
    var c := seq(31, j requires 0 <= j < 31 => a[j] + b[j]);
    var t := Carry(c, 0);
    PowFacts();
    var out := t.limbs + [t.carry + a[31] + b[31]];
    assert out[..31] == t.limbs;
    AddValue(a, b, c, out, t.carry);
    AddCarry(a, b, c);
    out
  }

  lemma AddValue(a: seq<nat>, b: seq<nat>, c: seq<nat>, out: seq<nat>, carry: nat)
    requires |a| == 32 && |b| == 32 && |c| == 31 && |out| == 32
    requires forall j :: 0 <= j < 31 ==> c[j] == a[j] + b[j]
    requires Value(out[..31]) + carry * Top == Value(c)
    requires out[31] == carry + a[31] + b[31]
    ensures Value(out) == Value(a) + Value(b)
  {
    ValueLinear(c, a[..31], b[..31], 1);
    AddTail(a, b, out, carry, Value(c));
  }

  lemma AddTail(a: seq<nat>, b: seq<nat>, out: seq<nat>, carry: nat, vc: int)
    requires |a| == 32 && |b| == 32 && |out| == 32
    requires vc == Value(a[..31]) + Value(b[..31])
    requires Value(out[..31]) + carry * Top == vc
    requires out[31] == carry + a[31] + b[31]
    ensures Value(out) == Value(a) + Value(b)
  {
    ValueTop(a);
    ValueTop(b);
    ValueTop(out);
    assert out[31] * Top == carry * Top + a[31] * Top + b[31] * Top;
  }

  lemma AddCarry(a: seq<nat>, b: seq<nat>, c: seq<nat>)
    requires |a| == 32 && |b| == 32 && |c| == 31
    requires forall j :: 0 <= j < 31 ==> c[j] == a[j] + b[j] < Two31
    ensures Bounded(a, 255) && Bounded(b, 255) ==> Carry(c, 0).carry <= 1
  {
    if Bounded(a, 255) && Bounded(b, 255) {
      CarryAtMost(c, 0, 2);
    }
  }

  /** A chain over limbs at most 255*k with no carry in carries out at most k - 1. */
  lemma CarryAtMost(c: seq<nat>, u: nat, k: nat)
    requires |c| == 31 && u < Two31 && u < k
    requires forall j :: 0 <= j < 31 ==> c[j] < Two31 && c[j] <= 255 * k
    ensures Carry(c, u).carry <= k - 1
  {
    var r := Carry(c, u);
    assert r.carry * Top <= k * (Top - 1) + u by {
      PowFacts();
      ValueRange(c, 0, k);
      ValueNonNegative(r.limbs);
    }
    QuotientAtMost(r.carry, Top, k * (Top - 1) + u, k - 1);
  }

  /** The per-limb bias of sub: 218 + sum of 65280 * 256^j for j < 31 equals 2^256 - 38 = 2p. */
  lemma SubBias()
    ensures 218 + Value(seq(31, j => 65280)) == 2 * P
  {
    ValueRange(seq(31, j => 65280), 256, 256);
    PowFacts();
  }

  /** sub (curve25519.c:45-57): a - b + 2p, computed without going negative
      by adding 65280 to limbs 0..30 and 218 to the initial carry. The top
      limb `u + a[31] - b[31]` is non-negative because the carry into it is
      at least 254. */
  function Sub(a: seq<nat>, b: seq<nat>): (out: seq<nat>)
    requires |a| == 32 && |b| == 32
    requires forall j :: 0 <= j < 31 ==> a[j] < Two31 - 65280 && b[j] <= 255
    requires a[31] < Two31 && b[31] <= a[31] + 254
    ensures |out| == 32
    ensures Value(out) == Value(a) - Value(b) + 2 * P
    ensures forall j :: 0 <= j < 31 ==> out[j] <= 255
    ensures out[31] < 0x1_0000_0000
    ensures Bounded(a, 255) ==> out[31] <= a[31] + 256 - b[31]
  {
    var c := seq(31, j requires 0 <= j < 31 => a[j] + 65280 - b[j]);
    var t := Carry(c, 218);
    PowFacts();
    SubCarry(a, b, c, t.limbs, t.carry);
    var out := t.limbs + [t.carry + a[31] - b[31]];
    assert out[..31] == t.limbs;
    SubValue(a, b, c, out, t.carry);
    out
  }

  /** The carry into the top limb of sub is at least 254, and at most 256 for byte limbs. */
  lemma SubCarry(a: seq<nat>, b: seq<nat>, c: seq<nat>, limbs: seq<nat>, carry: nat)
    requires |a| == 32 && |b| == 32 && |c| == 31 && |limbs| == 31
    requires forall j :: 0 <= j < 31 ==> a[j] < Two31 - 65280 && b[j] <= 255
    requires forall j :: 0 <= j < 31 ==> c[j] == a[j] as int + 65280 - b[j] && limbs[j] <= 255
    requires Value(limbs) + carry * Top == Value(c) + 218
    ensures carry >= 254
    ensures Bounded(a, 255) ==> carry <= 256
  {
    PowFacts();
    BytesBelow(limbs);
    ValueNonNegative(limbs);
    ValueRange(c, 255, 0x81_0000);
    QuotientAtLeast(carry, Top, 254);
    if Bounded(a, 255) {
      ValueRange(c, 255, 257);
      QuotientAtMost(carry, Top, 257 * (Top - 1) + 218, 256);
    }
  }

  lemma SubValue(a: seq<nat>, b: seq<nat>, c: seq<int>, out: seq<int>, carry: nat)
    requires |a| == 32 && |b| == 32 && |c| == 31 && |out| == 32
    requires forall j :: 0 <= j < 31 ==> c[j] == a[j] as int + 65280 - b[j]
    requires Value(out[..31]) + carry * Top == Value(c) + 218
    requires out[31] == carry + a[31] - b[31]
    ensures Value(out) == Value(a) - Value(b) + 2 * P
  {
    SubLimbs(a[..31], b[..31], c);
    SubTail(a, b, out, carry, Value(c));
  }

  lemma SubTail(a: seq<nat>, b: seq<nat>, out: seq<int>, carry: nat, vc: int)
    requires |a| == 32 && |b| == 32 && |out| == 32
    requires vc + 218 == Value(a[..31]) - Value(b[..31]) + 2 * P
    requires Value(out[..31]) + carry * Top == vc + 218
    requires out[31] == carry + a[31] - b[31]
    ensures Value(out) == Value(a) - Value(b) + 2 * P
  {
    ValueTop(a);
    ValueTop(b);
    ValueTop(out);
    assert out[31] * Top == carry * Top + a[31] * Top - b[31] * Top;
  }

  /** The biased limb differences of sub are worth a - b + 2p - 218. */
  lemma SubLimbs(a: seq<int>, b: seq<int>, c: seq<int>)
    requires |a| == 31 && |b| == 31 && |c| == 31
    requires forall j :: 0 <= j < 31 ==> c[j] == a[j] as int + 65280 - b[j]
    ensures Value(c) + 218 == Value(a) - Value(b) + 2 * P
  {
    var k := seq(31, j requires 0 <= j < 31 => a[j] + 65280);
    var bias := seq(31, j => 65280);
    ValueLinear(k, a, bias, 1);
    ValueLinear(c, k, b, -1);
    SubBias();
  }

  /** squeeze (curve25519.c:59-69): one carry pass, the bits of limb 31 from
      bit 7 upwards (value bits 255 and up) folded back in times 19, since
      2^255 = p + 19, then a second carry pass. The result differs from the
      input by a multiple of p, so it is congruent and never larger. */
  function Squeeze(a: seq<nat>): (out: seq<nat>)
    requires |a| == 32 && forall j :: 0 <= j < 32 ==> a[j] < Two31
    ensures Squeezed(out)
    ensures Value(out) <= Value(a)
    ensures Value(out) % P == Value(a) % P
  {
    var t1 := Carry(a[..31], 0);
    var top := t1.carry + a[31];
    var out := SqueezeFold(t1.limbs, top);
    SqueezeTotal(a, t1.limbs, t1.carry, top, out);
    out
  }

  /** The second half of squeeze: fold the bits of the top limb from bit 7
      upwards back in times 19 and carry once more. */
  function SqueezeFold(l1: seq<nat>, top: nat): (out: seq<nat>)
    requires |l1| == 31 && forall j :: 0 <= j < 31 ==> l1[j] <= 255
    requires top < 0x1_0000_0000
    ensures Squeezed(out)
    ensures Value(out) + (top / 128) * P == Value(l1) + top * Top
  {
    PowFacts();
    var t2 := Carry(l1, 19 * (top / 128));
    SqueezeCarry(l1, t2.limbs, t2.carry, 19 * (top / 128));
    var out := t2.limbs + [t2.carry + top % 128];
    assert out[..31] == t2.limbs;
    SqueezeValue(l1, out, t2.carry, top);
    out
  }

  /** Squeeze's two halves together change the value by a non-negative multiple of p. */
  lemma SqueezeTotal(a: seq<nat>, l1: seq<nat>, c1: nat, top: nat, out: seq<nat>)
    requires |a| == 32 && |l1| == 31 && top == c1 + a[31]
    requires Value(l1) + c1 * Pow256(31) == Value(a[..31])
    requires Value(out) + (top / 128) * P == Value(l1) + top * Top
    ensures Value(out) <= Value(a)
    ensures Value(out) % P == Value(a) % P
  {
    PowFacts();
    ValueTop(a);
    assert Value(a) == Value(out) + (top / 128) * P;
    ModMultiple(Value(a), Value(out), top / 128);
  }

  /** The second pass of squeeze, over bytes with a carry in below 2^31, carries out at most 1. */
  lemma SqueezeCarry(l1: seq<nat>, l2: seq<nat>, c2: nat, u: nat)
    requires |l1| == 31 && |l2| == 31 && u < Two31
    requires forall j :: 0 <= j < 31 ==> l1[j] <= 255
    requires Value(l2) + c2 * Top == Value(l1) + u
    ensures c2 <= 1
  {
    PowFacts();
    BytesBelow(l1);
    ValueNonNegative(l2);
    QuotientAtMost(c2, Top, Top - 1 + u, 1);
  }

  lemma SqueezeValue(l1: seq<nat>, out: seq<nat>, c2: nat, top: nat)
    requires |l1| == 31 && |out| == 32
    requires Value(out[..31]) + c2 * Top == Value(l1) + 19 * (top / 128)
    requires out[31] == c2 + top % 128
    ensures Value(out) + (top / 128) * P == Value(l1) + top * Top
  {
    PowFacts();
    ValueTop(out);
    var q := top / 128;
    assert top * Top == (top % 128) * Top + q * (128 * Top);
  }

  /** mult121665 (curve25519.c:100-111) performs exactly squeeze's two passes
      on the limbs 121665 * a[j], so it is that squeeze; 121665 = (486662 - 2) / 4
      is the constant a24 of section 5 of RFC 7748. */
  function Mult121665(a: seq<nat>): (out: seq<nat>)
    requires |a| == 32 && forall j :: 0 <= j < 32 ==> 121665 * a[j] < Two31
    ensures Squeezed(out)
    ensures Value(out) % P == (121665 * Value(a)) % P
  {
    var c := seq(32, j requires 0 <= j < 32 => 121665 * a[j]);
    ScaleValue(c, a, 121665);
    Squeeze(c)
  }

  /** Limb-wise scaling scales the value. */
  lemma ScaleValue(c: seq<int>, a: seq<int>, k: int)
    requires |c| == |a| && forall j :: 0 <= j < |a| ==> c[j] == k * a[j]
    ensures Value(c) == k * Value(a)
  {
    var z := seq(|a|, j => 0);
    ValueLinear(c, z, a, k);
    ValueRange(z, 0, 0);
  }

  // ---------------------------------------------------------------------
  // freeze (curve25519.c:71-83) and the byte store of curve25519.c:285

  /** minusp: 2^256 - p = p + 38, i.e. 19 + 128 * 2^248, so adding it subtracts p modulo 2^256. */
  const MinusP: seq<nat> := [19] + seq(30, j => 0) + [128]

  lemma MinusPValue()
    ensures |MinusP| == 32 && Bounded(MinusP, 255)
    ensures Value(MinusP) == P + 38
  {
    PowFacts();
    ValueTop(MinusP);
    var z := seq(30, j => 0);
    ValueRange(z, 0, 0);
    assert MinusP[..31] == [19] + z;
    assert ([19] + z)[1..] == z;
  }

  /** The store `q[i] = work[64 + i]` into unsigned char keeps the low byte of every limb. */
  function Truncate(a: seq<nat>): (out: seq<nat>)
    ensures |out| == |a|
    ensures forall j :: 0 <= j < |a| ==> out[j] <= 255 && out[j] % 256 == a[j] % 256
  {
    seq(|a|, j requires 0 <= j < |a| => a[j] % 256)
  }

  /** freeze: computes a + minusp, then keeps that sum when its bit 255 is clear
      (a >= p) and restores the original when it is set (a < p), through the
      mask -(bit) applied as `a ^= mask & (aorig ^ a)`. For a squeezed input
      (value below 2p) the kept sum has limb 31 equal to 256 or 257, and the
      low bytes of the result encode the value reduced modulo p. */
  function Freeze(a: seq<nat>): (out: seq<nat>)
    requires Squeezed(a)
    ensures |out| == 32
    ensures Value(a) < P ==> out == a
    ensures Value(a) >= P ==> Value(out) == Value(a) - P + Pow256(32)
    ensures Squeezed(Truncate(out)) && Truncate(out)[31] < 128
    ensures Value(Truncate(out)) == Value(a) % P
  {
    MinusPValue();
    var s := Add(a, MinusP);
    var bit := (s[31] / 128) % 2;
    var negative := (0x1_0000_0000 - bit) % 0x1_0000_0000;
    var out := seq(32, j requires 0 <= j < 32 => Xor(s[j], And(negative, Xor(a[j], s[j]))));
    FreezeSelect(a, s, out);
    out
  }

  /** The masked select of freeze keeps a + minusp exactly when a >= p. */
  lemma FreezeSelect(a: seq<nat>, s: seq<nat>, out: seq<nat>)
    requires Squeezed(a) && |s| == 32 && |out| == 32
    requires forall j :: 0 <= j < 31 ==> s[j] <= 255
    requires s[31] < 0x1_0000_0000
    requires Value(s) == Value(a) + P + 38
    requires forall j :: 0 <= j < 32 ==>
      out[j] == Xor(s[j], And((0x1_0000_0000 - (s[31] / 128) % 2) % 0x1_0000_0000, Xor(a[j], s[j])))
    ensures Value(a) < P ==> out == a
    ensures Value(a) >= P ==> Value(out) == Value(a) - P + Pow256(32)
    ensures Squeezed(Truncate(out)) && Truncate(out)[31] < 128
    ensures Value(Truncate(out)) == Value(a) % P
  {
    FreezeBit(a, s);
    var bit := (s[31] / 128) % 2;
    assert bit == 1 <==> Value(a) < P by {
      TopBit(s[31], Value(a) < P);
    }
    var mask := (0x1_0000_0000 - bit) % 0x1_0000_0000;
    NegateBit(s[31] / 128);
    MaskedSelect(s, a, mask, out);
    assert Value(a) >= P ==> Value(out) == Value(a) - P + Pow256(32) by {
      PowFacts();
    }
    FreezeTruncate(a, out);
  }

  /** The 32-bit negation of a bit is the all-zero or all-ones mask. */
  lemma NegateBit(x: int)
    ensures (0x1_0000_0000 - x % 2) % 0x1_0000_0000 == if x % 2 == 1 then 0xffff_ffff else 0
  {
  }

  /** Bit 7 of a limb in [128, 256) is set; of a limb in [256, 258) it is clear. */
  lemma TopBit(x: nat, low: bool)
    requires low ==> 128 <= x < 256
    requires !low ==> 256 <= x <= 257
    ensures (x / 128) % 2 == 1 <==> low
  {
  }

  /** The word-wise select `keep ^ (mask & (other ^ keep))` of freeze and
      c25519_select: a zero mask keeps, an all-ones mask takes the other. */
  lemma MaskedSelect(keep: seq<nat>, other: seq<nat>, mask: nat, out: seq<nat>)
    requires |keep| == |other| == |out|
    requires mask == 0 || mask == 0xffff_ffff
    requires forall j :: 0 <= j < |keep| ==> keep[j] < 0x1_0000_0000 && other[j] < 0x1_0000_0000
    requires forall j :: 0 <= j < |out| ==> out[j] == Xor(keep[j], And(mask, Xor(other[j], keep[j])))
    ensures out == if mask == 0 then keep else other
  {
    forall j | 0 <= j < |out|
      ensures out[j] == (if mask == 0 then keep else other)[j]
    {
      MaskPick(keep[j], other[j]);
    }
  }

  /** Bit 255 of a + minusp is set exactly when a < p; otherwise limb 31 of the sum is 256 or 257. */
  lemma FreezeBit(a: seq<nat>, s: seq<nat>)
    requires Squeezed(a) && |s| == 32
    requires forall j :: 0 <= j < 31 ==> s[j] <= 255
    requires Value(s) == Value(a) + P + 38
    ensures Value(a) < P ==> 128 <= s[31] < 256
    ensures Value(a) >= P ==> 256 <= s[31] <= 257
  {
    PowFacts();
    ValueTop(s);
    ValueTop(a);
    BytesBelow(s[..31]);
    BytesBelow(a[..31]);
    if Value(a) < P {
      QuotientAtMost(s[31], Top, Value(s), 255);
      QuotientAtLeast(s[31], Top, 128);
    } else {
      QuotientAtMost(s[31], Top, Value(s), 257);
      QuotientAtLeast(s[31], Top, 256);
    }
  }

  /** The low bytes of freeze's result hold the value reduced modulo p. */
  lemma FreezeTruncate(a: seq<nat>, out: seq<nat>)
    requires Squeezed(a) && |out| == 32
    requires forall j :: 0 <= j < 31 ==> out[j] <= 255
    requires Value(a) < P ==> out == a
    requires Value(a) >= P ==> 256 <= out[31] <= 257 && Value(out) == Value(a) - P + Pow256(32)
    ensures Squeezed(Truncate(out)) && Truncate(out)[31] < 128
    ensures Value(Truncate(out)) == Value(a) % P
  {
    var t := Truncate(out);
    if Value(a) < P {
      assert t == a;
      FreezeLow(a);
    } else {
      FreezeHigh(a, out);
    }
  }

  /** An input below p is its own reduction. */
  lemma FreezeLow(a: seq<nat>)
    requires Squeezed(a) && Value(a) < P
    ensures a[31] < 128 && Value(a) == Value(a) % P
  {
    ValueNonNegative(a);
    TopBelow(a, Value(a));
  }

  /** Dropping the 256 from limb 31 of a + minusp removes 2^256 from the value. */
  lemma FreezeHigh(a: seq<nat>, out: seq<nat>)
    requires Squeezed(a) && |out| == 32
    requires forall j :: 0 <= j < 31 ==> out[j] <= 255
    requires 256 <= out[31] <= 257
    requires Value(out) == Value(a) - P + Pow256(32) && P <= Value(a)
    ensures Truncate(out)[31] < 128
    ensures Value(Truncate(out)) == Value(a) % P
  {
    var t := Truncate(out);
    TruncateHigh(out);
    DropTop(a, out, t);
    TopBelow(t, Value(t));
    ValueNonNegative(t);
    ModMultiple(Value(a), Value(t), 1);
    ModSmall(Value(t));
  }

  lemma DropTop(a: seq<nat>, out: seq<nat>, t: seq<nat>)
    requires Squeezed(a) && |out| == 32 && |t| == 32
    requires t[..31] == out[..31] && t[31] + 256 == out[31]
    requires Value(out) == Value(a) - P + Pow256(32)
    ensures Value(t) == Value(a) - P && Value(t) < P
  {
    PowFacts();
    ValueTop(t);
    ValueTop(out);
    ValueTop(a);
    BytesBelow(a[..31]);
  }

  lemma TruncateHigh(out: seq<nat>)
    requires |out| == 32 && forall j :: 0 <= j < 31 ==> out[j] <= 255
    requires 256 <= out[31] <= 257
    ensures Truncate(out)[..31] == out[..31] && Truncate(out)[31] == out[31] - 256
  {
  }

  /** A vector of bytes below p (or of value below 2^255) has limb 31 below 128. */
  lemma TopBelow(t: seq<nat>, v: int)
    requires |t| == 32 && forall j :: 0 <= j < 31 ==> t[j] <= 255
    requires v == Value(t) && v < P
    ensures t[31] < 128
  {
    PowFacts();
    ValueTop(t);
    ValueNonNegative(t[..31]);
    QuotientAtMost(t[31], Top, v, 127);
  }

  /** Freezing a frozen, truncated element changes nothing. */
  lemma FreezeIdempotent(a: seq<nat>)
    requires Squeezed(a)
    ensures Truncate(Freeze(Truncate(Freeze(a)))) == Truncate(Freeze(a))
  {
    var t := Truncate(Freeze(a));
    assert Value(t) < P;
    assert Freeze(t) == t;
  }

  // ---------------------------------------------------------------------
  // Field elements: the residue a limb vector stands for

  /** The element of GF(p) a limb vector represents. */
  function Elem(a: seq<nat>): int {
    Value(a) % P
  }

  function FAdd(x: int, y: int): int { (x + y) % P }
  function FSub(x: int, y: int): int { (x - y) % P }
  function FMul(x: int, y: int): int { (x * y) % P }

  lemma AddElem(a: seq<nat>, b: seq<nat>, out: seq<nat>)
    requires Value(out) == Value(a) + Value(b)
    ensures Elem(out) == FAdd(Elem(a), Elem(b))
  {
    AddMod(Value(a), Value(b));
  }

  lemma SubElem(a: seq<nat>, b: seq<nat>, out: seq<nat>)
    requires Value(out) == Value(a) - Value(b) + 2 * P
    ensures Elem(out) == FSub(Elem(a), Elem(b))
  {
    SubMod(Value(a), Value(b), Value(out));
  }

  lemma MulElem(a: seq<nat>, b: seq<nat>, out: seq<nat>)
    requires Value(out) % P == (Value(a) * Value(b)) % P
    ensures Elem(out) == FMul(Elem(a), Elem(b))
  {
    MulMod(Value(a), Value(b));
  }

  lemma ScaleElem(k: int, a: seq<nat>, out: seq<nat>)
    requires Value(out) % P == (k * Value(a)) % P
    ensures Elem(out) == FMul(k, Elem(a))
  {
    ModIdem(k);
    ModIdem(Value(a));
    ModMul(k, Value(a), k, Elem(a));
  }

  lemma AddMod(x: int, y: int)
    ensures (x + y) % P == (x % P + y % P) % P
  {
    ModIdem(x);
    ModIdem(y);
    ModAdd(x, y, x % P, y % P);
  }

  lemma SubMod(x: int, y: int, z: int)
    requires z == x - y + 2 * P
    ensures z % P == (x % P - y % P) % P
  {
    ModMultiple(z, x - y, 2);
    ModIdem(x);
    ModIdem(y);
    ModSub(x, y, x % P, y % P);
  }

  lemma MulMod(x: int, y: int)
    ensures (x * y) % P == ((x % P) * (y % P)) % P
  {
    ModIdem(x);
    ModIdem(y);
    ModMul(x, y, x % P, y % P);
  }
}
