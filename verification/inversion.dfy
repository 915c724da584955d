/** The fixed addition chain `recip` of curve25519.c, which inverts a
    nonzero field element by raising it to p - 2 (Fermat). Each squaring
    doubles the exponent reached so far and each multiplication adds two
    exponents; the chain below tracks those exponents alongside the limbs. */
module Inversion {
  import opened Bits
  import opened Field
  import opened FieldMult

  /** x^n in GF(p), by repeated multiplication. */
  function FPow(x: int, n: nat): (r: int)
    ensures 0 <= r < P
  {
    if n == 0 then 1 else FMul(x, FPow(x, n - 1))
  }

  lemma MulAssoc(x: int, a: int, b: int)
    ensures FMul(x, FMul(a, b)) == FMul(FMul(x, a), b)
  {
    ModIdem(a * b);
    ModMul(x, (a * b) % P, x, a * b);
    assert x * (a * b) == (x * a) * b;
    ModIdem(x * a);
    ModMul(x * a, b, (x * a) % P, b);
  }

  lemma {:induction false} FPowAdd(x: int, m: nat, n: nat)
    ensures FPow(x, m + n) == FMul(FPow(x, m), FPow(x, n))
  {
    var b := FPow(x, n);
    if m == 0 {
      assert FMul(1, b) == b % P == b;
    } else {
      FPowAdd(x, m - 1, n);
      var a := FPow(x, m - 1);
      assert FPow(x, m + n) == FMul(x, FPow(x, (m - 1) + n));
      MulAssoc(x, a, b);
    }
  }

  /** The number of `square` and `mult` calls made so far. Only SquareExp
      and MultExp advance it; everything else passes it along. */
  datatype Ops = Ops(squarings: nat, mults: nat)

  /** One `square` of a limb vector whose element is x^k: the result is
      x^(2k), and one more squaring is counted. */
  method SquareExp(t: seq<nat>, ghost x: int, ghost k: nat, ops: Ops) returns (r: seq<nat>, ops': Ops)
    requires Squeezed(t) && Elem(t) == FPow(x, k)
    ensures Squeezed(r) && Elem(r) == FPow(x, 2 * k)
    ensures ops'.squarings == ops.squarings + 1 && ops'.mults == ops.mults
  {
    r := Square(t);
    ops' := Ops(ops.squarings + 1, ops.mults);
    MulElem(t, t, r);
    FPowDouble(x, k);
  }

  lemma FPowDouble(x: int, k: nat)
    ensures FPow(x, 2 * k) == FMul(FPow(x, k), FPow(x, k))
  {
    FPowAdd(x, k, k);
    assert k + k == 2 * k;
  }

  /** One `mult` of limb vectors whose elements are x^k and x^m: the result
      is x^(k+m), and one more multiplication is counted. */
  method MultExp(a: seq<nat>, b: seq<nat>, ghost x: int, ghost k: nat, ghost m: nat, ops: Ops) returns (r: seq<nat>, ops': Ops)
    requires Squeezed(a) && Squeezed(b) && Elem(a) == FPow(x, k) && Elem(b) == FPow(x, m)
    ensures Squeezed(r) && Elem(r) == FPow(x, k + m)
    ensures ops'.squarings == ops.squarings && ops'.mults == ops.mults + 1
  {
    r := Mult(a, b);
    ops' := Ops(ops.squarings, ops.mults + 1);
    MulElem(a, b, r);
    FPowAdd(x, k, m);
  }

  lemma {:induction false} Pow2Add(m: nat, n: nat)
    ensures Pow2(m + n) == Pow2(m) * Pow2(n)
  {
    if m > 0 {
      Pow2Add(m - 1, n);
    }
  }

  lemma ExpOnce(k: nat, n: nat)
    ensures 2 * (k * Pow2(n)) == k * Pow2(n + 1)
  {
    assert Pow2(n + 1) == 2 * Pow2(n);
  }

  lemma ExpTwice(k: nat, n: nat)
    ensures 2 * (2 * (k * Pow2(n))) == k * Pow2(n + 2)
  {
    ExpOnce(k, n);
    ExpOnce(k, n + 1);
  }

  /** `for (i = lo; i < hi; i += 2) { square(t0,t1); square(t1,t0); }`: the
      exponent is multiplied by 2^(hi - lo) in hi - lo squarings. */
  method SquarePairs(t: seq<nat>, lo: nat, hi: nat, ghost x: int, ghost k: nat, ops: Ops) returns (r: seq<nat>, ops': Ops)
    requires lo <= hi && (hi - lo) % 2 == 0
    requires Squeezed(t) && Elem(t) == FPow(x, k)
    ensures Squeezed(r) && Elem(r) == FPow(x, k * Pow2(hi - lo))
    ensures ops'.squarings == ops.squarings + (hi - lo) && ops'.mults == ops.mults
  {
    r, ops' := t, ops;
    var pairs := (hi - lo) / 2;
    var j := 0;
    while j < pairs
      invariant j <= pairs
      invariant ops'.squarings == ops.squarings + 2 * j && ops'.mults == ops.mults
      invariant Squeezed(r) && Elem(r) == FPow(x, k * Pow2(2 * j))
    {
      ghost var e := k * Pow2(2 * j);
      var t0;
      t0, ops' := SquareExp(r, x, e, ops');
      r, ops' := SquareExp(t0, x, 2 * e, ops');
      ExpTwice(k, 2 * j);
      j := j + 1;
    }
  }

  /** `square` applied n times in a row (the straight-line runs of the chain). */
  method SquareTimes(t: seq<nat>, n: nat, ghost x: int, ghost k: nat, ops: Ops) returns (r: seq<nat>, ops': Ops)
    requires Squeezed(t) && Elem(t) == FPow(x, k)
    ensures Squeezed(r) && Elem(r) == FPow(x, k * Pow2(n))
    ensures ops'.squarings == ops.squarings + n && ops'.mults == ops.mults
  {
    r, ops' := t, ops;
    var i := 0;
    while i < n
      invariant i <= n
      invariant ops'.squarings == ops.squarings + i && ops'.mults == ops.mults
      invariant Squeezed(r) && Elem(r) == FPow(x, k * Pow2(i))
    {
      r, ops' := SquareExp(r, x, k * Pow2(i), ops');
      ExpOnce(k, i);
      i := i + 1;
    }
  }

  lemma ExpShift(k: nat, n: nat)
    ensures (2 * (2 * k)) * Pow2(n) == k * Pow2(n + 2)
  {
    Pow2Add(n, 2);
    assert Pow2(2) == 4;
  }

  /** The exponent bookkeeping of every link: (2^k - 1) * 2^n + (2^n - 1) = 2^(k+n) - 1. */
  lemma Chain(k: nat, n: nat)
    ensures Ones(k) * Pow2(n) + Ones(n) == Ones(k + n)
  {
    Pow2Add(k, n);
    assert Ones(k) * Pow2(n) == Pow2(k) * Pow2(n) - Pow2(n);
  }

  lemma {:induction false} Pow2Bytes(n: nat)
    ensures Pow2(8 * n) == Pow256(n)
  {
    if n > 0 {
      Pow2Bytes(n - 1);
      Pow2Add(8 * (n - 1), 8);
      assert Pow2(8) == 256;
    }
  }

  /** The final exponent 2^255 - 21 is p - 2. */
  lemma FinalExponent()
    ensures Ones(250) * Pow2(5) + 11 == P - 2
  {
    Pow2Add(250, 5);
    Pow2Add(248, 7);
    Pow2Bytes(31);
    PowFacts();
    assert Pow2(5) == 32 && Pow2(7) == 128;
  }

  /** One link of the chain: two squarings, the loop
      `for (i = 2; i < n; i += 2) { square; square; }` and a `mult` by the
      element x^(2^n - 1) computed earlier: x^(2^k - 1) becomes x^(2^(k+n) - 1). */
  method Link(t: seq<nat>, partner: seq<nat>, n: nat, ghost x: int, ghost k: nat, ops: Ops) returns (r: seq<nat>, ops': Ops)
    requires 2 <= n && n % 2 == 0
    requires Squeezed(t) && Elem(t) == FPow(x, Ones(k))
    requires Squeezed(partner) && Elem(partner) == FPow(x, Ones(n))
    ensures Squeezed(r) && Elem(r) == FPow(x, Ones(k + n))
    ensures ops'.squarings == ops.squarings + n && ops'.mults == ops.mults + 1
  {
    var t0, t1;
    t0, ops' := SquareExp(t, x, Ones(k), ops);
    t1, ops' := SquareExp(t0, x, 2 * Ones(k), ops');
    ghost var e := Ones(k);
    assert (n - 2) % 2 == 0;
    t1, ops' := SquarePairs(t1, 2, n, x, 2 * (2 * e), ops');
    ExpShift(e, n - 2);
    r, ops' := MultExp(t1, partner, x, Ones(k) * Pow2(n), Ones(n), ops');
    Chain(k, n);
  }

  /** The opening of recip (curve25519.c:218-231): z^2, z^9, z^11, z^(2^5 - 1)
      and z^(2^10 - 1). */
  method RecipHead(z: seq<nat>, ghost x: int, ops: Ops) returns (z11: seq<nat>, z2_10_0: seq<nat>, ops': Ops)
    requires Squeezed(z) && x == Elem(z)
    ensures Squeezed(z11) && Elem(z11) == FPow(x, 11)
    ensures Squeezed(z2_10_0) && Elem(z2_10_0) == FPow(x, Ones(10))
    ensures ops'.squarings == ops.squarings + 9 && ops'.mults == ops.mults + 4
  {
    assert FPow(x, 1) == x by {
      ModIdem(Value(z));
    }
    var z2, t1, t0, z9, z2_5_0;
    z2, ops' := SquareExp(z, x, 1, ops);
    t1, ops' := SquareExp(z2, x, 2, ops');
    t0, ops' := SquareExp(t1, x, 4, ops');
    z9, ops' := MultExp(t0, z, x, 8, 1, ops');
    z11, ops' := MultExp(z9, z2, x, 9, 2, ops');
    t0, ops' := SquareExp(z11, x, 11, ops');
    z2_5_0, ops' := MultExp(t0, z9, x, 22, 9, ops');
    assert Pow2(5) == 32;
    t0, ops' := SquareTimes(z2_5_0, 5, x, Ones(5), ops');
    z2_10_0, ops' := MultExp(t0, z2_5_0, x, Ones(5) * Pow2(5), Ones(5), ops');
    Chain(5, 5);
  }

  /** curve25519.c:233-246: from z^(2^10 - 1) to z^(2^50 - 1), keeping z^(2^50 - 1). */
  method RecipMiddle(z2_10_0: seq<nat>, ghost x: int, ops: Ops) returns (z2_50_0: seq<nat>, ops': Ops)
    requires Squeezed(z2_10_0) && Elem(z2_10_0) == FPow(x, Ones(10))
    ensures Squeezed(z2_50_0) && Elem(z2_50_0) == FPow(x, Ones(50))
    ensures ops'.squarings == ops.squarings + 40 && ops'.mults == ops.mults + 3
  {
    var z2_20_0, z2_40_0;
    z2_20_0, ops' := Link(z2_10_0, z2_10_0, 10, x, 10, ops);
    z2_40_0, ops' := Link(z2_20_0, z2_20_0, 20, x, 20, ops');
    z2_50_0, ops' := Link(z2_40_0, z2_10_0, 10, x, 40, ops');
  }

  /** curve25519.c:248-261: from z^(2^50 - 1) to z^(2^250 - 1). */
  method RecipUpper(z2_50_0: seq<nat>, ghost x: int, ops: Ops) returns (z2_250_0: seq<nat>, ops': Ops)
    requires Squeezed(z2_50_0) && Elem(z2_50_0) == FPow(x, Ones(50))
    ensures Squeezed(z2_250_0) && Elem(z2_250_0) == FPow(x, Ones(250))
    ensures ops'.squarings == ops.squarings + 200 && ops'.mults == ops.mults + 3
  {
    var z2_100_0, z2_200_0;
    z2_100_0, ops' := Link(z2_50_0, z2_50_0, 50, x, 50, ops);
    z2_200_0, ops' := Link(z2_100_0, z2_100_0, 100, x, 100, ops');
    z2_250_0, ops' := Link(z2_200_0, z2_50_0, 50, x, 200, ops');
  }

  /** recip (curve25519.c:204-269): 254 squarings and 11 multiplications
      raise z to the power 2^255 - 21 = p - 2. */
  method Recip(z: seq<nat>) returns (out: seq<nat>, ops: Ops)
    requires Squeezed(z)
    ensures Squeezed(out) && Elem(out) == FPow(Elem(z), P - 2)
    ensures ops == Ops(254, 11)
  {
    ghost var x := Elem(z);
    var z11, z2_10_0, z2_50_0, z2_250_0, t1;
    z11, z2_10_0, ops := RecipHead(z, x, Ops(0, 0));
    z2_50_0, ops := RecipMiddle(z2_10_0, x, ops);
    z2_250_0, ops := RecipUpper(z2_50_0, x, ops);
    t1, ops := SquareTimes(z2_250_0, 5, x, Ones(250), ops);
    out, ops := MultExp(t1, z11, x, Ones(250) * Pow2(5), 11, ops);
    FinalExponent();
  }

  /** Zero has no inverse; the chain maps it to zero. */
  lemma FPowZero(n: nat)
    requires n > 0
    ensures FPow(0, n) == 0
  {
  }
}
