/** Bitwise AND and XOR on unsigned integers, defined bit by bit, with the
    facts the masked (branch-free) selects of the Curve25519 code rely on. */
module Bits {

  type u32 = x: nat | x < 0x1_0000_0000

  function Pow2(n: nat): (r: nat)
    ensures r > 0
  {
    if n == 0 then 1 else 2 * Pow2(n - 1)
  }

  /** Bitwise exclusive or: bit k of the result is the sum modulo 2 of bit k of each operand. */
  function Xor(a: nat, b: nat): nat
    decreases a + b
  {
    if a == 0 && b == 0 then 0 else (a % 2 + b % 2) % 2 + 2 * Xor(a / 2, b / 2)
  }

  /** Bitwise and: bit k of the result is the product of bit k of each operand. */
  function And(a: nat, b: nat): nat
    decreases a + b
  {
    if a == 0 || b == 0 then 0 else (a % 2) * (b % 2) + 2 * And(a / 2, b / 2)
  }

  /** The all-ones word of the given width: 2^n - 1. */
  function Ones(n: nat): nat {
    Pow2(n) - 1
  }

  lemma {:induction false} XorZero(a: nat)
    ensures Xor(a, 0) == a
    decreases a
  {
    if a != 0 {
      XorZero(a / 2);
    }
  }

  lemma XorParts(a: nat, b: nat)
    ensures Xor(a, b) % 2 == (a % 2 + b % 2) % 2
    ensures Xor(a, b) / 2 == Xor(a / 2, b / 2)
  {
  }

  /** XOR-ing with x ^ y turns x into y: the core of every masked select. */
  lemma {:induction false} XorCancel(x: nat, y: nat)
    ensures Xor(x, Xor(y, x)) == y
    decreases x + y
  {
    if !(x == 0 && y == 0) {
      var z := Xor(y, x);
      var r := Xor(x, z);
      XorParts(y, x);
      XorParts(x, z);
      assert r / 2 == y / 2 by {
        XorCancel(x / 2, y / 2);
      }
      assert r % 2 == y % 2 by {
        ParityCancel(x % 2, y % 2, z % 2, r % 2);
      }
      assert r == 2 * (r / 2) + r % 2;
    }
  }

  lemma ParityCancel(a: nat, b: nat, c: nat, d: nat)
    requires a < 2 && b < 2
    requires c == (b + a) % 2 && d == (a + c) % 2
    ensures d == b
  {
  }

  lemma {:induction false} XorBound(a: nat, b: nat, n: nat)
    requires a < Pow2(n) && b < Pow2(n)
    ensures Xor(a, b) < Pow2(n)
    decreases n
  {
    if n > 0 && !(a == 0 && b == 0) {
      XorBound(a / 2, b / 2, n - 1);
    }
  }

  lemma {:induction false} AndZero(b: nat)
    ensures And(0, b) == 0
  {
  }

  lemma {:induction false} AndOnes(n: nat, b: nat)
    requires b < Pow2(n)
    ensures And(Ones(n), b) == b
    decreases n
  {
    if n > 0 && b != 0 {
      AndOnes(n - 1, b / 2);
      assert Ones(n) / 2 == Ones(n - 1);
    }
  }

  lemma {:induction false} XorComm(a: nat, b: nat)
    ensures Xor(a, b) == Xor(b, a)
    decreases a + b
  {
    if !(a == 0 && b == 0) {
      XorComm(a / 2, b / 2);
    }
  }

  /** 2^32, the modulus of the source's unsigned int. */
  lemma Pow2Word()
    ensures Pow2(32) == 0x1_0000_0000
  {
    assert Pow2(8) == 256;
    assert Pow2(16) == 2 * 2 * 2 * 2 * 2 * 2 * 2 * 2 * Pow2(8);
    assert Pow2(24) == 2 * 2 * 2 * 2 * 2 * 2 * 2 * 2 * Pow2(16);
    assert Pow2(32) == 2 * 2 * 2 * 2 * 2 * 2 * 2 * 2 * Pow2(24);
  }

  /** The masked select `x ^ (mask & (y ^ x))` on 32-bit words: an all-ones
      mask yields y, a zero mask yields x. */
  lemma MaskPick(x: u32, y: u32)
    ensures Xor(x, And(0xffff_ffff, Xor(y, x))) == y
    ensures Xor(x, And(0, Xor(y, x))) == x
  {
    Pow2Word();
    XorBound(y, x, 32);
    AndOnes(32, Xor(y, x));
    XorCancel(x, y);
    XorZero(x);
  }

  /** Euclidean division is unique: v = q*m + r with 0 <= r < m fixes v % m. */
  lemma DivMod(v: int, m: int, q: int, r: int)
    requires 0 <= r < m && v == q * m + r
    ensures v % m == r
  {
    var d := q - v / m;
    assert d * m == v % m - r;
    NonPositiveFactor(d, m);
    assert (-d) * m == r - v % m;
    NonPositiveFactor(-d, m);
  }

  /** d*X < X with X > 0 forces d <= 0. */
  lemma NonPositiveFactor(d: int, X: int)
    requires X > 0 && d * X < X
    ensures d <= 0
  {
    assert d * X - X == (d - 1) * X;
  }

  lemma MulComm(w: int, k: int, x: int)
    ensures w * (k * x) == k * (w * x)
  {
  }

  /** Multiplying by a natural number is monotone. */
  lemma MulMono(a: nat, b: nat, c: nat)
    requires a <= b
    ensures a * c <= b * c
  {
    assert b * c == a * c + (b - a) * c;
  }
}

/** Conversions between numbers and machine bytes. A byte is assembled
    from its bits with shifts, so that only byte-to-number conversions
    appear in the proofs. */
module Octets {
  import opened Bits

  /** The byte holding x, for x below 256. */
  function Byte(x: nat): (b: bv8)
    requires x < 256
    ensures b as int == x
  {
    Pow2Below(7);
    assert Pow2(8) == 2 * Pow2(7);
    FromBits(x, 8)
  }

  /** The low k bits of x as a byte, most significant bit shifted in first. */
  function FromBits(x: nat, k: nat): (b: bv8)
    requires k <= 8 && x < Pow2(k)
    ensures b as int == x
  {
    if k == 0 then 0
    else
      var high := FromBits(x / 2, k - 1);
      var low := LowBit(x);
      Pow2Below(k - 1);
      ShiftIn(high, low);
      (high << 1) | low
  }

  function LowBit(x: nat): (b: bv8)
    ensures b as int == x % 2
  {
    if x % 2 == 1 then 1 else 0
  }

  lemma ShiftIn(b: bv8, bit: bv8)
    requires b as int < 128 && bit as int <= 1
    ensures ((b << 1) | bit) as int == 2 * (b as int) + bit as int
  {
  }

  lemma Pow2Below(k: nat)
    requires k <= 7
    ensures Pow2(k) <= 128
  {
    if k == 7 {
      assert Pow2(7) == 128;
    } else if k == 6 {
      assert Pow2(6) == 64;
    } else if k == 5 {
      assert Pow2(5) == 32;
    }
  }
}
