/** RecordWharrgarblCost and RecordWharrgarblScore of pkg/lf/record.go: the
    proof-of-work difficulty a record of a given size must reach, and the
    uint32 score a piece of work earns. Both are integer-only, with explicit
    clamps; the Go integer widths are written out (uint64 subtraction wraps
    modulo 2^64, uint32 arithmetic modulo 2^32). */
module WorkCost {
  import opened Bits
  import opened Wire
  import RecordBody

  /** RecordWharrgarblCost(RecordMaxSize), the largest cost a record can have. */
  const MaxCost: nat := 0x0f7b_0000

  /** The score of the largest cost, and the score every larger cost saturates to. */
  const MaxScore: nat := 0xffff_a8db

  // ---------------------------------------------------------------------
  // integerSqrtRounded: the square root rounded to the nearest integer

  /** r is the integer nearest to the square root of x:
      r - 1/2 <= sqrt(x) < r + 1/2, scaled by 2 and squared. Because 4x is
      even and (2r +- 1)^2 odd, there are no ties. */
  predicate NearestRoot(x: nat, r: nat) {
    && (r == 0 || (2 * r - 1) * (2 * r - 1) <= 4 * x)
    && 4 * x < (2 * r + 1) * (2 * r + 1)
  }

  /** The floor of the square root, by halving: the root of x is twice the
      root of x / 4, or one more. */
  function FloorSqrt(x: nat): (r: nat)
    ensures r * r <= x < (r + 1) * (r + 1)
    decreases x
  {
    if x < 4 then
      if x == 0 then 0 else 1
    else
      var q := FloorSqrt(x / 4);
      var h := 2 * q;
      FloorSqrtStep(x, q);
      if (h + 1) * (h + 1) <= x then h + 1 else h
  }

  /** The root of x / 4, doubled, is within one of the root of x. */
  lemma FloorSqrtStep(x: nat, q: nat)
    requires q * q <= x / 4 < (q + 1) * (q + 1)
    ensures (2 * q) * (2 * q) <= x < (2 * q + 2) * (2 * q + 2)
  {
    assert (2 * q) * (2 * q) == 4 * (q * q);
    assert (2 * q + 2) * (2 * q + 2) == 4 * ((q + 1) * (q + 1));
    assert x / 4 + 1 <= (q + 1) * (q + 1);
  }

  /** integerSqrtRounded: the floor root of 4x, plus one, halved. */
  function IntegerSqrtRounded(x: nat): (r: nat)
    ensures NearestRoot(x, r)
  {
    var m := FloorSqrt(4 * x);
    RoundRoot(x, m);
    (m + 1) / 2
  }

  /** Halving the floor root of 4x, rounding up, gives the nearest root of x. */
  lemma RoundRoot(x: nat, m: nat)
    requires m * m <= 4 * x < (m + 1) * (m + 1)
    ensures NearestRoot(x, (m + 1) / 2)
  {
    var r := (m + 1) / 2;
    if r > 0 {
      SquareMono(2 * r - 1, m);
    }
    SquareMono(m + 1, 2 * r + 1);
  }

  lemma SquareMono(a: int, b: int)
    requires 0 <= a <= b
    ensures a * a <= b * b
  {
    MulMono(a, b, a);
    MulMono(a, b, b);
  }

  /** There is one nearest root. */
  lemma NearestRootUnique(x: nat, r1: nat, r2: nat)
    requires NearestRoot(x, r1) && NearestRoot(x, r2)
    ensures r1 == r2
  {
    if r1 < r2 {
      SquareMono(2 * r1 + 1, 2 * r2 - 1);
    } else if r2 < r1 {
      SquareMono(2 * r2 + 1, 2 * r1 - 1);
    }
  }

  /** The rounded root grows with its argument. */
  lemma RootMono(x: nat, y: nat)
    requires x <= y
    ensures IntegerSqrtRounded(x) <= IntegerSqrtRounded(y)
  {
    NearestMono(x, y, IntegerSqrtRounded(x), IntegerSqrtRounded(y));
  }

  lemma NearestMono(x: nat, y: nat, rx: nat, ry: nat)
    requires x <= y && NearestRoot(x, rx) && NearestRoot(y, ry)
    ensures rx <= ry
  {
    if ry < rx {
      var a := 2 * ry + 1;
      var c := 2 * rx - 1;
      SquareMono(a, c);
    }
  }

  /** 443 is the rounded root of 196608 = 3 * RecordMaxSize (443.4...). */
  lemma RootOfMax()
    ensures IntegerSqrtRounded(196608) == 443
  {
    assert NearestRoot(196608, 443);
    NearestRootUnique(196608, 443, IntegerSqrtRounded(196608));
  }

  /** From 12 = 3 * 4 on, the rounded root is at least 3, so s * 3 exceeds 8. */
  lemma RootAtLeastThree(x: nat)
    requires 12 <= x
    ensures IntegerSqrtRounded(x) >= 3
  {
    var r := IntegerSqrtRounded(x);
    if r <= 2 {
      SquareMono(2 * r + 1, 5);
    }
  }

  // ---------------------------------------------------------------------
  // RecordWharrgarblCost (pkg/lf/record.go:511-536)

  /** The byte count clamped to RecordMaxSize. */
  function Billable(bytes: u64): (n: nat)
    ensures n <= RecordBody.RecordMaxSize
    ensures n == bytes || (bytes > RecordBody.RecordMaxSize && n == RecordBody.RecordMaxSize)
  {
    if bytes > RecordBody.RecordMaxSize then RecordBody.RecordMaxSize else bytes
  }

  /** RecordWharrgarblCost. With b = 3 * bytes and s its rounded root the
      cost is s * b * 3 - b * 8, computed in uint64 and saturated to uint32;
      below 4 bytes it is bytes + 1. */
  function Cost(bytes: u64): (c: u32)
    ensures 1 <= c <= MaxCost
  {
    if bytes < 4 then bytes + 1
    else
      var b := Billable(bytes) * 3;
      var s := IntegerSqrtRounded(b);
      var v := s * b * 3 - b * 8;
      CostWithin(b, s, v);
      Saturate32(v % U64)
  }

  /** A uint64 narrowed to uint32 with saturation, as `if c > 0xffffffff`
      does before the cast. */
  function Saturate32(x: nat): (r: u32)
    ensures x <= 0xffff_ffff ==> r == x
    ensures x > 0xffff_ffff ==> r == 0xffff_ffff
  {
    if x > 0xffff_ffff then 0xffff_ffff else x
  }

  /** For b = 3 * bytes with 4 <= bytes <= RecordMaxSize and s its rounded
      root, the uint64 formula does not wrap and stays within [12, MaxCost]. */
  lemma CostWithin(b: nat, s: nat, v: int)
    requires 12 <= b <= 196608 && s == IntegerSqrtRounded(b)
    requires v == s * b * 3 - b * 8
    ensures 12 <= v % U64 <= MaxCost
  {
    RootAtLeastThree(b);
    RootMono(b, 196608);
    RootOfMax();
    CostRange(b, s);
    NoWrap64(v);
  }

  /** For bytes >= 4 the uint64 subtraction does not wrap and the uint32
      saturation is never taken: the cost is s * b * 3 - b * 8 exactly,
      between 12 and MaxCost. */
  lemma CostExact(bytes: u64)
    requires 4 <= bytes
    ensures var b := Billable(bytes) * 3;
            var s := IntegerSqrtRounded(b);
            && 3 <= s <= 443
            && Cost(bytes) == s * b * 3 - b * 8
            && 12 <= Cost(bytes) <= MaxCost
  {
    var b := Billable(bytes) * 3;
    var s := IntegerSqrtRounded(b);
    RootAtLeastThree(b);
    RootMono(b, 196608);
    RootOfMax();
    CostRange(b, s);
    CostIs(bytes, b, s, s * b * 3 - b * 8);
  }

  lemma CostIs(bytes: u64, b: nat, s: nat, v: int)
    requires 4 <= bytes && b == Billable(bytes) * 3 && s == IntegerSqrtRounded(b)
    requires v == s * b * 3 - b * 8 && 0 <= v <= 0xffff_ffff
    ensures Cost(bytes) == v
  {
    NoWrap64(v);
  }

  /** The cost formula on its own: 3 <= s <= 443 and 12 <= b <= 196608 keep
      s * b * 3 - b * 8 between 12 and MaxCost. */
  lemma CostRange(b: nat, s: nat)
    requires 12 <= b <= 196608 && 3 <= s <= 443
    ensures s * b * 3 - b * 8 == b * (3 * s - 8)
    ensures 12 <= s * b * 3 - b * 8 <= MaxCost
  {
    var k := 3 * s - 8;
    assert s * b * 3 - b * 8 == b * k;
    MulMono(12, b, k);
    MulMono(b, 196608, k);
    MulMono(k, 1321, 196608);
  }

  lemma NoWrap64(x: int)
    requires 0 <= x < U64
    ensures x % U64 == x
  {
  }

  /** Byte counts above RecordMaxSize cost what RecordMaxSize costs. */
  lemma CostClamp(bytes: u64)
    requires bytes > RecordBody.RecordMaxSize
    ensures Cost(bytes) == Cost(RecordBody.RecordMaxSize)
  {
    CostExact(bytes);
    CostExact(RecordBody.RecordMaxSize);
  }

  /** Below 4 bytes the cost is the byte count plus one. */
  lemma CostSmall(bytes: u64)
    requires bytes < 4
    ensures 1 <= Cost(bytes) == bytes + 1 <= 4
  {
  }

  /** RecordWharrgarblCost(RecordMaxSize) is 0x0f7b0000, the threshold the score uses. */
  lemma CostAtMax()
    ensures Cost(RecordBody.RecordMaxSize) == MaxCost
  {
    CostExact(RecordBody.RecordMaxSize);
    RootOfMax();
    assert Billable(RecordBody.RecordMaxSize) * 3 == 196608;
    assert 443 * 196608 * 3 - 196608 * 8 == MaxCost;
  }

  /** A larger record never costs less. */
  lemma CostMono(x: u64, y: u64)
    requires x <= y
    ensures Cost(x) <= Cost(y)
  {
    if 4 <= x {
      CostExact(x);
      CostExact(y);
      var b1 := Billable(x) * 3;
      var b2 := Billable(y) * 3;
      RootMono(b1, b2);
      FormulaMono(b1, b2, IntegerSqrtRounded(b1), IntegerSqrtRounded(b2));
    } else if 4 <= y {
      CostExact(y);
    }
  }

  /** The cost formula grows with b and with s. */
  lemma FormulaMono(b1: nat, b2: nat, s1: nat, s2: nat)
    requires 12 <= b1 <= b2 <= 196608 && 3 <= s1 <= s2 <= 443
    ensures s1 * b1 * 3 - b1 * 8 <= s2 * b2 * 3 - b2 * 8
  {
    CostRange(b1, s1);
    CostRange(b2, s2);
    MulMono(b1, b2, 3 * s1 - 8);
    MulMono(3 * s1 - 8, 3 * s2 - 8, b2);
  }

  // ---------------------------------------------------------------------
  // RecordWharrgarblScore (pkg/lf/record.go:539-547)

  /** A uint32 result: the value modulo 2^32. */
  function Wrap32(x: int): (r: u32)
    ensures 0 <= x < 0x1_0000_0000 ==> r == x
  {
    x % 0x1_0000_0000
  }

  /** RecordWharrgarblScore: costs above MaxCost saturate, cost 0 scores 1,
      and otherwise cost * 16 + (cost / 10000) * 5369 in uint32 arithmetic. */
  function Score(cost: u32): (s: u32)
    ensures 1 <= s <= MaxScore
  {
    if cost > MaxCost then MaxScore
    else if cost < 1 then 1
    else
      FormulaBound(cost);
      Wrap32(Wrap32(cost * 16) + Wrap32((cost / 10000) * 5369))
  }

  /** The score formula on its own stays within [16, MaxScore] up to MaxCost. */
  lemma FormulaBound(cost: nat)
    requires 1 <= cost <= MaxCost
    ensures 16 <= cost * 16 + (cost / 10000) * 5369 <= MaxScore
  {
    var q := cost / 10000;
    DivMono(cost, MaxCost, 10000);
    assert MaxCost / 10000 == 25971;
    MulMono(q, 25971, 5369);
    assert cost * 16 <= MaxCost * 16;
  }

  /** Up to MaxCost no uint32 operation of the score wraps. */
  lemma ScoreExact(cost: u32)
    requires 1 <= cost <= MaxCost
    ensures Score(cost) == cost * 16 + (cost / 10000) * 5369
    ensures 16 <= Score(cost) <= MaxScore
  {
    FormulaBound(cost);
  }

  lemma DivMono(a: nat, b: nat, d: nat)
    requires a <= b && 0 < d
    ensures a / d <= b / d
  {
    if a / d > b / d {
      MulMono(b / d + 1, a / d, d);
    }
  }

  /** At MaxCost the formula reaches MaxScore exactly, so the saturation
      above it continues the curve. */
  lemma ScoreAtMax()
    ensures Score(MaxCost) == MaxScore
  {
    ScoreExact(MaxCost);
  }

  /** Every score lies in [1, MaxScore]; zero work scores 1. */
  lemma ScoreBounds(cost: u32)
    ensures 1 <= Score(cost) <= MaxScore
    ensures cost == 0 ==> Score(cost) == 1
    ensures cost >= MaxCost ==> Score(cost) == MaxScore
  {
    if 1 <= cost <= MaxCost {
      ScoreExact(cost);
    }
  }

  /** More work never scores less. */
  lemma ScoreMono(x: u32, y: u32)
    requires x <= y
    ensures Score(x) <= Score(y)
  {
    ScoreBounds(x);
    ScoreBounds(y);
    if 1 <= x && y <= MaxCost {
      ScoreExact(x);
      ScoreExact(y);
      DivMono(x, y, 10000);
      MulMono(x / 10000, y / 10000, 5369);
    }
  }

  /** The largest record's cost scores MaxScore, as the comment at the threshold says. */
  lemma MaxRecordScore()
    ensures Score(Cost(RecordBody.RecordMaxSize)) == MaxScore
  {
    CostAtMax();
    ScoreAtMax();
  }
}
