/** The Montgomery ladder of curve25519.c: the constant-time swap
    c25519_select, one ladder step (the formulas of section 5 of RFC 7748
    with a24 = 121665) and the 255-step main loop. Points are projective
    x-coordinates (X : Z) held as 64 limbs, X in limbs 0..31 and Z in 32..63. */
module Ladder {
  import opened Bits
  import opened Field
  import opened FieldMult

  /** A projective x-coordinate (X : Z) with both coordinates in GF(p). */
  datatype Proj = Proj(x: int, z: int)

  /** (A - 2) / 4 for the Montgomery coefficient A = 486662 of curve25519. */
  const A24: int := 121665

  /** One ladder step as section 5 of RFC 7748 writes it: m = (x_2 : z_2) is
      doubled and m1 = (x_3 : z_3) becomes m + m1, where x1 is the
      x-coordinate of m1 - m. */
  function Step(x1: int, m: Proj, m1: Proj): (Proj, Proj) {
    var A := FAdd(m.x, m.z);
    var AA := FMul(A, A);
    var B := FSub(m.x, m.z);
    var BB := FMul(B, B);
    var E := FSub(AA, BB);
    var C := FAdd(m1.x, m1.z);
    var D := FSub(m1.x, m1.z);
    var DA := FMul(D, A);
    var CB := FMul(C, B);
    (Proj(FMul(AA, BB), FMul(E, FAdd(AA, FMul(A24, E)))),
     Proj(FMul(FAdd(DA, CB), FAdd(DA, CB)), FMul(x1, FMul(FSub(DA, CB), FSub(DA, CB)))))
  }

  /** The conditional swap: bit 0 keeps the order, bit 1 exchanges. */
  function Swap<T>(b: nat, m: T, m1: T): (T, T) {
    if b == 0 then (m, m1) else (m1, m)
  }

  /** Bit pos of the little-endian scalar e, read as mainloop reads it
      (curve25519.c:177-178); `pos & 7` is pos % 8 for pos >= 0. */
  function Bit(e: seq<bv8>, pos: nat): (b: nat)
    requires |e| == 32 && pos < 256
    ensures b <= 1
  {
    ((e[pos / 8] >> (pos % 8)) & 1) as nat
  }

  /** The ladder of mainloop from bit pos down to bit 0: for each bit b,
      select (swap when b = 1), step, and select back. */
  function LadderFrom(x1: int, e: seq<bv8>, pos: int, m: Proj, m1: Proj): (Proj, Proj)
    requires |e| == 32 && -1 <= pos < 256
    decreases pos + 1
  {
    if pos < 0 then (m, m1)
    else
      var r := BitStep(x1, Bit(e, pos), m, m1);
      LadderFrom(x1, e, pos - 1, r.0, r.1)
  }

  /** One pass of mainloop for bit b: select (swap when b = 1), step, select back. */
  function BitStep(x1: int, b: nat, m: Proj, m1: Proj): (Proj, Proj) {
    var s := Swap(b, m, m1);
    var n := Step(x1, s.0, s.1);
    Swap(b, n.0, n.1)
  }

  /** The ladder exactly as section 5 of RFC 7748 writes it: the swap is
      deferred, `swap ^= k_t` decides each cswap, and one last cswap follows
      the loop. */
  function RfcLadder(x1: int, e: seq<bv8>, t: int, p2: Proj, p3: Proj, swap: nat): (Proj, Proj)
    requires |e| == 32 && -1 <= t < 256
    decreases t + 1
  {
    if t < 0 then Swap(swap, p2, p3)
    else
      var k := Bit(e, t);
      var q := Swap((swap + k) % 2, p2, p3);
      var n := Step(x1, q.0, q.1);
      RfcLadder(x1, e, t - 1, n.0, n.1, k)
  }

  /** mainloop's eager select-step-select computes the same pair as the
      deferred-swap ladder of RFC 7748, from any state and any pending swap. */
  lemma {:induction false} LadderMatchesRfc(x1: int, e: seq<bv8>, t: int, p2: Proj, p3: Proj, swap: nat)
    requires |e| == 32 && -1 <= t < 256 && swap <= 1
    ensures RfcLadder(x1, e, t, p2, p3, swap)
         == LadderFrom(x1, e, t, Swap(swap, p2, p3).0, Swap(swap, p2, p3).1)
    decreases t + 1
  {
    if t >= 0 {
      var k := Bit(e, t);
      var q := Swap((swap + k) % 2, p2, p3);
      var s := Swap(swap, p2, p3);
      SwapTwice(swap, k, p2, p3);
      var n := Step(x1, q.0, q.1);
      var r := BitStep(x1, k, s.0, s.1);
      assert r == Swap(k, n.0, n.1);
      LadderUnfold(x1, e, t, s.0, s.1, r);
      RfcUnfold(x1, e, t, p2, p3, swap, q, n);
      LadderMatchesRfc(x1, e, t - 1, n.0, n.1, k);
    }
  }

  /** One bit of mainloop's ladder. */
  lemma LadderUnfold(x1: int, e: seq<bv8>, t: int, m: Proj, m1: Proj, r: (Proj, Proj))
    requires |e| == 32 && 0 <= t < 256
    requires r == BitStep(x1, Bit(e, t), m, m1)
    ensures LadderFrom(x1, e, t, m, m1) == LadderFrom(x1, e, t - 1, r.0, r.1)
  {
  }

  /** One bit of the RFC's ladder. */
  lemma RfcUnfold(x1: int, e: seq<bv8>, t: int, p2: Proj, p3: Proj, swap: nat, q: (Proj, Proj), n: (Proj, Proj))
    requires |e| == 32 && 0 <= t < 256
    requires q == Swap((swap + Bit(e, t)) % 2, p2, p3) && n == Step(x1, q.0, q.1)
    ensures RfcLadder(x1, e, t, p2, p3, swap) == RfcLadder(x1, e, t - 1, n.0, n.1, Bit(e, t))
  {
  }

  /** A pending swap followed by the swap for bit k is the one swap by their sum mod 2. */
  lemma SwapTwice<T>(swap: nat, k: nat, p2: T, p3: T)
    requires swap <= 1 && k <= 1
    ensures Swap(k, Swap(swap, p2, p3).0, Swap(swap, p2, p3).1) == Swap((swap + k) % 2, p2, p3)
  {
  }

  /** The whole X25519 ladder of RFC 7748 (255 bits, from (1 : 0) and (u : 1)). */
  lemma MainLadderMatchesRfc(x1: int, e: seq<bv8>)
    requires |e| == 32
    ensures LadderFrom(x1, e, 254, Proj(1, 0), Proj(x1, 1))
         == RfcLadder(x1, e, 254, Proj(1, 0), Proj(x1, 1), 0)
  {
    LadderMatchesRfc(x1, e, 254, Proj(1, 0), Proj(x1, 1), 0);
  }

  // ---------------------------------------------------------------------
  // c25519_select (curve25519.c:133-145)

  /** Words of an unsigned int array. */
  predicate Words(a: seq<nat>) {
    forall j :: 0 <= j < |a| ==> a[j] < 0x1_0000_0000
  }

  /** c25519_select: with the mask b - 1 (all ones for b = 0, zero for b = 1)
      and t = mask & (r ^ s), sets p = s ^ t and q = r ^ t, word by word. */
  function Select(r: seq<nat>, s: seq<nat>, b: u32): (res: (seq<nat>, seq<nat>))
    requires |r| == 64 && |s| == 64 && Words(r) && Words(s)
    ensures |res.0| == 64 && |res.1| == 64
    ensures b == 0 ==> res == (r, s)
    ensures b == 1 ==> res == (s, r)
  {
    var bminus1 := (b + 0xffff_ffff) % 0x1_0000_0000;
    var t := AndWords(bminus1, XorWords(r, s));
    var p := XorWords(s, t);
    var q := XorWords(r, t);
    SelectMask(r, s, bminus1, p, q);
    (p, q)
  }

  /** a ^ b, word by word. */
  function XorWords(a: seq<nat>, b: seq<nat>): (c: seq<nat>)
    requires |a| == |b|
    ensures |c| == |a| && forall j :: 0 <= j < |a| ==> c[j] == Xor(a[j], b[j])
  {
    seq(|a|, j requires 0 <= j < |a| => Xor(a[j], b[j]))
  }

  /** mask & a, word by word. */
  function AndWords(mask: nat, a: seq<nat>): (c: seq<nat>)
    ensures |c| == |a| && forall j :: 0 <= j < |a| ==> c[j] == And(mask, a[j])
  {
    seq(|a|, j requires 0 <= j < |a| => And(mask, a[j]))
  }

  lemma SelectMask(r: seq<nat>, s: seq<nat>, mask: nat, p: seq<nat>, q: seq<nat>)
    requires |r| == 64 && |s| == 64 && |p| == 64 && |q| == 64 && Words(r) && Words(s)
    requires forall j :: 0 <= j < 64 ==> p[j] == Xor(s[j], And(mask, Xor(r[j], s[j])))
    requires forall j :: 0 <= j < 64 ==> q[j] == Xor(r[j], And(mask, Xor(r[j], s[j])))
    ensures mask == 0xffff_ffff ==> p == r && q == s
    ensures mask == 0 ==> p == s && q == r
  {
    if mask == 0 || mask == 0xffff_ffff {
      MaskedSelect(s, r, mask, p);
      forall j | 0 <= j < 64
        ensures q[j] == Xor(r[j], And(mask, Xor(s[j], r[j])))
      {
        XorComm(r[j], s[j]);
      }
      MaskedSelect(r, s, mask, q);
    }
  }

  // ---------------------------------------------------------------------
  // One ladder step (curve25519.c:180-197)

  /** The shape every ladder point keeps: X limbs are bytes (the input
      u-coordinate is loaded unmasked, so its limb 31 may reach 255), Z is squeezed. */
  predicate PairBound(w: seq<nat>) {
    |w| == 64 && Bounded(w[..32], 255) && Squeezed(w[32..])
  }

  /** The point a 64-limb vector stands for. */
  function ProjOf(w: seq<nat>): Proj
    requires |w| == 64
  {
    Proj(Elem(w[..32]), Elem(w[32..]))
  }

  lemma SqueezedBytes(z: seq<nat>)
    requires Squeezed(z)
    ensures Bounded(z, 255)
  {
  }

  /** `add(a, x, z); sub(a + 32, x, z)`, the pattern of curve25519.c:180-183 and 188-189:
      the sum and the difference, both within the limb bound of mult. */
  function AddSub(x: seq<nat>, z: seq<nat>): (r: (seq<nat>, seq<nat>))
    requires Bounded(x, 255) && Squeezed(z)
    ensures Bounded(r.0, LimbMax) && Bounded(r.1, LimbMax)
    ensures Elem(r.0) == FAdd(Elem(x), Elem(z))
    ensures Elem(r.1) == FSub(Elem(x), Elem(z))
  {
    SqueezedBytes(z);
    var sum := Add(x, z);
    var diff := Sub(x, z);
    AddElem(x, z, sum);
    SubElem(x, z, diff);
    (sum, diff)
  }

  /** The step of curve25519.c:180-197 on limbs: doubles xzmb and adds xzm1b
      to it, the difference being the input point work. */
  method LadderStep(xzmb: seq<nat>, xzm1b: seq<nat>, work: seq<nat>) returns (xznb: seq<nat>, xzn1b: seq<nat>)
    requires PairBound(xzmb) && PairBound(xzm1b) && Bounded(work, 255)
    ensures PairBound(xznb) && PairBound(xzn1b)
    ensures (ProjOf(xznb), ProjOf(xzn1b)) == Step(Elem(work), ProjOf(xzmb), ProjOf(xzm1b))
  {
    var m, m1 := ProjOf(xzmb), ProjOf(xzm1b);
    var a0 := AddSub(xzmb[..32], xzmb[32..]);
    var a1 := AddSub(xzm1b[..32], xzm1b[32..]);
    var b0x := Square(a0.0);
    var b0z := Square(a0.1);
    MulElem(a0.0, a0.0, b0x);
    MulElem(a0.1, a0.1, b0z);
    var b1x := Mult(a1.0, a0.1);
    var b1z := Mult(a1.1, a0.0);
    MulElem(a1.0, a0.1, b1x);
    MulElem(a1.1, a0.0, b1z);
    SqueezedBytes(b1x);
    var c1 := AddSub(b1x, b1z);
    var r := Square(c1.1);
    MulElem(c1.1, c1.1, r);
    var s, t, u := DoubleParts(b0x, b0z);
    var nx := Mult(b0x, b0z);
    var nz := Mult(s, u);
    MulElem(b0x, b0z, nx);
    MulElem(s, u, nz);
    var n1x := Square(c1.0);
    MulElem(c1.0, c1.0, n1x);
    SqueezedBytes(r);
    var n1z := Mult(r, work);
    MulElem(r, work, n1z);
    xznb := nx + nz;
    xzn1b := n1x + n1z;
    assert xznb[..32] == nx && xznb[32..] == nz;
    assert xzn1b[..32] == n1x && xzn1b[32..] == n1z;
    StepAlgebra(Elem(work), m, m1, Elem(b1x), Elem(b1z), Elem(r));
  }

  /** `sub(s, b0, b0 + 32); mult121665(t, s); add(u, t, b0)` (curve25519.c:191-193):
      s = AA - BB = E and u = a24 * E + AA. */
  method DoubleParts(b0x: seq<nat>, b0z: seq<nat>) returns (s: seq<nat>, t: seq<nat>, u: seq<nat>)
    requires Squeezed(b0x) && Squeezed(b0z)
    ensures Bounded(s, LimbMax) && Bounded(u, LimbMax) && Squeezed(t)
    ensures Elem(s) == FSub(Elem(b0x), Elem(b0z))
    ensures Elem(u) == FAdd(FMul(A24, Elem(s)), Elem(b0x))
  {
    SqueezedBytes(b0x);
    SqueezedBytes(b0z);
    s := Sub(b0x, b0z);
    SubElem(b0x, b0z, s);
    t := Mult121665(s);
    ScaleElem(A24, s, t);
    u := Add(t, b0x);
    AddElem(t, b0x, u);
  }

  /** The algebra left over: the sum is computed as CB + DA and CB - DA, and
      (CB - DA)^2 = (DA - CB)^2. */
  lemma StepAlgebra(x1: int, m: Proj, m1: Proj, cb: int, da: int, r: int)
    requires cb == FMul(FAdd(m1.x, m1.z), FSub(m.x, m.z))
    requires da == FMul(FSub(m1.x, m1.z), FAdd(m.x, m.z))
    requires r == FMul(FSub(cb, da), FSub(cb, da))
    ensures FMul(FAdd(cb, da), FAdd(cb, da)) == Step(x1, m, m1).1.x
    ensures FMul(r, x1) == Step(x1, m, m1).1.z
  {
    NegSquare(cb, da);
  }

  lemma NegSquare(x: int, y: int)
    ensures FMul(FSub(x, y), FSub(x, y)) == FMul(FSub(y, x), FSub(y, x))
  {
    ModIdem(x - y);
    ModIdem(y - x);
    ModMul(x - y, x - y, FSub(x, y), FSub(x, y));
    ModMul(y - x, y - x, FSub(y, x), FSub(y, x));
    assert (x - y) * (x - y) == (y - x) * (y - x);
  }

  // ---------------------------------------------------------------------
  // mainloop (curve25519.c:147-202)

  lemma PairWords(w: seq<nat>)
    requires PairBound(w)
    ensures Words(w)
  {
    assert forall j :: 0 <= j < 32 ==> w[j] == w[..32][j] && w[32 + j] == w[32..][j];
  }

  /** The limb vectors of 1 and 0. */
  const One: seq<nat> := [1] + seq(31, j => 0)
  const Zero: seq<nat> := seq(32, j => 0)

  lemma OneZero()
    ensures Squeezed(One) && Squeezed(Zero)
    ensures Elem(One) == 1 && Elem(Zero) == 0
  {
    OneValue();
    ValueRange(Zero, 0, 0);
  }

  lemma OneValue()
    ensures Value(One) == 1
  {
    var z31 := seq(31, j => 0);
    ValueRange(z31, 0, 0);
    assert One[1..] == z31;
  }

  /** The starting points: xzm1 = (u : 1) from the input limbs, xzm = (1 : 0). */
  lemma InitialPoints(work: seq<nat>)
    requires Bounded(work, 255)
    ensures PairBound(work + One) && PairBound(One + Zero)
    ensures ProjOf(work + One) == Proj(Elem(work), 1)
    ensures ProjOf(One + Zero) == Proj(1, 0)
  {
    OneZero();
    assert (work + One)[..32] == work && (work + One)[32..] == One;
    assert (One + Zero)[..32] == One && (One + Zero)[32..] == Zero;
    SqueezedBytes(One);
  }

  /** The body of mainloop's loop for one bit b (curve25519.c:177-198). */
  method LadderBit(xzm: seq<nat>, xzm1: seq<nat>, work: seq<nat>, b: u32) returns (m: seq<nat>, m1: seq<nat>)
    requires PairBound(xzm) && PairBound(xzm1) && Bounded(work, 255) && b <= 1
    ensures PairBound(m) && PairBound(m1)
    ensures (ProjOf(m), ProjOf(m1)) == BitStep(Elem(work), b, ProjOf(xzm), ProjOf(xzm1))
  {
    PairWords(xzm);
    PairWords(xzm1);
    var sel := Select(xzm, xzm1, b);
    var xznb, xzn1b := LadderStep(sel.0, sel.1, work);
    PairWords(xznb);
    PairWords(xzn1b);
    var back := Select(xznb, xzn1b, b);
    m, m1 := back.0, back.1;
  }

  /** mainloop: pos runs from 254 down to 0; each pass reads bit pos of e,
      selects, steps and selects back. The result is (X : Z) of the ladder. */
  method MainLoop(work: seq<nat>, e: seq<bv8>) returns (res: seq<nat>, steps: nat)
    requires Bounded(work, 255) && |e| == 32
    ensures steps == 255
    ensures PairBound(res)
    ensures ProjOf(res) == LadderFrom(Elem(work), e, 254, Proj(1, 0), Proj(Elem(work), 1)).0
  {
    var x1 := Elem(work);
    var xzm1 := work + One;
    var xzm := One + Zero;
    InitialPoints(work);
    var pos := 254;
    steps := 0;
    while pos >= 0
      invariant -1 <= pos <= 254
      invariant steps == 254 - pos
      invariant PairBound(xzm) && PairBound(xzm1)
      invariant LadderFrom(x1, e, pos, ProjOf(xzm), ProjOf(xzm1))
             == LadderFrom(x1, e, 254, Proj(1, 0), Proj(x1, 1))
      decreases pos + 1
    {
      var b: u32 := ((e[pos / 8] >> (pos % 8)) & 1) as u32;
      assert b == Bit(e, pos);
      xzm, xzm1 := LadderBit(xzm, xzm1, work, b);
      pos := pos - 1;
      steps := steps + 1;
    }
    res := xzm;
  }
}
