/** crypto_scalarmult of curve25519.c: scalar clamping, the ladder over the
    unmasked input u-coordinate, inversion of Z, the final multiply and
    freeze; and the two wrappers, key generation and key agreement, over
    random bytes and a hash that are parameters of the model. */
module X25519 {
  import opened Bits
  import opened Octets
  import opened Field
  import opened FieldMult
  import opened Ladder
  import opened Inversion

  /** 2^254, the bit the clamp sets. */
  const Two254: nat := 64 * Top

  /** Bytes widened to limbs, as `work[i] = p[i]` does. */
  function Limbs(b: seq<bv8>): (r: seq<nat>)
    ensures |r| == |b|
    ensures forall i :: 0 <= i < |b| ==> r[i] == b[i] as nat <= 255
  {
    seq(|b|, i requires 0 <= i < |b| => b[i] as nat)
  }

  /** The byte store `q[i] = work[64 + i]` of limbs already below 256. */
  function Narrow(a: seq<nat>): (b: seq<bv8>)
    requires forall j :: 0 <= j < |a| ==> a[j] <= 255
    ensures Limbs(b) == a
  {
    seq(|a|, j requires 0 <= j < |a| => Byte(a[j]))
  }


  /** The little-endian integer a byte string encodes. */
  function BytesValue(b: seq<bv8>): nat {
    ValueNonNegative(Limbs(b));
    Value(Limbs(b))
  }

  // ---------------------------------------------------------------------
  // Clamping (curve25519.c:276-279)

  /** `e[0] &= 248; e[31] &= 127; e[31] |= 64` on a copy of the scalar. */
  function Clamp(n: seq<bv8>): (e: seq<bv8>)
    requires |n| == 32
    ensures |e| == 32
    ensures e[0] as nat % 8 == 0 && e[0] as nat / 8 == n[0] as nat / 8
    ensures 64 <= e[31] as nat < 128 && e[31] as nat % 64 == n[31] as nat % 64
    ensures forall i :: 1 <= i < 31 ==> e[i] == n[i]
  {
    ClearLow(n[0]);
    SetTop(n[31]);
    var e := n[0 := n[0] & 248][31 := (n[31] & 127) | 64];
    assert e[0] == n[0] & 248 && e[31] == (n[31] & 127) | 64;
    e
  }

  lemma ClearLow(x: bv8)
    ensures (x & 248) as nat == x as nat - x as nat % 8
    ensures (x & 248) as nat % 8 == 0 && (x & 248) as nat / 8 == x as nat / 8
  {
    var y := (x & 248) as nat;
    assert y == x as nat - x as nat % 8;
    DivOfMultiple(x as nat);
  }

  lemma DivOfMultiple(v: nat)
    ensures (v - v % 8) % 8 == 0 && (v - v % 8) / 8 == v / 8
  {
    assert v - v % 8 == 8 * (v / 8);
  }

  lemma SetTop(x: bv8)
    ensures ((x & 127) | 64) as nat == 64 + x as nat % 64
    ensures 64 <= ((x & 127) | 64) as nat < 128 && ((x & 127) | 64) as nat % 64 == x as nat % 64
  {
  }


  lemma TopEighth(x: int)
    ensures x * Top == 8 * (x * (Top / 8))
  {
    assert Top == 8 * (Top / 8);
  }

  /** Reducing modulo 2^254 keeps the low 248 bits and bits 0..5 of the top byte. */
  lemma HighBits(low: int, x31: nat)
    requires 0 <= low < Top
    ensures (low + x31 * Top) % Two254 == low + (x31 % 64) * Top
  {
    var v := low + x31 * Top;
    assert v == (x31 / 64) * Two254 + (low + (x31 % 64) * Top);
    DivMod(v, Two254, x31 / 64, low + (x31 % 64) * Top);
  }

  /** Reducing modulo 8 keeps bits 0..2 of the low byte. */
  lemma LowBits(x0: nat, m: nat, x31: nat)
    ensures (x0 + 256 * m + x31 * Top) % 8 == x0 % 8
  {
    TopEighth(x31);
    var q := 32 * m + x31 * (Top / 8) + x0 / 8;
    assert x0 == 8 * (x0 / 8) + x0 % 8;
    DivMod(x0 + 256 * m + x31 * Top, 8, q, x0 % 8);
  }

  /** decodeScalar25519 of section 5 of RFC 7748 on integers: the clamped
      scalar is 2^254 plus the input's bits 3..253. */
  lemma ClampValue(n: seq<bv8>)
    requires |n| == 32
    ensures BytesValue(Clamp(n)) == Two254 + BytesValue(n) % Two254 - BytesValue(n) % 8
  {
    var e := Clamp(n);
    SameMiddle(n, e);
    var m := Middle(n);
    var m2 := Middle(e);
    var x0, x31, e0, e31 := n[0] as nat, n[31] as nat, e[0] as nat, e[31] as nat;
    HighBits(x0 + 256 * m, x31);
    LowBits(x0, m, x31);
    ClampBytes(e0, x0, e31, x31);
    TopByte(e31, x31);
    ClampSum(BytesValue(n), BytesValue(e), x0, m, x31 * Top, (x31 % 64) * Top, e0, e31 * Top);
  }

  lemma SameMiddle(n: seq<bv8>, e: seq<bv8>)
    requires |n| == 32 && e == Clamp(n)
    ensures Limbs(e)[1..31] == Limbs(n)[1..31]
  {
    assert Limbs(e)[1..31] == Limbs(n)[1..31];
  }

  /** The clamped end bytes as numbers. */
  lemma ClampBytes(e0: nat, x0: nat, e31: nat, x31: nat)
    requires e0 % 8 == 0 && e0 / 8 == x0 / 8
    requires 64 <= e31 < 128 && e31 % 64 == x31 % 64
    ensures e0 == x0 - x0 % 8 && e31 == 64 + x31 % 64
  {
  }

  /** The clamped top byte is bit 254 plus the input's bits 248..253. */
  lemma TopByte(e31: nat, x31: nat)
    requires e31 == 64 + x31 % 64
    ensures e31 * Top == Two254 + (x31 % 64) * Top
  {
  }

  /** The final bookkeeping of ClampValue, with the products as plain numbers. */
  lemma ClampSum(v: int, v2: int, x0: nat, m: nat, hi: int, hi64: int, e0: int, top: int)
    requires v == x0 + 256 * m + hi
    requires v2 == e0 + 256 * m + top
    requires e0 == x0 - x0 % 8 && top == Two254 + hi64
    requires v % Two254 == x0 + 256 * m + hi64
    requires v % 8 == x0 % 8
    ensures v2 == Two254 + v % Two254 - v % 8
  {
  }

  /** A 32-byte string split into its low byte, the 30 middle bytes and its top byte. */
  lemma Middle(b: seq<bv8>) returns (m: nat)
    requires |b| == 32
    ensures m == Value(Limbs(b)[1..31])
    ensures 0 <= b[0] as nat + 256 * m < Top
    ensures BytesValue(b) == b[0] as nat + 256 * m + b[31] as nat * Top
  {
    var a := Limbs(b);
    var mid := a[1..31];
    assert a[..31][1..] == mid;
    ValueTop(a);
    ValueNonNegative(mid);
    m := Value(mid);
    BytesBelow(mid);
    Pow256Add(1, 30);
    PowFacts();
  }

  /** The clamped scalar has bit 255 clear, bit 254 set and bits 0..2 clear,
      as mainloop reads them; so the ladder's first step (pos = 254) always
      sees a set bit. */
  lemma ClampBits(n: seq<bv8>)
    requires |n| == 32
    ensures Bit(Clamp(n), 255) == 0 && Bit(Clamp(n), 254) == 1
    ensures Bit(Clamp(n), 0) == 0 && Bit(Clamp(n), 1) == 0 && Bit(Clamp(n), 2) == 0
  {
    var e := Clamp(n);
    TopBits(e[31]);
    LowBitsClear(e[0]);
  }

  lemma TopBits(x: bv8)
    requires 64 <= x as nat < 128
    ensures (x >> 7) & 1 == 0 && (x >> 6) & 1 == 1
  {
  }

  lemma LowBitsClear(x: bv8)
    requires x as nat % 8 == 0
    ensures x & 1 == 0 && (x >> 1) & 1 == 0 && (x >> 2) & 1 == 0
  {
  }

  // ---------------------------------------------------------------------
  // Little-endian byte strings

  /** The k-byte little-endian encoding of v modulo 256^k. */
  function LeBytes(v: nat, k: nat): (b: seq<bv8>)
    ensures |b| == k
  {
    if k == 0 then [] else [(v % 256) as bv8] + LeBytes(v / 256, k - 1)
  }

  /** A byte string is the encoding of its own value: decoding is injective. */
  lemma {:induction false} LeBytesOfValue(b: seq<bv8>)
    ensures LeBytes(BytesValue(b), |b|) == b
    decreases |b|
  {
    if |b| > 0 {
      var rest := b[1..];
      assert Limbs(b)[1..] == Limbs(rest);
      ValueNonNegative(Limbs(rest));
      var v := BytesValue(b);
      assert v == b[0] as nat + 256 * BytesValue(rest);
      DivMod(v, 256, BytesValue(rest), b[0] as nat);
      assert v / 256 == BytesValue(rest);
      LeBytesOfValue(rest);
    }
  }

  // ---------------------------------------------------------------------
  // crypto_scalarmult (curve25519.c:271-287)

  /** What crypto_scalarmult computes, in field terms: run the ladder of
      mainloop from the unmasked input u with the clamped scalar, and
      return X * Z^(p-2), that is X / Z, or 0 when Z = 0. */
  function SharedValue(n: seq<bv8>, p: seq<bv8>): (r: int)
    requires |n| == 32 && |p| == 32
    ensures 0 <= r < P
  {
    var u := Elem(Limbs(p));
    var xz := LadderFrom(u, Clamp(n), 254, Proj(1, 0), Proj(u, 1)).0;
    FMul(xz.x, FPow(xz.z, P - 2))
  }

  /** crypto_scalarmult: always returns 0 and writes the 32-byte canonical
      encoding of the ladder result. */
  method ScalarMult(n: seq<bv8>, p: seq<bv8>) returns (q: seq<bv8>, ret: int)
    requires |n| == 32 && |p| == 32
    ensures ret == 0 && |q| == 32
    ensures BytesValue(q) == SharedValue(n, p) < P
    ensures q == LeBytes(SharedValue(n, p), 32)
  {
    var e := Clamp(n);
    var work := Limbs(p);
    var xz, steps := MainLoop(work, e);
    var x, z := xz[..32], xz[32..];
    var zinv, ops := Recip(z);
    var prod := Mult(x, zinv);
    MulElem(x, zinv, prod);
    var out := Truncate(Freeze(prod));
    q := Narrow(out);
    LeBytesOfValue(q);
    ret := 0;
  }

  /** The base point u = 9 of section 4.1 of RFC 7748. */
  const Base: seq<bv8> := [9] + seq(31, i => 0)

  /** ZTLF_Curve25519_generate: the private key is the 32 random bytes it is
      given (the random source is a parameter), the public key is their
      product with the base point. */
  method Generate(random: seq<bv8>) returns (pub: seq<bv8>, priv: seq<bv8>)
    requires |random| == 32
    ensures priv == random
    ensures pub == LeBytes(SharedValue(priv, Base), 32)
  {
    priv := random;
    var ret;
    pub, ret := ScalarMult(priv, Base);
  }

  /** ZTLF_Curve25519_agree: the shared secret is the first 32 bytes of the
      48-byte SHA-384 digest (a parameter) of the raw scalar-multiplication
      output. */
  method Agree(theirPublic: seq<bv8>, myPrivate: seq<bv8>, sha384: seq<bv8> -> seq<bv8>) returns (secret: seq<bv8>)
    requires |theirPublic| == 32 && |myPrivate| == 32
    requires forall m :: |sha384(m)| == 48
    ensures secret == sha384(LeBytes(SharedValue(myPrivate, theirPublic), 32))[..32]
  {
    var rawkey, ret := ScalarMult(myPrivate, theirPublic);
    var tmp := sha384(rawkey);
    secret := tmp[..32];
  }
}
