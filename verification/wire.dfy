/** The byte-stream primitives the record codec of pkg/lf/record.go reads
    and writes with: the record reader's `ReadByte`, `io.ReadFull` and the unsigned varint
    of `encoding/binary`. A reader is the sequence of bytes it has left; every
    read returns what it consumed the input down to, on success and on error. */
module Wire {
  import opened Bits

  /** A Go `byte`. */
  type Octet = x: int | 0 <= x < 256

  /** 2^64: Go's uint64 values lie below it. */
  const U64: int := 0x1_0000_0000_0000_0000

  /** A Go `uint64`. */
  type u64 = x: int | 0 <= x < U64

  /** The errors the record readers can return. */
  datatype Error =
    | EOF                          // io.EOF: nothing left before the read
    | UnexpectedEOF                // io.ErrUnexpectedEOF: input ended inside an item
    | Overflow                     // a varint longer than 64 bits
    | RecordInvalid                // ErrorRecordInvalid
    | RecordMarkedIgnore           // ErrorRecordMarkedIgnore
    | RecordUnsupportedAlgorithm   // ErrorRecordUnsupportedAlgorithm

  /** The outcome of a read: a value and the input left after it, or an
      error and the input left after the bytes the failed read consumed. */
  datatype Res<T> = Ok(value: T, rest: seq<Octet>) | Fail(err: Error, rest: seq<Octet>)
  {
    predicate IsFailure() {
      Fail?
    }

    function PropagateFailure<U>(): Res<U>
      requires Fail?
    {
      Fail(err, rest)
    }

    function Extract(): (T, seq<Octet>)
      requires Ok?
    {
      (value, rest)
    }
  }

  /** rest is what is left of input after reading a prefix of it. */
  predicate Suffix(rest: seq<Octet>, input: seq<Octet>) {
    |rest| <= |input| && rest == input[|input| - |rest|..]
  }

  lemma SuffixTrans(a: seq<Octet>, b: seq<Octet>, c: seq<Octet>)
    requires Suffix(a, b) && Suffix(b, c)
    ensures Suffix(a, c)
  {
    assert c[|c| - |b|..][|b| - |a|..] == c[|c| - |a|..];
  }

  lemma Assoc(a: seq<Octet>, b: seq<Octet>, c: seq<Octet>)
    ensures a + b + c == a + (b + c)
  {
  }

  /** ReadByte: one byte, or io.EOF on an empty input. */
  function ReadByte(input: seq<Octet>): (r: Res<Octet>)
    ensures |input| > 0 <==> r.Ok?
    ensures r.Ok? ==> [r.value] + r.rest == input
    ensures r.Fail? ==> r.err == EOF && r.rest == input
  {
    if |input| == 0 then Fail(EOF, input) else Ok(input[0], input[1..])
  }

  /** io.ReadFull into a buffer of n bytes: the next n bytes, or, when fewer
      are left, all of them consumed and io.EOF (none read) or
      io.ErrUnexpectedEOF (some read). A zero-length buffer always succeeds. */
  function ReadFull(input: seq<Octet>, n: nat): (r: Res<seq<Octet>>)
    ensures r.Ok? <==> n <= |input|
    ensures r.Ok? ==> r.value + r.rest == input && |r.value| == n
    ensures r.Fail? ==> r.rest == [] && r.err == (if |input| == 0 then EOF else UnexpectedEOF)
  {
    if n <= |input| then Ok(input[..n], input[n..])
    else Fail(if |input| == 0 then EOF else UnexpectedEOF, [])
  }

  /** What a buffer made with `make([]byte, n)` holds after io.ReadFull when
      the caller then ignores the error: the bytes that were there, zeros after. */
  function ReadFullIgnoringError(input: seq<Octet>, n: nat): (r: (seq<Octet>, seq<Octet>))
    ensures |r.0| == n
    ensures n <= |input| ==> r.0 + r.1 == input
    ensures n > |input| ==> r.0[..|input|] == input && r.1 == []
  {
    if n <= |input| then (input[..n], input[n..])
    else (input + seq(n - |input|, j => 0), [])
  }

  // ---------------------------------------------------------------------
  // Unsigned varints (encoding/binary): 7 bits per byte, low group first,
  // bit 7 set on every byte but the last.

  function Pow128(n: nat): (r: nat)
    ensures r > 0
  {
    if n == 0 then 1 else 128 * Pow128(n - 1)
  }

  lemma Pow128Facts()
    ensures Pow128(9) == 0x8000_0000_0000_0000
    ensures Pow128(10) > U64
  {
  }

  lemma {:induction false} Pow128Mono(m: nat, n: nat)
    requires m <= n
    ensures Pow128(m) <= Pow128(n)
    decreases n
  {
    if m < n {
      Pow128Mono(m, n - 1);
    }
  }

  /** The weight of a 7-bit group b at position i. */
  function Group(b: nat, i: nat): nat {
    b * Pow128(i)
  }

  /** binary.ReadUvarint: at most 10 bytes; the tenth may only be 0 or 1. */
  function ReadUvarint(input: seq<Octet>): (r: Res<nat>)
    ensures r.Ok? ==> r.value < U64 && |r.rest| < |input|
    ensures Suffix(r.rest, input)
    ensures r.Fail? ==> r.err in {EOF, UnexpectedEOF, Overflow}
    ensures r.Fail? && r.err == EOF <==> |input| == 0
  {
    UvarintFrom(input, 0, 0)
  }

  /** The loop of binary.ReadUvarint at byte i with x accumulated from bytes 0 .. i - 1. */
  function UvarintFrom(input: seq<Octet>, i: nat, x: nat): (r: Res<nat>)
    requires i <= 10 && x < Pow128(i)
    ensures r.Ok? ==> r.value < U64 && |r.rest| < |input|
    ensures Suffix(r.rest, input)
    ensures r.Fail? ==> r.err in {EOF, UnexpectedEOF, Overflow}
    ensures r.Fail? && r.err == EOF <==> i == 0 && |input| == 0
    decreases 10 - i
  {
    if i == 10 then
      Fail(Overflow, input)
    else if |input| == 0 then
      Fail(if i > 0 then UnexpectedEOF else EOF, input)
    else
      var b := input[0];
      if b < 128 then
        if i == 9 && b > 1 then Fail(Overflow, input[1..])
        else
          GroupBound(i, x, b);
          Ok(x + Group(b, i), input[1..])
      else
        GroupBound(i, x, b - 128);
        var r := UvarintFrom(input[1..], i + 1, x + Group(b - 128, i));
        assert Suffix(input[1..], input);
        SuffixTrans(r.rest, input[1..], input);
        r
  }

  /** Adding group i (7 bits) to the groups below it stays below 128^(i+1),
      and below 2^64 when the tenth group is at most 1. */
  lemma GroupBound(i: nat, x: nat, b: nat)
    requires i <= 9 && x < Pow128(i) && b < 128
    ensures x + Group(b, i) < Pow128(i + 1)
    ensures i < 9 || b <= 1 ==> x + Group(b, i) < U64
  {
    var w := Pow128(i);
    MulMono(b, 127, w);
    assert Pow128(i + 1) == 128 * w;
    if i < 9 {
      Pow128Mono(i + 1, 9);
      Pow128Facts();
    } else if b <= 1 {
      Pow128Facts();
      MulMono(b, 1, w);
    }
  }

  /** writeUVarint: the minimal encoding of x. */
  function EncodeUvarint(x: nat): (r: seq<Octet>)
    ensures |r| > 0
    decreases x
  {
    if x < 128 then [x] else [x % 128 + 128] + EncodeUvarint(x / 128)
  }

  /** Decoding from byte i reads back what encoding wrote, provided the
      value fits the 64 - 7i bits left. */
  lemma {:induction false} UvarintFromEncode(v: nat, rest: seq<Octet>, i: nat, x: nat)
    requires i <= 9 && x < Pow128(i) && Group(v, i) < U64
    ensures UvarintFrom(EncodeUvarint(v) + rest, i, x) == Ok(x + Group(v, i), rest)
    decreases v
  {
    if v < 128 {
      var e := EncodeUvarint(v) + rest;
      assert e[0] == v && e[1..] == rest;
      LastGroup(v, i);
      UvarintLast(e, i, x);
    } else {
      SplitGroup(v, i, x);
      UvarintFromEncode(v / 128, rest, i + 1, x + Group(v % 128, i));
      EncodeStep(v, rest, i, x);
    }
  }

  /** The inductive step: a continuation byte, then the encoding of v / 128. */
  lemma EncodeStep(v: nat, rest: seq<Octet>, i: nat, x: nat)
    requires v >= 128 && i < 9 && x < Pow128(i)
    requires x + Group(v % 128, i) < Pow128(i + 1)
    requires x + Group(v % 128, i) + Group(v / 128, i + 1) == x + Group(v, i)
    requires UvarintFrom(EncodeUvarint(v / 128) + rest, i + 1, x + Group(v % 128, i))
          == Ok(x + Group(v % 128, i) + Group(v / 128, i + 1), rest)
    ensures UvarintFrom(EncodeUvarint(v) + rest, i, x) == Ok(x + Group(v, i), rest)
  {
    var e := EncodeUvarint(v) + rest;
    var t := EncodeUvarint(v / 128) + rest;
    EncodeHead(v, rest);
    UvarintContinue(e, i, x, v % 128, t);
  }

  lemma EncodeHead(v: nat, rest: seq<Octet>)
    requires v >= 128
    ensures |EncodeUvarint(v) + rest| > 0
    ensures (EncodeUvarint(v) + rest)[0] == v % 128 + 128
    ensures (EncodeUvarint(v) + rest)[1..] == EncodeUvarint(v / 128) + rest
  {
    var e := EncodeUvarint(v) + rest;
    assert e[0] == v % 128 + 128 && e[1..] == EncodeUvarint(v / 128) + rest;
  }

  /** A final group that fits: the tenth byte may only be 0 or 1. */
  lemma LastGroup(v: nat, i: nat)
    requires i <= 9 && Group(v, i) < U64
    ensures i < 9 || v <= 1
  {
    if i == 9 && v > 1 {
      Pow128Facts();
      MulMono(2, v, Pow128(i));
    }
  }

  /** One step of the decoding loop on a final byte. */
  lemma UvarintLast(input: seq<Octet>, i: nat, x: nat)
    requires i <= 9 && x < Pow128(i) && |input| > 0 && input[0] < 128
    requires i < 9 || input[0] <= 1
    ensures UvarintFrom(input, i, x) == Ok(x + Group(input[0], i), input[1..])
  {
  }

  /** One step of the decoding loop on a continuation byte. */
  lemma UvarintContinue(input: seq<Octet>, i: nat, x: nat, m: nat, t: seq<Octet>)
    requires i <= 9 && x < Pow128(i) && m < 128
    requires |input| > 0 && input[0] == m + 128 && input[1..] == t
    ensures x + Group(m, i) < Pow128(i + 1)
    ensures UvarintFrom(input, i, x) == UvarintFrom(t, i + 1, x + Group(m, i))
  {
    GroupBound(i, x, m);
  }

  /** Peeling the low 7-bit group of v off at position i. */
  lemma SplitGroup(v: nat, i: nat, x: nat)
    requires v >= 128 && i <= 9 && x < Pow128(i) && Group(v, i) < U64
    ensures i < 9
    ensures x + Group(v % 128, i) < Pow128(i + 1)
    ensures Group(v / 128, i + 1) < U64
    ensures x + Group(v % 128, i) + Group(v / 128, i + 1) == x + Group(v, i)
  {
    var w := Pow128(i);
    MulMono(128, v, w);
    Pow128Facts();
    if i == 9 {
      assert false;
    }
    GroupBound(i, x, v % 128);
    SplitProduct(v / 128, v % 128, w);
  }

  lemma SplitProduct(q: nat, m: nat, w: nat)
    ensures (128 * q + m) * w == q * (128 * w) + m * w
  {
  }

  /** Round trip: ReadUvarint reads back every uint64 writeUVarint writes,
      and leaves the input after it untouched. */
  lemma UvarintRoundTrip(v: nat, rest: seq<Octet>)
    requires v < U64
    ensures ReadUvarint(EncodeUvarint(v) + rest) == Ok(v, rest)
  {
    assert Group(v, 0) == v;
    UvarintFromEncode(v, rest, 0, 0);
  }

  /** The encoding of a value below 128^k takes at most k bytes; a uint64 at most 10. */
  lemma {:induction false} UvarintLength(v: nat, k: nat)
    requires 1 <= k && v < Pow128(k)
    ensures |EncodeUvarint(v)| <= k
    ensures v < 128 <==> |EncodeUvarint(v)| == 1
    decreases k
  {
    if v >= 128 {
      if k == 1 {
        assert false;
      }
      assert v / 128 < Pow128(k - 1);
      UvarintLength(v / 128, k - 1);
    }
  }

  /** The reader accepts padded, non-minimal encodings, so ReadUvarint has
      no inverse on raw bytes: 0x80 0x00 also reads as 0. */
  lemma UvarintPadded()
    ensures ReadUvarint([0x80, 0x00]) == Ok(0, [])
    ensures EncodeUvarint(0) == [0x00]
  {
    var e: seq<Octet> := [0x80, 0x00];
    assert e[1..] == [0x00] && e[1..][1..] == [];
    assert UvarintFrom(e[1..], 1, 0) == Ok(0, []);
    assert UvarintFrom(e, 0, 0) == UvarintFrom(e[1..], 1, 0);
  }

  /** Ten continuation bytes, or a tenth byte above 1, overflow. */
  lemma UvarintTooLong(rest: seq<Octet>)
    ensures ReadUvarint(seq(10, j => 0x80) + rest) == Fail(Overflow, rest)
    ensures ReadUvarint(seq(9, j => 0x80) + [2] + rest) == Fail(Overflow, rest)
  {
    TenContinuations(rest);
    TenthTooLarge(rest);
  }

  lemma TenContinuations(rest: seq<Octet>)
    ensures ReadUvarint(seq(10, j => 0x80) + rest) == Fail(Overflow, rest)
  {
    var a := seq(10, j => 0x80) + rest;
    Continuations(a, 0, 10);
    assert a[10..] == rest;
  }

  lemma TenthTooLarge(rest: seq<Octet>)
    ensures ReadUvarint(seq(9, j => 0x80) + [2] + rest) == Fail(Overflow, rest)
  {
    var b := seq(9, j => 0x80) + [2] + rest;
    assert forall j :: 0 <= j < 9 ==> b[j] == 0x80;
    Continuations(b, 0, 9);
    var t := b[9..];
    assert t[0] == 2 && t[1..] == rest;
  }

  /** Continuation bytes 0x80 from byte i onward add nothing to a zero accumulator. */
  lemma {:induction false} Continuations(input: seq<Octet>, i: nat, n: nat)
    requires i <= n <= 10 && n <= |input|
    requires forall j :: i <= j < n ==> input[j] == 0x80
    ensures UvarintFrom(input[i..], i, 0) == UvarintFrom(input[n..], n, 0)
    decreases n - i
  {
    if i < n {
      assert input[i..][0] == 0x80 && input[i..][1..] == input[i + 1..];
      assert UvarintFrom(input[i..], i, 0) == UvarintFrom(input[i + 1..], i + 1, 0);
      Continuations(input, i + 1, n);
    }
  }
}
