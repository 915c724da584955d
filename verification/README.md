# LF: Curve25519 arithmetic and the record wire format

This project models two self-contained pieces of the LF key/value store in
Dafny and proves properties of them.

1. **X25519 scalar multiplication in `curve25519.c`.** This is the
   Curve25519 function of section 5 of RFC 7748, over p = 2^255 - 19.
   - Field elements are 32 unsigned-int limbs in radix 256 (`Field.Value`).
   - The model covers the limb arithmetic (`add`, `sub`, `squeeze`,
     `mult121665`, `freeze`, `mult`, `square`), the constant-time select, the
     255-step Montgomery ladder, and the inversion chain `recip`.
   - `crypto_scalarmult` is modelled with its clamping, and
     `ZTLF_Curve25519_generate`/`agree` as wrappers over it.
2. **The record format of `pkg/lf/record.go`.** This is the binary codec of
   `recordBody` and `Record`, plus the proof-of-work cost and score
   functions.
   - A reader is the byte sequence it has left. Every read returns the value
     and the rest (`Wire.Res`), or an error and the rest.
   - The record reader's `ReadByte`, `io.ReadFull` and `binary.ReadUvarint` are modelled in
     `Wire`, including their EOF and overflow behaviour.

Layout of the files:
- `bits.dfy`: word and bit helpers.
- `field.dfy`, `fieldmult.dfy`: limbs and field arithmetic.
- `ladder.dfy`, `inversion.dfy`: the ladder and `recip`.
- `x25519.dfy`: the top level.
- `wire.dfy`: the Go readers and the uvarint.
- `body.dfy`: `recordBody`.
- `record.dfy`: `Record`.
- `workcost.dfy`: cost and score.

How the model represents the source:
- Integer widths are written out wherever the source relies on them:
  - 32-bit limb bounds are preconditions that rule out overflow;
  - the link count times 32 wraps modulo 2^64;
  - the cost subtraction wraps modulo 2^64;
  - the score arithmetic wraps modulo 2^32.
- The ladder is related to the RFC 7748 pseudo-code: `mainloop` selects,
  steps and selects back eagerly, and `Ladder.LadderMatchesRfc` proves this
  equal to the deferred-swap ladder of the RFC.
- Things the source calls but does not show are parameters:
  - the random source (`Generate` takes the 32 random bytes);
  - SHA-384 (`Agree` takes it as a function);
  - the selector codec (`enc`/`dec`, with `Records.CodecRoundTrip` as the
    hypothesis of the round trip);
  - the Wharrgarbl output size (`workSize`);
  - the difficulty of a work (`difficulty`).

## Model

| member | source | states |
|---|---|---|
| Field.Carry | curve25519.c:41 | The carry chain leaves every limb in 0..255 and a carry below 2^31. Limbs plus carry times 256^n equal the input plus the carry-in. |
| Field.Add | curve25519.c:36-43 | value(out) = value(a) + value(b). Limbs 0..30 are bytes and limb 31 stays 32-bit. For byte inputs, limb 31 is at most a[31] + b[31] + 1. |
| Field.SubBias | curve25519.c:49-54 | The bias of 218 plus 65280 in each of limbs 0..30 is exactly 2p = 2^256 - 38. |
| Field.Sub | curve25519.c:45-57 | value(out) = value(a) - value(b) + 2p, limbs 0..30 are bytes, and limb 31 is bounded. |
| Field.Squeeze | curve25519.c:59-69 | The result is squeezed: limbs 0..30 are at most 255 and limb 31 is at most 128. The value does not grow and is unchanged mod p (2^255 ≡ 19). |
| Field.Mult121665 | curve25519.c:100-111 | The result is squeezed and congruent to 121665·value(a) mod p. |
| Field.MinusPValue | curve25519.c:71 | The `minusp` table is 19, 0, ..., 128 and encodes 2^256 - p = p + 38. |
| Field.Freeze | curve25519.c:73-83 | For a squeezed input, an input below p is left unchanged. Otherwise the result encodes value - p + 2^256. After the byte truncation of curve25519.c:285 the limbs encode value(a) mod p, with the top bit clear. |
| Field.FreezeIdempotent | curve25519.c:73-83 | Freezing and truncating a second time changes nothing. |
| Field.AddElem | curve25519.c:36-43 | The value equation of `add` is field addition of the elements. |
| Field.SubElem | curve25519.c:45-57 | The value equation of `sub` is field subtraction. |
| Field.MulElem | curve25519.c:85-98 | The congruence of `mult` is field multiplication. |
| Field.ScaleElem | curve25519.c:100-111 | The congruence of `mult121665` is multiplication by 121665. |
| FieldMult.ConvValue | curve25519.c:85-98 | The schoolbook convolution, with the high half folded in ×38, is congruent to value(a)·value(b) mod p (2^256 ≡ 38). |
| FieldMult.ConvBound | curve25519.c:85-98 | Every convolution sum stays below 2^31 for limbs within LimbMax, so the 32-bit accumulator cannot overflow. |
| FieldMult.Product | curve25519.c:85-98 | The squeezed convolution, the reference that `mult` and `square` both return, is congruent to the product. |
| FieldMult.Mult | curve25519.c:85-98 | `mult` returns the Product of a and b: squeezed and congruent to value(a)·value(b). |
| FieldMult.MultLimb | curve25519.c:92-94 | The two inner loops of `mult` for limb i accumulate exactly the i-th convolution sum. |
| FieldMult.MirrorSum | curve25519.c:121-122 | A convolution sum of a with itself is twice its lower half, plus the middle term when the count is odd. |
| FieldMult.SquareSum | curve25519.c:121-127 | Limb i of a·a is twice the lower-mirror and upper-mirror sums, plus the diagonal terms a[i/2]^2 + 38·a[i/2+16]^2 when i is even. |
| FieldMult.SquareLimb | curve25519.c:120-128 | `square`'s loops for limb i (halved range, doubling, diagonal) compute the same sum as `mult(a, a)`. |
| FieldMult.Square | curve25519.c:113-131 | `square(a)` produces exactly the limbs of `mult(a, a)`, namely Product(a, a). |
| Ladder.Select | curve25519.c:133-145 | With b = 0 the result is (r, s); with b = 1 it is (s, r). This holds for all 64 words, computed through the masks b - 1 and t. |
| Ladder.SelectMask | curve25519.c:139-144 | An all-ones mask keeps the pair, a zero mask exchanges it, word by word. |
| Ladder.AddSub | curve25519.c:180-183 | `add` then `sub` of the two halves of a point give X + Z and X - Z, within the limb bounds `mult` and `square` need. |
| Ladder.DoubleParts | curve25519.c:191-193 | s = AA - BB (E of RFC 7748) and u = 121665·E + AA, as field values, within the bounds the following `mult` needs. |
| Ladder.LadderStep | curve25519.c:180-197 | One ladder step maps the pair to `Step` of section 5 of RFC 7748 (doubling and differential addition with a24 = 121665), and keeps X as bytes and Z squeezed. |
| Ladder.StepAlgebra | curve25519.c:186-197 | The source forms (CB + DA)^2 and x1·(CB - DA)^2. These equal the RFC formulas (DA + CB)^2 and x1·(DA - CB)^2. |
| Ladder.InitialPoints | curve25519.c:169-174 | The starting points are (u : 1) from the unmasked input and (1 : 0). |
| Ladder.LadderBit | curve25519.c:179-198 | For the bit b, select (swap when b = 1), step, and select back: BitStep of the points. |
| Ladder.MainLoop | curve25519.c:147-202 | Exactly 255 iterations, pos = 254 down to 0. The result is the ladder LadderFrom from bit 254, as a bounded pair. |
| Ladder.LadderMatchesRfc | curve25519.c:176-199 | The eager select-step-select ladder equals the deferred-swap ladder of RFC 7748 section 5, for any state and pending swap. |
| Ladder.MainLadderMatchesRfc | curve25519.c:169-199 | From (1 : 0), (u : 1) and bit 254, mainloop's ladder is the RFC's ladder. |
| Inversion.SquareExp | curve25519.c:113-131 | One `square` call doubles the exponent (z^k becomes z^(2k)) and adds exactly one to the squaring count, leaving the multiplication count alone. |
| Inversion.MultExp | curve25519.c:85-98 | One `mult` call adds exponents (z^k · z^m = z^(k+m)) and adds exactly one to the multiplication count, leaving the squaring count alone. |
| Inversion.SquarePairs | curve25519.c:235 | The paired square loops multiply the exponent by 2^(hi-lo) and add hi - lo to the squaring count. |
| Inversion.Link | curve25519.c:233-236 | One stage of the chain turns z^(2^k-1) and z^(2^n-1) into z^(2^(k+n)-1), adding n squarings and one multiplication to the counts. |
| Inversion.RecipHead | curve25519.c:218-231 | The opening adds 9 squarings and 4 multiplications to the counts and holds z^11 and z^(2^10-1). |
| Inversion.RecipMiddle | curve25519.c:233-246 | This run adds 40 squarings and 3 multiplications to the counts and reaches z^(2^50-1), via 2^20-1 and 2^40-1. |
| Inversion.RecipUpper | curve25519.c:248-261 | This run adds 200 squarings and 3 multiplications to the counts and reaches z^(2^250-1), via 2^100-1 and 2^200-1. |
| Inversion.SquareTimes | curve25519.c:263-267 | n squarings in a row multiply the exponent by 2^n and add n to the squaring count. |
| Inversion.FinalExponent | curve25519.c:263-268 | (2^250 - 1)·2^5 + 11 = p - 2. |
| Inversion.Recip | curve25519.c:204-269 | Starting from zero counts, `recip` makes exactly 254 `square` and 11 `mult` calls and returns z^(p-2). Only SquareExp and MultExp advance the counts. |
| X25519.Clamp | curve25519.c:276-279 | Clamping clears the low 3 bits of e[0], clears bit 7 and sets bit 6 of e[31], and keeps every other bit of n. |
| X25519.ClampValue | curve25519.c:276-279 | The clamped scalar is 2^254 + (n mod 2^254) - (n mod 8), as decodeScalar25519 of RFC 7748 section 5 gives. |
| X25519.ClampBits | curve25519.c:276-279 | The ladder reads bit 255 = 0, bit 254 = 1 and bits 0..2 = 0 from the clamped scalar. |
| X25519.LeBytesOfValue | curve25519.c:285 | The output bytes are the 32-byte little-endian encoding of their value. |
| X25519.SharedValue | curve25519.c:271-287 | The reference definition: the field-level ladder on the clamped scalar and the unmasked u, then X · Z^(p-2), a canonical element below p. ScalarMult is proved to encode exactly this value. |
| X25519.ScalarMult | curve25519.c:271-287 | `crypto_scalarmult` always returns 0 and writes exactly 32 bytes: the canonical little-endian encoding of X/Z after the ladder on the clamped scalar. |
| X25519.Generate | curve25519.c:289-294 | The private key is the random bytes; the public key is their product with the base point u = 9. |
| X25519.Agree | curve25519.c:296-304 | The secret is the first 32 bytes of the 48-byte SHA-384 of the raw output. |
| Wire.ReadFull | pkg/lf/record.go:71-74 | io.ReadFull succeeds exactly when n bytes remain. A short read consumes everything and reports EOF, or UnexpectedEOF when some bytes were read. |
| Wire.ReadUvarint | pkg/lf/record.go:62-65 | binary.ReadUvarint yields a uint64 and consumes at least one byte. It fails with EOF exactly on an empty input. |
| Wire.UvarintRoundTrip | pkg/lf/record.go:140 | The reader reads back every uint64 the writer writes and leaves the rest untouched. |
| Wire.UvarintLength | pkg/lf/record.go:140 | A uint64 takes at most 10 bytes, and 1 byte exactly when it is below 128. |
| Wire.UvarintTooLong | pkg/lf/record.go:62-65 | Ten continuation bytes, or a tenth byte above 1, overflow. |
| Wire.UvarintPadded | pkg/lf/record.go:62-65 | Padded encodings are accepted (0x80 0x00 reads as 0). |
| RecordBody.LinkCount | pkg/lf/record.go:208 | The link count is the number of whole 32-byte links. |
| RecordBody.Normalize | pkg/lf/record.go:132-172 | marshalTo keeps the certificate only when it is exactly 32 bytes, and only the whole links. |
| RecordBody.ReadBlob | pkg/lf/record.go:62-78 | A length-prefixed field never exceeds RecordMaxSize. |
| RecordBody.ReadLinks | pkg/lf/record.go:107-118 | Links read are whole, within RecordMaxSize, and a suffix of the input remains. |
| RecordBody.UnmarshalBody | pkg/lf/record.go:57-128 | Every body read is canonical: a certificate of 0 or 32 bytes, whole links, no field over RecordMaxSize. The rest is a suffix of the input. |
| RecordBody.MarshalBody | pkg/lf/record.go:130-176 | The first byte is the certificate flag, set exactly when the certificate is 32 bytes. |
| RecordBody.BodyDecodeEncode | pkg/lf/record.go:57-176 | unmarshalFrom(marshalTo(b) + rest) yields the normalised body and leaves rest, for fields within RecordMaxSize. |
| RecordBody.BodyRoundTrip | pkg/lf/record.go:57-176 | A canonical body (certificate empty or 32 bytes, links a multiple of 32, fields within RecordMaxSize) reads back exactly. |
| RecordBody.MarshalNormalizes | pkg/lf/record.go:132-172 | marshalTo writes a body and its normalisation identically. |
| RecordBody.NormalizeCanonical | pkg/lf/record.go:132-172 | Canonical bodies are their own normalisation, and normalising is idempotent. |
| RecordBody.BodyEmpty | pkg/lf/record.go:60-65 | The ignored flags read on an empty input falls through to EOF at the first length. |
| RecordBody.ValueTooLong | pkg/lf/record.go:66-69 | A masked-value length over RecordMaxSize is ErrorRecordInvalid. |
| RecordBody.OwnerTooLong | pkg/lf/record.go:83-86 | An owner length over RecordMaxSize is ErrorRecordInvalid. |
| RecordBody.LinkCountLimit | pkg/lf/record.go:107-115 | The links read rejects a nonzero count exactly when count·32 mod 2^64 exceeds RecordMaxSize. |
| RecordBody.LinkCountWraps | pkg/lf/record.go:112-115 | In the links read, the count 2^59 wraps to 0 bytes and is accepted as no links. |
| RecordBody.LinksTooMany | pkg/lf/record.go:107-115 | In unmarshalFrom, after the value, the owner and the certificate, a count whose wrapped byte count exceeds RecordMaxSize is ErrorRecordInvalid. |
| RecordBody.LinksWrapToNone | pkg/lf/record.go:107-125 | In unmarshalFrom, the count 2^59 is accepted: the body has no links and the timestamp is read right after the count. |
| RecordBody.LinksCutShort | pkg/lf/record.go:117-125 | A links read cut short is not reported itself. The input is then used up, and the timestamp read reports EOF. |
| Records.MarshalRecord | pkg/lf/record.go:340-374 | MarshalTo starts with the reserved header byte 0. |
| Records.SkipDead | pkg/lf/record.go:265-275 | After 0xff, a 4-byte length that is present gives ErrorRecordMarkedIgnore. A missing one gives the read error. |
| Records.ReadSelectorList | pkg/lf/record.go:284-297 | At most RecordMaxSize/64 = 1024 selectors are read. |
| Records.ReadSelectors | pkg/lf/record.go:292-297 | The selector loop returns exactly the count it was asked for. |
| Records.ReadWork | pkg/lf/record.go:299-311 | Algorithm 1 reads exactly workSize bytes, 0 reads none, and anything else is ErrorRecordUnsupportedAlgorithm with nothing consumed. |
| Records.ReadSignature | pkg/lf/record.go:313-323 | The signature never exceeds RecordMaxSize. |
| Records.UnmarshalRecord | pkg/lf/record.go:258-331 | Every record read is well-formed: a known algorithm with a work of its size, at most 1024 selectors, a signature within RecordMaxSize, and a canonical body. |
| Records.SelectorsRoundTrip | pkg/lf/record.go:292-297 | Under a round-tripping codec the selectors read back one by one. |
| Records.RecordDecodeEncode | pkg/lf/record.go:258-374 | UnmarshalFrom(MarshalTo(r) + rest) gives r with its body normalised and leaves rest, for a well-formed r and a round-tripping codec. |
| Records.RecordRoundTrip | pkg/lf/record.go:258-374 | A well-formed record with a canonical body reads back exactly. |
| Records.RecordEmpty | pkg/lf/record.go:261-264 | An empty input is EOF. |
| Records.DeadRecord | pkg/lf/record.go:265-275 | Header 0xff and a big-endian 32-bit length give ErrorRecordMarkedIgnore after skipping length - 5 bytes (or up to the end) when the length is at least 5. |
| Records.DeadRecordSkipped | pkg/lf/record.go:265-275 | A dead record whose length counts its 5 header bytes and its remainder is skipped exactly, leaving the next record. |
| Records.BadHeader | pkg/lf/record.go:276-278 | Any other nonzero header is ErrorRecordInvalid. |
| Records.TooManySelectors | pkg/lf/record.go:288-290 | More than 1024 selectors is ErrorRecordInvalid. |
| Records.UnsupportedAlgorithm | pkg/lf/record.go:309-311 | An algorithm other than 0 and 1 is ErrorRecordUnsupportedAlgorithm. |
| Records.SignatureTooLong | pkg/lf/record.go:318-320 | A signature length over RecordMaxSize is ErrorRecordInvalid. |
| Records.RecordScore | pkg/lf/record.go:414-422 | Record.Score is 0 exactly for an unknown algorithm, and is never above 0xffffa8db. |
| Records.DecodedScore | pkg/lf/record.go:414-422 | Every record UnmarshalFrom accepts scores at least 1. |
| WorkCost.IntegerSqrtRounded | pkg/lf/record.go:531 | The root is the nearest integer to sqrt(x). |
| WorkCost.NearestRootUnique | pkg/lf/record.go:531 | The nearest root is unique. |
| WorkCost.RootMono | pkg/lf/record.go:531 | The rounded root is monotone. |
| WorkCost.RootOfMax | pkg/lf/record.go:531 | integerSqrtRounded(196608) = 443. |
| WorkCost.Cost | pkg/lf/record.go:511-536 | RecordWharrgarblCost always lies in [1, 0x0f7b0000]. |
| WorkCost.CostSmall | pkg/lf/record.go:524-526 | Below 4 bytes the cost is bytes + 1. |
| WorkCost.CostClamp | pkg/lf/record.go:527-529 | Byte counts over RecordMaxSize cost what RecordMaxSize costs. |
| WorkCost.CostExact | pkg/lf/record.go:527-535 | For bytes >= 4 the subtraction s·b·3 - b·8 does not underflow (s >= 3), and the cost is at most 0x0f7b0000, so the 0xffffffff branch is unreachable. |
| WorkCost.CostAtMax | pkg/lf/record.go:530-535 | RecordWharrgarblCost(RecordMaxSize) = 0x0f7b0000, the threshold RecordWharrgarblScore names. |
| WorkCost.CostMono | pkg/lf/record.go:511-536 | A larger record never costs less. |
| WorkCost.Score | pkg/lf/record.go:539-547 | RecordWharrgarblScore always lies in [1, 0xffffa8db]. |
| WorkCost.ScoreExact | pkg/lf/record.go:546 | For 1 <= cost <= 0x0f7b0000, cost·16 + (cost/10000)·5369 does not overflow uint32. |
| WorkCost.ScoreAtMax | pkg/lf/record.go:540-546 | At cost 0x0f7b0000 the formula reaches exactly 0xffffa8db, the saturated value. |
| WorkCost.ScoreBounds | pkg/lf/record.go:539-547 | Scores lie in [1, 0xffffa8db]: cost 0 scores 1 and costs from 0x0f7b0000 up score 0xffffa8db. |
| WorkCost.ScoreMono | pkg/lf/record.go:539-547 | More work never scores less. |
| WorkCost.MaxRecordScore | pkg/lf/record.go:540 | The cost of the largest record scores 0xffffa8db. |

## Left out

- Group correctness: that the ladder computes n·P on the curve is not
  proved. Each ladder step is proved equal to the field formulas of section 5
  of RFC 7748, and the ladder equal to the RFC's ladder.
- Field inverse: `recip` is proved to compute z^(p-2). That this is the
  inverse of z needs the primality of p, which is not proved.
- Constant time: the masked selects are modelled literally, but timing is
  not a property Dafny can state.
- The top bit of the input u-coordinate is not masked (curve25519.c:280):
  the model takes the full 256-bit value. For inputs with bit 255 set it
  does not conform to section 5 of RFC 7748.
- `ZTLF_secureRandom` and `ZTLF_SHA384` are external: the random bytes and
  the hash are parameters.
- AES-CFB masking, LZW compression, hashing, signing, the Wharrgarbl proof
  of work and record creation (`GetValue`, `signingHash`, `Hash`, `ID`,
  `Validate`, `NewRecord*`) are foreign library calls and are not modelled.
- The selector encoding is not part of this model. `Selector.MarshalTo` and
  `UnmarshalFrom` are a codec parameter, and the round trip assumes it
  round-trips.
- `writeUVarint` is not part of this model. It is taken as the minimal
  unsigned varint that `encoding/binary` writes.
- `integerSqrtRounded` is not part of this model. It is specified as the
  nearest-integer square root, implemented here by a floor root.
- `WharrgarblOutputSize` and `WharrgarblGetDifficulty` are not part of this
  model. They are parameters (`workSize`, `difficulty`).
- io.Writer errors (including the `return nil` on a failed write at
  pkg/lf/record.go:170), `sizeBytes`, `Bytes`, `SizeBytes` and the cached
  `data`/`hash`/`id` fields are not modelled: marshalling is a pure
  function to bytes.
- The reader `byteAndArrayReader` is not part of this model. Its `ReadByte`
  is assumed to return io.EOF at the end of the input and nowhere else, and
  the underlying reader is assumed to fail only at its end.
  `binary.ReadUvarint` is modelled as current Go versions write it: at most
  10 bytes, and io.ErrUnexpectedEOF when the input ends inside a varint.
  Older Go versions returned io.EOF there and had no length cap.
- nil and empty slices are not distinguished: a zero-length field reads
  back as the empty sequence.
- Records.UnmarshalRecord: with algorithm 0 the source leaves `r.Work` as it
  was before the call. The model returns an empty work, which is what a
  fresh Record holds.
- Records.UnmarshalRecord: fields that the source assigns before an error
  are not returned. An error result carries only the error and the input
  left.
- Records.UnmarshalRecord: the rest after the record is not stated to be a
  suffix of the input. That would need an assumption about the opaque
  selector reader.
- pkg/lf/api-new.go is not part of this model: it is HTTP/JSON plumbing
  and owner-key construction.
