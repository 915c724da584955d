/** Record of pkg/lf/record.go: a body followed by the selectors, the work
    and the signature, and its binary form
      header byte 0
      the body (RecordBody)
      uvarint selector count, each selector in the selector codec
      work algorithm byte, the work
      uvarint signature length, the signature.
    A record whose header is 0xff has been overwritten in place by a 32-bit
    big-endian length and is skipped. The selector codec, the size of a
    Wharrgarbl work and the difficulty of a work are parameters. */
module Records {
  import opened Bits
  import opened Wire
  import opened RecordBody
  import WorkCost

  /** The header that marks a record to be ignored. */
  const DeadHeader: Octet := 0xff

  const AlgorithmNone: Octet := 0
  const AlgorithmWharrgarbl: Octet := 1

  /** RecordMaxSize / 64: the most selectors a record may carry. */
  const MaxSelectors: nat := RecordMaxSize / 64

  datatype Record<S> = Record(
    body: Body,
    selectors: seq<S>,
    work: seq<Octet>,
    workAlgorithm: Octet,
    signature: seq<Octet>)

  /** A selector codec whose reader reads back what its writer writes and
      leaves the input after it untouched. */
  ghost predicate CodecRoundTrip<S(!new)>(enc: S -> seq<Octet>, dec: seq<Octet> -> Res<S>) {
    forall s: S, rest: seq<Octet> :: dec(enc(s) + rest) == Ok(s, rest)
  }

  // ---------------------------------------------------------------------
  // MarshalTo (pkg/lf/record.go:334-374)

  function EncodeSelectors<S(!new)>(sels: seq<S>, enc: S -> seq<Octet>): (r: seq<Octet>)
    ensures |sels| == 0 ==> r == []
  {
    if |sels| == 0 then [] else enc(sels[0]) + EncodeSelectors(sels[1..], enc)
  }

  /** The selector count and the selectors. */
  function MarshalSelectors<S(!new)>(sels: seq<S>, enc: S -> seq<Octet>): seq<Octet> {
    EncodeUvarint(|sels|) + EncodeSelectors(sels, enc)
  }

  /** The algorithm byte and the work, written whatever the algorithm. */
  function MarshalWork(walg: Octet, work: seq<Octet>): seq<Octet> {
    [walg] + work
  }

  /** The signature length and the signature. */
  function MarshalSignature(sig: seq<Octet>): seq<Octet> {
    EncodeUvarint(|sig|) + sig
  }

  /** MarshalTo: a zero header byte and the parts in order. */
  function MarshalRecord<S(!new)>(r: Record<S>, enc: S -> seq<Octet>): (out: seq<Octet>)
    ensures |out| > 0 && out[0] == 0
  {
    [0] + (MarshalBody(r.body) + (MarshalSelectors(r.selectors, enc)
      + (MarshalWork(r.workAlgorithm, r.work) + MarshalSignature(r.signature))))
  }

  // ---------------------------------------------------------------------
  // UnmarshalFrom (pkg/lf/record.go:258-331)

  /** binary.BigEndian.Uint32. */
  function BigEndian32(b: seq<Octet>): (n: nat)
    requires |b| == 4
    ensures n < 0x1_0000_0000
  {
    var b0: nat, b1: nat, b2: nat, b3: nat := b[0], b[1], b[2], b[3];
    ((b0 * 256 + b1) * 256 + b2) * 256 + b3
  }

  /** io.CopyN into ioutil.Discard: drops up to n bytes, fewer when the input
      ends first; its error is ignored. */
  function Discard(input: seq<Octet>, n: nat): (rest: seq<Octet>)
    ensures Suffix(rest, input)
    ensures |rest| == if n <= |input| then |input| - n else 0
  {
    if n <= |input| then input[n..] else []
  }

  /** After a 0xff header: the 32-bit length of the dead record, counted from
      its header byte, and the rest of it skipped. */
  function SkipDead<T>(input: seq<Octet>): (r: Res<T>)
    ensures r.Fail?
    ensures |input| >= 4 ==> r.err == RecordMarkedIgnore
    ensures |input| < 4 ==> r.err in {EOF, UnexpectedEOF} && r.rest == []
  {
    var (len, s) :- ReadFull(input, 4);
    var deadLen := BigEndian32(len);
    Fail(RecordMarkedIgnore, if deadLen >= 5 then Discard(s, deadLen - 5) else s)
  }

  /** The selector count, at most MaxSelectors, and that many selectors. */
  function ReadSelectorList<S(!new)>(input: seq<Octet>, dec: seq<Octet> -> Res<S>): (r: Res<seq<S>>)
    ensures r.Ok? ==> |r.value| <= MaxSelectors
  {
    var (count, s) :- ReadUvarint(input);
    if count > MaxSelectors then Fail(RecordInvalid, s)
    else ReadSelectors(s, count, dec)
  }

  /** The loop over the selectors: n reads of the codec, the first error ending it. */
  function ReadSelectors<S(!new)>(input: seq<Octet>, n: nat, dec: seq<Octet> -> Res<S>): (r: Res<seq<S>>)
    ensures r.Ok? ==> |r.value| == n
    decreases n
  {
    if n == 0 then Ok([], input)
    else
      var (sel, s) :- dec(input);
      var (sels, s') :- ReadSelectors(s, n - 1, dec);
      Ok([sel] + sels, s')
  }

  /** The work for the algorithm byte: Wharrgarbl reads workSize bytes, None
      reads nothing, any other algorithm is unsupported. */
  function ReadWork(input: seq<Octet>, walg: Octet, workSize: nat): (r: Res<seq<Octet>>)
    ensures r.Ok? <==> walg == AlgorithmNone || (walg == AlgorithmWharrgarbl && workSize <= |input|)
    ensures r.Ok? ==> r.value + r.rest == input
    ensures r.Ok? ==> |r.value| == if walg == AlgorithmWharrgarbl then workSize else 0
    ensures walg != AlgorithmNone && walg != AlgorithmWharrgarbl ==> r == Fail(RecordUnsupportedAlgorithm, input)
  {
    if walg == AlgorithmWharrgarbl then ReadFull(input, workSize)
    else if walg == AlgorithmNone then Ok([], input)
    else Fail(RecordUnsupportedAlgorithm, input)
  }

  /** The signature length, at most RecordMaxSize, and the signature. */
  function ReadSignature(input: seq<Octet>): (r: Res<seq<Octet>>)
    ensures r.Ok? ==> |r.value| <= RecordMaxSize && Suffix(r.rest, input)
  {
    var (l, s) :- ReadUvarint(input);
    if l > RecordMaxSize then Fail(RecordInvalid, s)
    else
      var (sig, s') :- ReadFull(s, l);
      SuffixAfter(sig, s', s, input);
      Ok(sig, s')
  }

  /** UnmarshalFrom. */
  function UnmarshalRecord<S(!new)>(input: seq<Octet>, dec: seq<Octet> -> Res<S>, workSize: nat): (r: Res<Record<S>>)
    ensures r.Ok? ==> WellFormed(r.value, workSize) && Canonical(r.value.body)
  {
    var (hdr, s0) :- ReadByte(input);
    if hdr == DeadHeader then SkipDead(s0)
    else if hdr != 0 then Fail(RecordInvalid, s0)
    else
      var (body, s1) :- UnmarshalBody(s0);
      var (sels, s2) :- ReadSelectorList(s1, dec);
      var (walg, s3) :- ReadByte(s2);
      var (work, s4) :- ReadWork(s3, walg, workSize);
      var (sig, s5) :- ReadSignature(s4);
      Ok(Record(body, sels, work, walg, sig), s5)
  }

  /** The records UnmarshalFrom can return: a known algorithm with a work of
      its size, and no count or length over its limit. */
  predicate WellFormed<S(!new)>(r: Record<S>, workSize: nat) {
    && |r.selectors| <= MaxSelectors
    && (r.workAlgorithm == AlgorithmNone || r.workAlgorithm == AlgorithmWharrgarbl)
    && |r.work| == (if r.workAlgorithm == AlgorithmWharrgarbl then workSize else 0)
    && |r.signature| <= RecordMaxSize
  }

  // ---------------------------------------------------------------------
  // Round trip

  /** The selectors read back one by one. */
  lemma {:induction false} SelectorsRoundTrip<S(!new)>(sels: seq<S>, enc: S -> seq<Octet>, dec: seq<Octet> -> Res<S>,
                                                 rest: seq<Octet>)
    requires CodecRoundTrip(enc, dec)
    ensures ReadSelectors(EncodeSelectors(sels, enc) + rest, |sels|, dec) == Ok(sels, rest)
    decreases |sels|
  {
    if |sels| > 0 {
      var tail := EncodeSelectors(sels[1..], enc) + rest;
      Assoc(enc(sels[0]), EncodeSelectors(sels[1..], enc), rest);
      assert dec(enc(sels[0]) + tail) == Ok(sels[0], tail);
      SelectorsRoundTrip(sels[1..], enc, dec, rest);
      assert [sels[0]] + sels[1..] == sels;
    }
  }

  lemma SelectorListRoundTrip<S(!new)>(sels: seq<S>, enc: S -> seq<Octet>, dec: seq<Octet> -> Res<S>,
                                 rest: seq<Octet>)
    requires CodecRoundTrip(enc, dec) && |sels| <= MaxSelectors
    ensures ReadSelectorList(MarshalSelectors(sels, enc) + rest, dec) == Ok(sels, rest)
  {
    var t := EncodeSelectors(sels, enc) + rest;
    Assoc(EncodeUvarint(|sels|), EncodeSelectors(sels, enc), rest);
    UvarintRoundTrip(|sels|, t);
    SelectorsRoundTrip(sels, enc, dec, rest);
  }

  lemma SignatureRoundTrip(sig: seq<Octet>, rest: seq<Octet>)
    requires |sig| <= RecordMaxSize
    ensures ReadSignature(MarshalSignature(sig) + rest) == Ok(sig, rest)
  {
    Assoc(EncodeUvarint(|sig|), sig, rest);
    UvarintRoundTrip(|sig|, sig + rest);
    ConcatSplit(sig, rest);
  }

  lemma WorkRoundTrip(walg: Octet, work: seq<Octet>, workSize: nat, rest: seq<Octet>)
    requires walg == AlgorithmNone || walg == AlgorithmWharrgarbl
    requires |work| == (if walg == AlgorithmWharrgarbl then workSize else 0)
    ensures ReadByte(MarshalWork(walg, work) + rest) == Ok(walg, work + rest)
    ensures ReadWork(work + rest, walg, workSize) == Ok(work, rest)
  {
    Assoc([walg], work, rest);
    ConcatSplit(work, rest);
  }

  /** UnmarshalFrom reads back what MarshalTo writes, with the body
      normalised as marshalTo normalises it, and leaves the input after the
      record untouched. The selector codec must round-trip, and the record must
      be one UnmarshalFrom can return: a known algorithm whose work has the
      size it reads (None has no work), and counts and lengths within limits. */
  lemma RecordDecodeEncode<S(!new)>(r: Record<S>, enc: S -> seq<Octet>, dec: seq<Octet> -> Res<S>,
                              workSize: nat, rest: seq<Octet>)
    requires CodecRoundTrip(enc, dec) && WellFormed(r, workSize)
    requires |r.body.maskedValue| <= RecordMaxSize && |r.body.owner| <= RecordMaxSize
    requires |r.body.links| <= RecordMaxSize
    ensures UnmarshalRecord(MarshalRecord(r, enc) + rest, dec, workSize)
         == Ok(r.(body := Normalize(r.body)), rest)
  {
    var sg := MarshalSignature(r.signature);
    var u4 := sg + rest;
    var w := MarshalWork(r.workAlgorithm, r.work);
    var u3 := r.work + u4;
    var u2 := w + u4;
    var sl := MarshalSelectors(r.selectors, enc);
    var u1 := sl + u2;
    var bd := MarshalBody(r.body);
    var u0 := bd + u1;
    RecordLayout(bd, sl, w, sg, rest);
    SignatureRoundTrip(r.signature, rest);
    WorkRoundTrip(r.workAlgorithm, r.work, workSize, u4);
    SelectorListRoundTrip(r.selectors, enc, dec, u2);
    BodyDecodeEncode(r.body, u1);
    RecordSteps([0] + u0, dec, workSize, Normalize(r.body), u1, r.selectors, u2,
                r.workAlgorithm, u3, r.work, u4, r.signature, rest);
  }

  /** The marshalled record with input after it, regrouped from the right. */
  lemma RecordLayout(bd: seq<Octet>, sl: seq<Octet>, w: seq<Octet>, sg: seq<Octet>, rest: seq<Octet>)
    ensures [0] + (bd + (sl + (w + sg))) + rest == [0] + (bd + (sl + (w + (sg + rest))))
  {
    Assoc(w, sg, rest);
    Assoc(sl, w + sg, rest);
    Assoc(bd, sl + (w + sg), rest);
    Assoc([0], bd + (sl + (w + sg)), rest);
  }

  /** Given each read's outcome, UnmarshalFrom returns the record they assemble. */
  lemma RecordSteps<S(!new)>(input: seq<Octet>, dec: seq<Octet> -> Res<S>, workSize: nat,
                       body: Body, s1: seq<Octet>, sels: seq<S>, s2: seq<Octet>,
                       walg: Octet, s3: seq<Octet>, work: seq<Octet>, s4: seq<Octet>,
                       sig: seq<Octet>, s5: seq<Octet>)
    requires |input| > 0 && input[0] == 0
    requires UnmarshalBody(input[1..]) == Ok(body, s1)
    requires ReadSelectorList(s1, dec) == Ok(sels, s2)
    requires ReadByte(s2) == Ok(walg, s3)
    requires ReadWork(s3, walg, workSize) == Ok(work, s4)
    requires ReadSignature(s4) == Ok(sig, s5)
    ensures UnmarshalRecord(input, dec, workSize) == Ok(Record(body, sels, work, walg, sig), s5)
  {
  }

  /** Round trip: a well-formed record with a canonical body reads back exactly. */
  lemma RecordRoundTrip<S(!new)>(r: Record<S>, enc: S -> seq<Octet>, dec: seq<Octet> -> Res<S>,
                           workSize: nat, rest: seq<Octet>)
    requires CodecRoundTrip(enc, dec) && WellFormed(r, workSize) && Canonical(r.body)
    ensures UnmarshalRecord(MarshalRecord(r, enc) + rest, dec, workSize) == Ok(r, rest)
  {
    RecordDecodeEncode(r, enc, dec, workSize, rest);
    NormalizeCanonical(r.body);
  }

  // ---------------------------------------------------------------------
  // Error cases

  /** An empty input reports io.EOF. */
  lemma RecordEmpty<S(!new)>(dec: seq<Octet> -> Res<S>, workSize: nat)
    ensures UnmarshalRecord([], dec, workSize) == Fail(EOF, [])
  {
  }

  /** A 0xff header and a 32-bit length: the record is reported as marked
      ignore, after skipping length - 5 more bytes (as many as there are)
      when the length is at least 5. */
  lemma DeadRecord<S(!new)>(len: seq<Octet>, rest: seq<Octet>, dec: seq<Octet> -> Res<S>, workSize: nat)
    requires |len| == 4
    ensures UnmarshalRecord([DeadHeader] + len + rest, dec, workSize)
         == Fail(RecordMarkedIgnore, if BigEndian32(len) >= 5 then Discard(rest, BigEndian32(len) - 5) else rest)
  {
    var input := [DeadHeader] + len + rest;
    assert input[1..] == len + rest;
    ConcatSplit(len, rest);
  }

  /** A dead record whose length covers its own 5 bytes and what follows is
      skipped exactly, leaving the next record. */
  lemma DeadRecordSkipped<S(!new)>(len: seq<Octet>, dead: seq<Octet>, next: seq<Octet>,
                             dec: seq<Octet> -> Res<S>, workSize: nat)
    requires |len| == 4 && BigEndian32(len) == 5 + |dead|
    ensures UnmarshalRecord([DeadHeader] + len + (dead + next), dec, workSize) == Fail(RecordMarkedIgnore, next)
  {
    DeadRecord(len, dead + next, dec, workSize);
    ConcatSplit(dead, next);
  }

  /** Any header other than 0 and 0xff is invalid. */
  lemma BadHeader<S(!new)>(hdr: Octet, rest: seq<Octet>, dec: seq<Octet> -> Res<S>, workSize: nat)
    requires hdr != 0 && hdr != DeadHeader
    ensures UnmarshalRecord([hdr] + rest, dec, workSize) == Fail(RecordInvalid, rest)
  {
    assert ([hdr] + rest)[1..] == rest;
  }

  /** More than MaxSelectors selectors is invalid. */
  lemma TooManySelectors<S(!new)>(b: Body, count: nat, rest: seq<Octet>, dec: seq<Octet> -> Res<S>, workSize: nat)
    requires Canonical(b) && MaxSelectors < count < U64
    ensures UnmarshalRecord([0] + MarshalBody(b) + EncodeUvarint(count) + rest, dec, workSize)
         == Fail(RecordInvalid, rest)
  {
    var u := EncodeUvarint(count) + rest;
    Assoc([0] + MarshalBody(b), EncodeUvarint(count), rest);
    Assoc([0], MarshalBody(b), u);
    assert ([0] + (MarshalBody(b) + u))[1..] == MarshalBody(b) + u;
    BodyRoundTrip(b, u);
    UvarintRoundTrip(count, rest);
    assert ReadSelectorList(u, dec) == Fail(RecordInvalid, rest);
    PrefixFail([0] + (MarshalBody(b) + u), dec, workSize, b, u, Fail(RecordInvalid, rest));
  }

  /** The body reads, then the selector list fails: the record fails with it. */
  lemma PrefixFail<S(!new)>(input: seq<Octet>, dec: seq<Octet> -> Res<S>, workSize: nat,
                      body: Body, s1: seq<Octet>, e: Res<seq<S>>)
    requires |input| > 0 && input[0] == 0
    requires UnmarshalBody(input[1..]) == Ok(body, s1)
    requires e.Fail? && ReadSelectorList(s1, dec) == e
    ensures UnmarshalRecord(input, dec, workSize) == Fail(e.err, e.rest)
  {
  }

  /** An algorithm other than None and Wharrgarbl is unsupported. */
  lemma UnsupportedAlgorithm<S(!new)>(b: Body, sels: seq<S>, walg: Octet, rest: seq<Octet>,
                                enc: S -> seq<Octet>, dec: seq<Octet> -> Res<S>, workSize: nat)
    requires Canonical(b) && CodecRoundTrip(enc, dec) && |sels| <= MaxSelectors
    requires walg != AlgorithmNone && walg != AlgorithmWharrgarbl
    ensures UnmarshalRecord([0] + (MarshalBody(b) + (MarshalSelectors(sels, enc) + ([walg] + rest))), dec, workSize)
         == Fail(RecordUnsupportedAlgorithm, rest)
  {
    var u2 := [walg] + rest;
    var u1 := MarshalSelectors(sels, enc) + u2;
    BodyRoundTrip(b, u1);
    SelectorListRoundTrip(sels, enc, dec, u2);
    assert u2[1..] == rest;
    WorkFail([0] + (MarshalBody(b) + u1), dec, workSize, b, u1, sels, u2, walg, rest);
  }

  /** The body, the selectors and the algorithm byte read, then the work fails. */
  lemma WorkFail<S(!new)>(input: seq<Octet>, dec: seq<Octet> -> Res<S>, workSize: nat,
                    body: Body, s1: seq<Octet>, sels: seq<S>, s2: seq<Octet>, walg: Octet, s3: seq<Octet>)
    requires |input| > 0 && input[0] == 0
    requires UnmarshalBody(input[1..]) == Ok(body, s1)
    requires ReadSelectorList(s1, dec) == Ok(sels, s2)
    requires ReadByte(s2) == Ok(walg, s3)
    requires ReadWork(s3, walg, workSize).Fail?
    ensures UnmarshalRecord(input, dec, workSize) == Fail(ReadWork(s3, walg, workSize).err, ReadWork(s3, walg, workSize).rest)
  {
  }

  /** A signature longer than RecordMaxSize is invalid. */
  lemma SignatureTooLong(l: nat, rest: seq<Octet>)
    requires RecordMaxSize < l < U64
    ensures ReadSignature(EncodeUvarint(l) + rest) == Fail(RecordInvalid, rest)
  {
    UvarintRoundTrip(l, rest);
  }

  /** Every part of a record up to the signature read, then the signature
      fails: the record fails with it. */
  lemma SignatureFail<S(!new)>(input: seq<Octet>, dec: seq<Octet> -> Res<S>, workSize: nat,
                         body: Body, s1: seq<Octet>, sels: seq<S>, s2: seq<Octet>,
                         walg: Octet, s3: seq<Octet>, work: seq<Octet>, s4: seq<Octet>)
    requires |input| > 0 && input[0] == 0
    requires UnmarshalBody(input[1..]) == Ok(body, s1)
    requires ReadSelectorList(s1, dec) == Ok(sels, s2)
    requires ReadByte(s2) == Ok(walg, s3)
    requires ReadWork(s3, walg, workSize) == Ok(work, s4)
    requires ReadSignature(s4).Fail?
    ensures UnmarshalRecord(input, dec, workSize) == Fail(ReadSignature(s4).err, ReadSignature(s4).rest)
  {
  }

  // ---------------------------------------------------------------------
  // Score (pkg/lf/record.go:414-422)

  /** Record.Score: 1 without work, the Wharrgarbl score of the work's
      difficulty for Wharrgarbl, 0 for any other algorithm. */
  function RecordScore<S(!new)>(r: Record<S>, difficulty: seq<Octet> -> u32): (score: u32)
    ensures score == 0 <==> r.workAlgorithm != AlgorithmNone && r.workAlgorithm != AlgorithmWharrgarbl
    ensures score <= WorkCost.MaxScore
  {
    if r.workAlgorithm == AlgorithmNone then 1
    else if r.workAlgorithm == AlgorithmWharrgarbl then WorkCost.Score(difficulty(r.work))
    else 0
  }

  /** Every record UnmarshalFrom returns has a nonzero score. */
  lemma DecodedScore<S(!new)>(input: seq<Octet>, dec: seq<Octet> -> Res<S>, workSize: nat,
                        difficulty: seq<Octet> -> u32)
    requires UnmarshalRecord(input, dec, workSize).Ok?
    ensures RecordScore(UnmarshalRecord(input, dec, workSize).value, difficulty) >= 1
  {
  }
}
