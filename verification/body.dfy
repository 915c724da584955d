/** recordBody of pkg/lf/record.go: the record's value, owner, certificate,
    links and timestamp, and its binary form
      flags byte (bit 0: a certificate follows)
      uvarint length, masked value
      uvarint length, owner
      32-byte certificate, when flagged
      uvarint link count, 32 bytes per link
      uvarint timestamp. */
module RecordBody {
  import opened Wire

  /** RecordMaxSize: the sanity limit on any length read from the wire. */
  const RecordMaxSize: nat := 65536

  /** The size of a certificate hash and of one link. */
  const HashSize: nat := 32

  datatype Body = Body(
    maskedValue: seq<Octet>,
    owner: seq<Octet>,
    certificate: seq<Octet>,
    links: seq<Octet>,
    timestamp: u64)

  /** LinkCount: the number of whole 32-byte links. */
  function LinkCount(b: Body): (n: nat)
    ensures n * HashSize <= |b.links| < (n + 1) * HashSize
  {
    |b.links| / HashSize
  }

  /** The bodies marshalTo writes unchanged: a certificate is absent or one
      hash, links are whole hashes, and no length exceeds RecordMaxSize. */
  predicate Canonical(b: Body) {
    && (|b.certificate| == 0 || |b.certificate| == HashSize)
    && |b.links| % HashSize == 0
    && |b.maskedValue| <= RecordMaxSize
    && |b.owner| <= RecordMaxSize
    && |b.links| <= RecordMaxSize
  }

  /** What marshalTo keeps of a body: a certificate only when it is exactly
      one hash, and only the whole links. */
  function Normalize(b: Body): (n: Body)
    ensures n.maskedValue == b.maskedValue && n.owner == b.owner && n.timestamp == b.timestamp
    ensures |n.certificate| == HashSize ==> n.certificate == b.certificate
    ensures |n.certificate| == 0 <==> |b.certificate| != HashSize
    ensures n.links <= b.links && |n.links| == LinkCount(b) * HashSize
  {
    var k := LinkCount(b) * HashSize;
    Body(b.maskedValue, b.owner,
         if |b.certificate| == HashSize then b.certificate else [],
         b.links[..k], b.timestamp)
  }

  // ---------------------------------------------------------------------
  // marshalTo (pkg/lf/record.go:130-176)

  /** The flags byte, the two length-prefixed byte strings and the certificate. */
  function MarshalHead(b: Body): (r: seq<Octet>)
    ensures |r| > 0 && (r[0] == 1 <==> |b.certificate| == HashSize) && r[0] <= 1
  {
    [if |b.certificate| == HashSize then 1 else 0]
    + EncodeUvarint(|b.maskedValue|) + b.maskedValue
    + EncodeUvarint(|b.owner|) + b.owner
    + (if |b.certificate| == HashSize then b.certificate else [])
  }

  /** The link count and the whole links; fewer than 32 bytes is written as a
      single zero byte, the encoding of count 0. */
  function MarshalLinks(links: seq<Octet>): (r: seq<Octet>)
    ensures |links| < HashSize ==> r == EncodeUvarint(0)
  {
    if |links| >= HashSize then
      var count := |links| / HashSize;
      EncodeUvarint(count) + links[..count * HashSize]
    else [0]
  }

  function MarshalBody(b: Body): (r: seq<Octet>)
    ensures |r| >= 4 && (r[0] == 1 <==> |b.certificate| == HashSize) && r[0] <= 1
  {
    MarshalHead(b) + MarshalLinks(b.links) + EncodeUvarint(b.timestamp)
  }

  // ---------------------------------------------------------------------
  // unmarshalFrom (pkg/lf/record.go:57-128)

  /** A uvarint length and that many bytes; a length above RecordMaxSize is
      invalid and a zero length reads nothing. */
  function ReadBlob(input: seq<Octet>): (r: Res<seq<Octet>>)
    ensures r.Ok? ==> |r.value| <= RecordMaxSize && Suffix(r.rest, input)
  {
    var (l, s) :- ReadUvarint(input);
    if l > 0 then
      if l > RecordMaxSize then Fail(RecordInvalid, s)
      else
        var (v, s') :- ReadFull(s, l);
        SuffixAfter(v, s', s, input);
        Ok(v, s')
    else Ok([], s)
  }

  /** The link count, multiplied by 32 in uint64 (wrapping), checked against
      RecordMaxSize, then that many bytes; a read that runs out is not
      reported here (its error is overwritten by the next read), the missing
      bytes stay zero and the input is used up. */
  function ReadLinks(input: seq<Octet>): (r: Res<seq<Octet>>)
    ensures r.Ok? ==> |r.value| <= RecordMaxSize && |r.value| % HashSize == 0 && Suffix(r.rest, input)
  {
    var (l, s) :- ReadUvarint(input);
    if l > 0 then
      var n := (l * HashSize) % U64;
      if n > RecordMaxSize then Fail(RecordInvalid, s)
      else
        var p := ReadFullIgnoringError(s, n);
        LinksWhole(l, n);
        SuffixOf(p.0, p.1, s, input);
        Ok(p.0, p.1)
    else Ok([], s)
  }

  lemma LinksWhole(l: nat, n: nat)
    requires n == (l * HashSize) % U64
    ensures n % HashSize == 0
  {
    var q := (l * HashSize) / U64;
    assert l * HashSize == q * U64 + n;
    assert n == HashSize * (l - q * (U64 / HashSize));
  }

  lemma SuffixAfter(v: seq<Octet>, rest: seq<Octet>, s: seq<Octet>, input: seq<Octet>)
    requires v + rest == s && Suffix(s, input)
    ensures Suffix(rest, input)
  {
    assert Suffix(rest, s) by {
      assert s[|s| - |rest|..] == rest;
    }
    SuffixTrans(rest, s, input);
  }

  lemma SuffixOf(v: seq<Octet>, rest: seq<Octet>, s: seq<Octet>, input: seq<Octet>)
    requires (v + rest == s || rest == []) && Suffix(s, input)
    ensures Suffix(rest, input)
  {
    if v + rest == s {
      SuffixAfter(v, rest, s, input);
    }
  }

  /** unmarshalFrom. The error of the flags ReadByte is dropped, so an empty
      input reads flags 0 and fails at the next read. */
  function UnmarshalBody(input: seq<Octet>): (r: Res<Body>)
    ensures r.Ok? ==> Canonical(r.value) && Suffix(r.rest, input)
  {
    var flags := if |input| > 0 then input[0] else 0;
    var s0 := if |input| > 0 then input[1..] else input;
    var (mv, s1) :- ReadBlob(s0);
    var (owner, s2) :- ReadBlob(s1);
    var (cert, s3) :- if flags % 2 == 1 then ReadFull(s2, HashSize) else Ok([], s2);
    var (links, s4) :- ReadLinks(s3);
    var (ts, s5) :- ReadUvarint(s4);
    BodySuffix(input, s0, s1, s2, s3, s4, s5, cert);
    Ok(Body(mv, owner, cert, links, ts), s5)
  }

  lemma BodySuffix(input: seq<Octet>, s0: seq<Octet>, s1: seq<Octet>, s2: seq<Octet>,
                   s3: seq<Octet>, s4: seq<Octet>, s5: seq<Octet>, cert: seq<Octet>)
    requires s0 == (if |input| > 0 then input[1..] else input)
    requires Suffix(s1, s0) && Suffix(s2, s1) && Suffix(s4, s3) && Suffix(s5, s4)
    requires s3 == s2 || cert + s3 == s2
    ensures Suffix(s5, input)
  {
    assert Suffix(s0, input);
    SuffixTrans(s2, s1, s0);
    SuffixTrans(s2, s0, input);
    if s3 != s2 {
      SuffixAfter(cert, s3, s2, input);
    }
    SuffixTrans(s5, s4, s3);
    SuffixTrans(s5, s3, input);
  }

  // ---------------------------------------------------------------------
  // Round trip and normalisation

  /** A length-prefixed byte string within the limit reads back as written. */
  lemma ReadBlobEncode(v: seq<Octet>, rest: seq<Octet>)
    requires |v| <= RecordMaxSize
    ensures ReadBlob(EncodeUvarint(|v|) + v + rest) == Ok(v, rest)
  {
    Assoc(EncodeUvarint(|v|), v, rest);
    UvarintRoundTrip(|v|, v + rest);
    ConcatSplit(v, rest);
  }

  lemma ConcatSplit(v: seq<Octet>, rest: seq<Octet>)
    ensures (v + rest)[..|v|] == v && (v + rest)[|v|..] == rest
  {
  }

  /** A length above RecordMaxSize is rejected before any byte of the string is read. */
  lemma ReadBlobTooLong(l: nat, rest: seq<Octet>)
    requires RecordMaxSize < l < U64
    ensures ReadBlob(EncodeUvarint(l) + rest) == Fail(RecordInvalid, rest)
  {
    UvarintRoundTrip(l, rest);
  }

  /** The links marshalTo writes read back as the whole links. */
  lemma ReadLinksEncode(links: seq<Octet>, rest: seq<Octet>)
    requires |links| <= RecordMaxSize
    ensures ReadLinks(MarshalLinks(links) + rest) == Ok(links[..(|links| / HashSize) * HashSize], rest)
  {
    var count := |links| / HashSize;
    var k := count * HashSize;
    if |links| >= HashSize {
      var w := links[..k];
      assert MarshalLinks(links) + rest == EncodeUvarint(count) + (w + rest);
      UvarintRoundTrip(count, w + rest);
      assert (count * HashSize) % U64 == k;
      assert (w + rest)[..k] == w && (w + rest)[k..] == rest;
    } else {
      assert MarshalLinks(links) + rest == EncodeUvarint(0) + rest;
      UvarintRoundTrip(0, rest);
    }
  }

  /** unmarshalFrom reads back what marshalTo writes, normalised: a
      certificate that is not one hash is dropped and a trailing partial link
      is lost; the input after the body is left untouched. */
  lemma BodyDecodeEncode(b: Body, rest: seq<Octet>)
    requires |b.maskedValue| <= RecordMaxSize && |b.owner| <= RecordMaxSize && |b.links| <= RecordMaxSize
    ensures UnmarshalBody(MarshalBody(b) + rest) == Ok(Normalize(b), rest)
  {
    var u := EncodeUvarint(b.timestamp) + rest;
    var t := MarshalLinks(b.links) + u;
    HeadDecodeEncode(b, t);
    ReadLinksEncode(b.links, u);
    UvarintRoundTrip(b.timestamp, rest);
    Assoc(MarshalHead(b) + MarshalLinks(b.links), EncodeUvarint(b.timestamp), rest);
    Assoc(MarshalHead(b), MarshalLinks(b.links), u);
    var n := Normalize(b);
    UnmarshalSteps(MarshalHead(b) + t, n.maskedValue, n.owner, n.certificate, t, n.links, u, n.timestamp, rest);
  }

  /** The head marshalTo writes reads back as the value, the owner and the certificate kept. */
  lemma HeadDecodeEncode(b: Body, t: seq<Octet>)
    requires |b.maskedValue| <= RecordMaxSize && |b.owner| <= RecordMaxSize
    ensures HeadSteps(MarshalHead(b) + t, b.maskedValue, b.owner,
                      if |b.certificate| == HashSize then b.certificate else [], t)
  {
    var cert := if |b.certificate| == HashSize then b.certificate else [];
    var c := cert + t;
    var o := EncodeUvarint(|b.owner|) + b.owner + c;
    var m := EncodeUvarint(|b.maskedValue|) + b.maskedValue + o;
    var flag: Octet := if |b.certificate| == HashSize then 1 else 0;
    HeadLayout(b, t, flag, cert, c, o, m);
    var input := MarshalHead(b) + t;
    assert input[0] == flag && input[1..] == m;
    ReadBlobEncode(b.maskedValue, o);
    ReadBlobEncode(b.owner, c);
    assert (if flag % 2 == 1 then ReadFull(c, HashSize) else Ok([], c)) == Ok(cert, t) by {
      if flag == 1 {
        assert c[..HashSize] == cert && c[HashSize..] == t;
      }
    }
  }

  lemma HeadLayout(b: Body, t: seq<Octet>, flag: Octet, cert: seq<Octet>, c: seq<Octet>, o: seq<Octet>, m: seq<Octet>)
    requires flag == (if |b.certificate| == HashSize then 1 else 0)
    requires cert == (if |b.certificate| == HashSize then b.certificate else [])
    requires c == cert + t
    requires o == EncodeUvarint(|b.owner|) + b.owner + c
    requires m == EncodeUvarint(|b.maskedValue|) + b.maskedValue + o
    ensures MarshalHead(b) + t == [flag] + m
  {
  }

  /** The reads of unmarshalFrom up to the links, one by one. */
  predicate HeadSteps(input: seq<Octet>, mv: seq<Octet>, owner: seq<Octet>, cert: seq<Octet>, t: seq<Octet>) {
    && |input| > 0
    && var flags := input[0];
    && ReadBlob(input[1..]).Ok? && ReadBlob(input[1..]).value == mv
    && var o := ReadBlob(input[1..]).rest;
    && ReadBlob(o) .Ok? && ReadBlob(o).value == owner
    && var c := ReadBlob(o).rest;
    && (if flags % 2 == 1 then ReadFull(c, HashSize) else Ok([], c)) == Ok(cert, t)
  }

  /** Given each read's outcome, unmarshalFrom returns the body they assemble. */
  lemma UnmarshalSteps(input: seq<Octet>, mv: seq<Octet>, owner: seq<Octet>, cert: seq<Octet>,
                       t: seq<Octet>, links: seq<Octet>, u: seq<Octet>, ts: u64, rest: seq<Octet>)
    requires HeadSteps(input, mv, owner, cert, t)
    requires ReadLinks(t) == Ok(links, u)
    requires ReadUvarint(u) == Ok(ts, rest)
    ensures UnmarshalBody(input) == Ok(Body(mv, owner, cert, links, ts), rest)
  {
  }

  /** marshalTo writes a body and its normalisation identically. */
  lemma MarshalNormalizes(b: Body)
    ensures MarshalBody(Normalize(b)) == MarshalBody(b)
  {
    var n := Normalize(b);
    assert MarshalHead(n) == MarshalHead(b);
    var k := LinkCount(b) * HashSize;
    if |b.links| >= HashSize {
      assert |n.links| / HashSize == LinkCount(b);
      assert n.links[..k] == b.links[..k];
    }
  }

  /** Canonical bodies are their own normalisation; normalising is idempotent. */
  lemma NormalizeCanonical(b: Body)
    ensures Canonical(b) ==> Normalize(b) == b
    ensures Normalize(Normalize(b)) == Normalize(b)
  {
    if Canonical(b) {
      assert b.links[..|b.links|] == b.links;
    }
    var n := Normalize(b);
    assert n.links[..|n.links|] == n.links;
  }

  /** Round trip: a canonical body reads back exactly. */
  lemma BodyRoundTrip(b: Body, rest: seq<Octet>)
    requires Canonical(b)
    ensures UnmarshalBody(MarshalBody(b) + rest) == Ok(b, rest)
  {
    BodyDecodeEncode(b, rest);
    NormalizeCanonical(b);
  }

  // ---------------------------------------------------------------------
  // Error cases

  /** The flags read fails silently; the first length read reports io.EOF. */
  lemma BodyEmpty()
    ensures UnmarshalBody([]) == Fail(EOF, [])
  {
  }

  /** A masked value longer than RecordMaxSize is invalid. */
  lemma ValueTooLong(flags: Octet, l: nat, rest: seq<Octet>)
    requires RecordMaxSize < l < U64
    ensures UnmarshalBody([flags] + EncodeUvarint(l) + rest) == Fail(RecordInvalid, rest)
  {
    Assoc([flags], EncodeUvarint(l), rest);
    ReadBlobTooLong(l, rest);
  }

  /** An owner longer than RecordMaxSize is invalid. */
  lemma OwnerTooLong(flags: Octet, value: seq<Octet>, l: nat, rest: seq<Octet>)
    requires |value| <= RecordMaxSize && RecordMaxSize < l < U64
    ensures UnmarshalBody([flags] + EncodeUvarint(|value|) + value + EncodeUvarint(l) + rest)
         == Fail(RecordInvalid, rest)
  {
    var o := EncodeUvarint(l) + rest;
    assert ([flags] + EncodeUvarint(|value|) + value + EncodeUvarint(l) + rest)[1..]
        == EncodeUvarint(|value|) + value + o;
    ReadBlobEncode(value, o);
    ReadBlobTooLong(l, rest);
  }

  /** A nonzero link count is rejected exactly when count * 32, wrapped to
      64 bits, exceeds RecordMaxSize. */
  lemma LinkCountLimit(n: nat, rest: seq<Octet>)
    requires 0 < n < U64
    ensures ReadLinks(EncodeUvarint(n) + rest).Fail? <==> (n * HashSize) % U64 > RecordMaxSize
    ensures (n * HashSize) % U64 > RecordMaxSize ==> ReadLinks(EncodeUvarint(n) + rest) == Fail(RecordInvalid, rest)
  {
    UvarintRoundTrip(n, rest);
  }

  /** Because of the wrap, the count 2^59 passes the limit check and reads as no links at all. */
  lemma LinkCountWraps(rest: seq<Octet>)
    ensures ReadLinks(EncodeUvarint(0x800_0000_0000_0000) + rest) == Ok([], rest)
  {
    UvarintRoundTrip(0x800_0000_0000_0000, rest);
    assert 0x800_0000_0000_0000 * HashSize == U64;
  }

  /** In a whole body: after the value, the owner and the certificate, a link
      count whose wrapped byte count exceeds RecordMaxSize is invalid. */
  lemma LinksTooMany(b: Body, n: nat, rest: seq<Octet>)
    requires |b.maskedValue| <= RecordMaxSize && |b.owner| <= RecordMaxSize
    requires 0 < n < U64 && (n * HashSize) % U64 > RecordMaxSize
    ensures UnmarshalBody(MarshalHead(b) + EncodeUvarint(n) + rest) == Fail(RecordInvalid, rest)
  {
    var t := EncodeUvarint(n) + rest;
    HeadDecodeEncode(b, t);
    LinkCountLimit(n, rest);
    Assoc(MarshalHead(b), EncodeUvarint(n), rest);
    var cert := if |b.certificate| == HashSize then b.certificate else [];
    LinksFail(MarshalHead(b) + t, b.maskedValue, b.owner, cert, t);
  }

  /** In a whole body: the count 2^59 wraps to zero bytes, so the body is
      accepted with no links and the timestamp is read right after the count. */
  lemma LinksWrapToNone(b: Body, ts: u64, rest: seq<Octet>)
    requires |b.maskedValue| <= RecordMaxSize && |b.owner| <= RecordMaxSize
    ensures UnmarshalBody(MarshalHead(b) + EncodeUvarint(0x800_0000_0000_0000) + EncodeUvarint(ts) + rest)
         == Ok(Body(b.maskedValue, b.owner, if |b.certificate| == HashSize then b.certificate else [], [], ts), rest)
  {
    var u := EncodeUvarint(ts) + rest;
    var t := EncodeUvarint(0x800_0000_0000_0000) + u;
    HeadDecodeEncode(b, t);
    LinkCountWraps(u);
    UvarintRoundTrip(ts, rest);
    Assoc(MarshalHead(b), EncodeUvarint(0x800_0000_0000_0000), u);
    Assoc(MarshalHead(b) + EncodeUvarint(0x800_0000_0000_0000), EncodeUvarint(ts), rest);
    var cert := if |b.certificate| == HashSize then b.certificate else [];
    UnmarshalSteps(MarshalHead(b) + t, b.maskedValue, b.owner, cert, t, [], u, ts, rest);
  }

  /** Given the reads up to the links, a failed links read is the body's error. */
  lemma LinksFail(input: seq<Octet>, mv: seq<Octet>, owner: seq<Octet>, cert: seq<Octet>, t: seq<Octet>)
    requires HeadSteps(input, mv, owner, cert, t)
    requires ReadLinks(t).Fail?
    ensures UnmarshalBody(input) == Fail(ReadLinks(t).err, ReadLinks(t).rest)
  {
  }

  /** Links that run past the end of the input are not reported as such: the
      timestamp read that follows finds nothing and reports io.EOF. */
  lemma LinksCutShort(b: Body, n: nat, s: seq<Octet>)
    requires |b.maskedValue| <= RecordMaxSize && |b.owner| <= RecordMaxSize
    requires 0 < n && n * HashSize <= RecordMaxSize && |s| < n * HashSize
    ensures UnmarshalBody(MarshalHead(b) + EncodeUvarint(n) + s) == Fail(EOF, [])
  {
    var t := EncodeUvarint(n) + s;
    HeadDecodeEncode(b, t);
    UvarintRoundTrip(n, s);
    NoWrap(n * HashSize);
    var links := ReadFullIgnoringError(s, n * HashSize).0;
    assert ReadLinks(t) == Ok(links, []);
    Assoc(MarshalHead(b), EncodeUvarint(n), s);
    var cert := if |b.certificate| == HashSize then b.certificate else [];
    TimestampMissing(MarshalHead(b) + t, b.maskedValue, b.owner, cert, t, links);
  }

  lemma NoWrap(x: int)
    requires 0 <= x < U64
    ensures x % U64 == x
  {
  }

  /** Given the reads up to the links, an input that ends there fails with io.EOF. */
  lemma TimestampMissing(input: seq<Octet>, mv: seq<Octet>, owner: seq<Octet>, cert: seq<Octet>,
                         t: seq<Octet>, links: seq<Octet>)
    requires HeadSteps(input, mv, owner, cert, t)
    requires ReadLinks(t) == Ok(links, [])
    ensures UnmarshalBody(input) == Fail(EOF, [])
  {
  }
}
