/**
 * The pre-PoW preimage of a block header: the byte stream `serialize_block_header` feeds to the
 * block hasher.  The stream is modelled, the hash function is not.
 */
module Preimage {
  import opened Powers
  import opened Bytes

  /** Bytes of the blue-work integer in its fixed-width big-endian form. */
  const BLUE_WORK_BYTES: nat := 24

  type Hash = h: seq<Byte> | |h| == 32 witness seq(32, i => 0)
  type U16 = n: nat | n < 0x1_0000
  type U32 = n: nat | n < 0x1_0000_0000
  type U64 = n: nat | n < TWO64

  datatype Header = Header(
    version: U16,
    parents: seq<seq<Hash>>,
    hashMerkleRoot: Hash,
    acceptedIdMerkleRoot: Hash,
    utxoCommitment: Hash,
    timestamp: U64,
    bits: U32,
    nonce: U64,
    daaScore: U64,
    blueScore: U64,
    blueWork: nat,
    pruningPoint: Hash)

  /** What the source's types guarantee: lengths fit 64 bits and blue work fits its fixed width. */
  ghost predicate Representable(h: Header) {
    && |h.parents| < TWO64
    && (forall i :: 0 <= i < |h.parents| ==> |h.parents[i]| < TWO64)
    && h.blueWork < Pow(256, BLUE_WORK_BYTES)
  }

  // ---------------------------------------------------------------------------------------
  // The stream
  // ---------------------------------------------------------------------------------------

  function StripZeros(bs: seq<Byte>): (r: seq<Byte>)
    ensures |r| <= |bs|
  {
    if bs == [] || bs[0] != 0 then bs else StripZeros(bs[1..])
  }

  function EncodeHashes(level: seq<Hash>): seq<Byte> {
    if level == [] then [] else level[0] + EncodeHashes(level[1..])
  }

  function EncodeLevels(levels: seq<seq<Hash>>): seq<Byte> {
    if levels == [] then []
    else ToLe(|levels[0]|, 8) + (EncodeHashes(levels[0]) + EncodeLevels(levels[1..]))
  }

  function EncodeBlueWork(n: nat): seq<Byte> {
    var stripped := StripZeros(ToBe(n, BLUE_WORK_BYTES));
    ToLe(|stripped|, 8) + stripped
  }

  /** Timestamp and nonce are written as zero. */
  function EncodeNumbers(h: Header): seq<Byte> {
    ToLe(0, 8) + (ToLe(h.bits, 4) + (ToLe(0, 8) + (ToLe(h.daaScore, 8) + (ToLe(h.blueScore, 8)
      + (EncodeBlueWork(h.blueWork) + h.pruningPoint)))))
  }

  function EncodeFields(h: Header): seq<Byte> {
    h.hashMerkleRoot + (h.acceptedIdMerkleRoot + (h.utxoCommitment + EncodeNumbers(h)))
  }

  function Encode(h: Header): seq<Byte> {
    ToLe(h.version, 2) + (ToLe(|h.parents|, 8) + (EncodeLevels(h.parents) + EncodeFields(h)))
  }

  /** The hasher, as the stream of bytes it has been given. */
  class BlockHasher {
    var stream: seq<Byte>

    constructor ()
      ensures stream == []
    {
      stream := [];
    }

    method Update(bs: seq<Byte>)
      modifies this
      ensures stream == old(stream) + bs
    {
      stream := stream + bs;
    }
  }

  lemma Regroup(a: seq<Byte>, b: seq<Byte>, c: seq<Byte>)
    ensures a + (b + c) == (a + b) + c
  {
  }

  /** Moving the next piece of a message from what is left to what is sent. */
  lemma Sent(sent: seq<Byte>, piece: seq<Byte>, left: seq<Byte>, whole: seq<Byte>)
    requires sent + (piece + left) == whole
    ensures (sent + piece) + left == whole
  {
    Regroup(sent, piece, left);
  }

  method FirstNonZero(bs: seq<Byte>) returns (start: nat)
    ensures start <= |bs| && bs[start..] == StripZeros(bs)
    ensures (forall i :: 0 <= i < start ==> bs[i] == 0) && (start < |bs| ==> bs[start] != 0)
  {
    start := 0;
    while start < |bs| && bs[start] == 0
      invariant start <= |bs| && StripZeros(bs[start..]) == StripZeros(bs)
      invariant forall i :: 0 <= i < start ==> bs[i] == 0
    {
      start := start + 1;
    }
  }

  method SerializeBlockHeader(h: Header) returns (hasher: BlockHasher)
    ensures fresh(hasher) && hasher.stream == Encode(h)
  {
    hasher := new BlockHasher();
    ghost var whole := Encode(h);
    ghost var left := EncodeFields(h);
    Sent(hasher.stream, ToLe(h.version, 2), ToLe(|h.parents|, 8) + (EncodeLevels(h.parents) + left), whole);
    hasher.Update(ToLe(h.version, 2));
    Sent(hasher.stream, ToLe(|h.parents|, 8), EncodeLevels(h.parents) + left, whole);
    hasher.Update(ToLe(|h.parents|, 8));
    SendParents(hasher, h, left);
    SendFields(hasher, h, whole);
  }

  method SendParents(hasher: BlockHasher, h: Header, ghost left: seq<Byte>)
    modifies hasher
    ensures hasher.stream + left == old(hasher.stream) + (EncodeLevels(h.parents) + left)
  {
    ghost var whole := hasher.stream + (EncodeLevels(h.parents) + left);
    for i := 0 to |h.parents|
      invariant hasher.stream + (EncodeLevels(h.parents[i..]) + left) == whole
    {
      var level := h.parents[i];
      ghost var next := EncodeLevels(h.parents[i + 1..]) + left;
      assert h.parents[i..][1..] == h.parents[i + 1..];
      Sent(hasher.stream, ToLe(|level|, 8), EncodeHashes(level) + next, whole);
      hasher.Update(ToLe(|level|, 8));
      for j := 0 to |level|
        invariant hasher.stream + (EncodeHashes(level[j..]) + next) == whole
      {
        Regroup(level[j], EncodeHashes(level[j + 1..]), next);
        Sent(hasher.stream, level[j], EncodeHashes(level[j + 1..]) + next, whole);
        hasher.Update(level[j]);
      }
      assert EncodeHashes(level[|level|..]) + next == next;
    }
    assert EncodeLevels(h.parents[|h.parents|..]) + left == left;
  }

  /** Everything after the UTXO commitment that comes before the blue work. */
  function EncodeScalars(h: Header): seq<Byte> {
    (((ToLe(0, 8) + ToLe(h.bits, 4)) + ToLe(0, 8)) + ToLe(h.daaScore, 8)) + ToLe(h.blueScore, 8)
  }

  lemma RegroupFields(h: Header)
    ensures EncodeNumbers(h) == EncodeScalars(h) + (EncodeBlueWork(h.blueWork) + h.pruningPoint)
    ensures EncodeFields(h)
            == ((h.hashMerkleRoot + h.acceptedIdMerkleRoot) + h.utxoCommitment) + EncodeNumbers(h)
  {
  }

  method SendFields(hasher: BlockHasher, h: Header, ghost whole: seq<Byte>)
    requires hasher.stream + EncodeFields(h) == whole
    modifies hasher
    ensures hasher.stream == whole
  {
    RegroupFields(h);
    ghost var sent := hasher.stream;
    hasher.Update(h.hashMerkleRoot);
    hasher.Update(h.acceptedIdMerkleRoot);
    hasher.Update(h.utxoCommitment);
    ghost var roots := (h.hashMerkleRoot + h.acceptedIdMerkleRoot) + h.utxoCommitment;
    assert hasher.stream == sent + roots;
    Sent(sent, roots, EncodeNumbers(h), whole);
    SendNumbers(hasher, h, whole);
  }

  method SendNumbers(hasher: BlockHasher, h: Header, ghost whole: seq<Byte>)
    requires hasher.stream + EncodeNumbers(h) == whole
    modifies hasher
    ensures hasher.stream == whole
  {
    hide ToLe, ToBe, StripZeros, EncodeFields;
    RegroupFields(h);
    ghost var sent := hasher.stream;
    hasher.Update(ToLe(0, 8));
    hasher.Update(ToLe(h.bits, 4));
    hasher.Update(ToLe(0, 8));
    hasher.Update(ToLe(h.daaScore, 8));
    hasher.Update(ToLe(h.blueScore, 8));
    Sent(sent, EncodeScalars(h), EncodeBlueWork(h.blueWork) + h.pruningPoint, whole);
    sent := hasher.stream;
    var beBytes := ToBe(h.blueWork, BLUE_WORK_BYTES);
    var start := FirstNonZero(beBytes);
    var blueWorkBytes := beBytes[start..];
    hasher.Update(ToLe(|blueWorkBytes|, 8));
    hasher.Update(blueWorkBytes);
    Sent(sent, EncodeBlueWork(h.blueWork), h.pruningPoint, whole);
    hasher.Update(h.pruningPoint);
  }

  // ---------------------------------------------------------------------------------------
  // Reading the stream back
  // ---------------------------------------------------------------------------------------

  /** A value and the bytes after it. */
  datatype Parsed<+T> = Malformed | Parsed(value: T, rest: seq<Byte>) {
    predicate IsFailure() {
      Malformed?
    }

    function PropagateFailure<U>(): Parsed<U>
      requires Malformed?
    {
      Malformed
    }

    function Extract(): (T, seq<Byte>)
      requires Parsed?
    {
      (value, rest)
    }
  }

  function ParseLe(bs: seq<Byte>, k: nat): (p: Parsed<nat>)
    ensures p.Parsed? ==> p.value < Pow(256, k)
  {
    if |bs| < k then Malformed else Parsed(FromLe(bs[..k]), bs[k..])
  }

  function ParseHash(bs: seq<Byte>): Parsed<Hash> {
    if |bs| < 32 then Malformed else Parsed(bs[..32], bs[32..])
  }

  function ParseHashes(bs: seq<Byte>, count: nat): Parsed<seq<Hash>>
    decreases count
  {
    if count == 0 then Parsed([], bs)
    else
      var (first, r1) :- ParseHash(bs);
      var (others, r2) :- ParseHashes(r1, count - 1);
      Parsed([first] + others, r2)
  }

  function ParseLevels(bs: seq<Byte>, count: nat): Parsed<seq<seq<Hash>>>
    decreases count
  {
    if count == 0 then Parsed([], bs)
    else
      var (length, r1) :- ParseLe(bs, 8);
      var (first, r2) :- ParseHashes(r1, length);
      var (others, r3) :- ParseLevels(r2, count - 1);
      Parsed([first] + others, r3)
  }

  /** A zero that must be there. */
  function ParseZero(bs: seq<Byte>): Parsed<()> {
    var (n, rest) :- ParseLe(bs, 8);
    if n == 0 then Parsed((), rest) else Malformed
  }

  /** A length-prefixed big-endian integer without leading zeros, within the fixed width. */
  function ParseBlueWork(bs: seq<Byte>): Parsed<nat> {
    var (length, r1) :- ParseLe(bs, 8);
    if length > BLUE_WORK_BYTES || |r1| < length || (length > 0 && r1[0] == 0) then Malformed
    else Parsed(FromBe(r1[..length]), r1[length..])
  }

  /** The inverse of `Encode`: timestamp and nonce come back as zero. */
  function ParseHeader(bs: seq<Byte>): Parsed<Header> {
    var (version, r1) :- ParseLe(bs, 2);
    var (levels, r2) :- ParseLe(r1, 8);
    var (parents, r3) :- ParseLevels(r2, levels);
    Widths();
    ParseFields(version, parents, r3)
  }

  /** The fields after the parents, read on their own. */
  function ParseFields(version: U16, parents: seq<seq<Hash>>, bs: seq<Byte>): Parsed<Header> {
    var (merkle, r4) :- ParseHash(bs);
    var (accepted, r5) :- ParseHash(r4);
    var (utxo, r6) :- ParseHash(r5);
    ParseNumbers(Header(version, parents, merkle, accepted, utxo, 0, 0, 0, 0, 0, 0, merkle), r6)
  }

  /** The numbers and the pruning point, filled into `h`. */
  function ParseNumbers(h: Header, bs: seq<Byte>): Parsed<Header> {
    var (_, r7) :- ParseZero(bs);
    var (bits, r8) :- ParseLe(r7, 4);
    var (_, r9) :- ParseZero(r8);
    var (daa, r10) :- ParseLe(r9, 8);
    var (blue, r11) :- ParseLe(r10, 8);
    var (work, r12) :- ParseBlueWork(r11);
    var (pruning, r13) :- ParseHash(r12);
    Widths();
    Parsed(h.(bits := bits, daaScore := daa, blueScore := blue, blueWork := work, pruningPoint := pruning), r13)
  }

  lemma Widths()
    ensures Pow(256, 2) == 0x1_0000 && Pow(256, 4) == 0x1_0000_0000 && Pow(256, 8) == TWO64
  {
  }

  // Each reader undoes its writer, whatever follows, and accepts nothing else.

  lemma ReadLe(n: nat, k: nat, rest: seq<Byte>)
    requires n < Pow(256, k)
    ensures ParseLe(ToLe(n, k) + rest, k) == Parsed(n, rest)
  {
    FromLeInvertsToLe(n, k);
  }

  lemma LeWasWritten(bs: seq<Byte>, k: nat)
    requires ParseLe(bs, k).Parsed?
    ensures bs == ToLe(ParseLe(bs, k).value, k) + ParseLe(bs, k).rest
  {
    ToLeInvertsFromLe(bs[..k]);
  }

  lemma ReadHash(h: Hash, rest: seq<Byte>)
    ensures ParseHash(h + rest) == Parsed(h, rest)
  {
  }

  lemma HashWasWritten(bs: seq<Byte>)
    requires ParseHash(bs).Parsed?
    ensures bs == ParseHash(bs).value + ParseHash(bs).rest
  {
  }

  lemma {:induction false} ReadHashes(level: seq<Hash>, rest: seq<Byte>)
    ensures ParseHashes(EncodeHashes(level) + rest, |level|) == Parsed(level, rest)
  {
    if level == [] {
    } else {
      var tail := EncodeHashes(level[1..]) + rest;
      Regroup(level[0], EncodeHashes(level[1..]), rest);
      ReadHash(level[0], tail);
      ReadHashes(level[1..], rest);
      assert [level[0]] + level[1..] == level;
    }
  }

  lemma {:induction false} HashesWereWritten(bs: seq<Byte>, count: nat)
    requires ParseHashes(bs, count).Parsed?
    ensures var p := ParseHashes(bs, count);
            |p.value| == count && bs == EncodeHashes(p.value) + p.rest
    decreases count
  {
    if count > 0 {
      HashWasWritten(bs);
      var first, r1 := ParseHash(bs).value, ParseHash(bs).rest;
      HashesWereWritten(r1, count - 1);
      var p := ParseHashes(r1, count - 1);
      Regroup(first, EncodeHashes(p.value), p.rest);
    }
  }

  lemma {:induction false} ReadLevels(levels: seq<seq<Hash>>, rest: seq<Byte>)
    requires forall i :: 0 <= i < |levels| ==> |levels[i]| < TWO64
    ensures ParseLevels(EncodeLevels(levels) + rest, |levels|) == Parsed(levels, rest)
  {
    if levels == [] {
    } else {
      Widths();
      var first, tail := levels[0], EncodeLevels(levels[1..]) + rest;
      Regroup(ToLe(|first|, 8), EncodeHashes(first) + EncodeLevels(levels[1..]), rest);
      Regroup(EncodeHashes(first), EncodeLevels(levels[1..]), rest);
      ReadLe(|first|, 8, EncodeHashes(first) + tail);
      ReadHashes(first, tail);
      ReadLevels(levels[1..], rest);
      assert [first] + levels[1..] == levels;
    }
  }

  lemma {:induction false} LevelsWereWritten(bs: seq<Byte>, count: nat)
    requires ParseLevels(bs, count).Parsed?
    ensures var p := ParseLevels(bs, count);
            && |p.value| == count && bs == EncodeLevels(p.value) + p.rest
            && forall i :: 0 <= i < count ==> |p.value[i]| < TWO64
    decreases count
  {
    if count > 0 {
      Widths();
      LeWasWritten(bs, 8);
      var l := ParseLe(bs, 8);
      HashesWereWritten(l.rest, l.value);
      var h := ParseHashes(l.rest, l.value);
      LevelsWereWritten(h.rest, count - 1);
      var p := ParseLevels(h.rest, count - 1);
      Regroup(EncodeHashes(h.value), EncodeLevels(p.value), p.rest);
      Regroup(ToLe(l.value, 8), EncodeHashes(h.value) + EncodeLevels(p.value), p.rest);
    }
  }

  lemma {:induction false} StripKeepsNumber(bs: seq<Byte>)
    ensures FromBe(StripZeros(bs)) == FromBe(bs)
    ensures StripZeros(bs) != [] ==> StripZeros(bs)[0] != 0
  {
    if bs != [] && bs[0] == 0 {
      StripKeepsNumber(bs[1..]);
      LeadingZero(bs[1..]);
      assert bs == [0] + bs[1..];
    }
  }

  /** One byte more of width is one zero more in front. */
  lemma {:induction false} WidthAddsZero(n: nat, k: nat)
    requires n < Pow(256, k)
    ensures ToBe(n, k + 1) == [0] + ToBe(n, k)
  {
    if k == 0 {
    } else {
      WidthAddsZero(n / 256, k - 1);
    }
  }

  lemma {:induction false} StripUndoesPadding(bs: seq<Byte>, extra: nat)
    requires bs == [] || bs[0] != 0
    ensures StripZeros(ToBe(FromBe(bs), |bs| + extra)) == bs
    ensures FromBe(bs) < Pow(256, |bs| + extra)
  {
    if extra == 0 {
      ToBeInvertsFromBe(bs);
    } else {
      StripUndoesPadding(bs, extra - 1);
      WidthAddsZero(FromBe(bs), |bs| + extra - 1);
    }
  }

  lemma ReadBlueWork(n: nat, rest: seq<Byte>)
    requires n < Pow(256, BLUE_WORK_BYTES)
    ensures ParseBlueWork(EncodeBlueWork(n) + rest) == Parsed(n, rest)
  {
    hide ToBe, ToLe, FromBe, FromLe, StripZeros, Pow;
    var be := ToBe(n, BLUE_WORK_BYTES);
    var stripped := StripZeros(be);
    FromBeInvertsToBe(n, BLUE_WORK_BYTES);
    StripKeepsNumber(be);
    SmallFits(|stripped|);
    Regroup(ToLe(|stripped|, 8), stripped, rest);
    ReadLe(|stripped|, 8, stripped + rest);
  }

  lemma SmallFits(n: nat)
    requires n <= 0xff
    ensures n < Pow(256, 8)
  {
    Widths();
  }

  lemma BlueWorkWasWritten(bs: seq<Byte>)
    requires ParseBlueWork(bs).Parsed?
    ensures var p := ParseBlueWork(bs);
            bs == EncodeBlueWork(p.value) + p.rest && p.value < Pow(256, BLUE_WORK_BYTES)
  {
    hide ToBe, ToLe, FromBe, FromLe, StripZeros, Pow;
    LeWasWritten(bs, 8);
    var l := ParseLe(bs, 8);
    var digits := l.rest[..l.value];
    StripUndoesPadding(digits, BLUE_WORK_BYTES - l.value);
    Regroup(ToLe(l.value, 8), digits, l.rest[l.value..]);
  }

  function HashedPart(h: Header): Header {
    h.(timestamp := 0, nonce := 0)
  }

  lemma ReadZero(rest: seq<Byte>)
    ensures ParseZero(ToLe(0, 8) + rest) == Parsed((), rest)
  {
    SmallFits(0);
    ReadLe(0, 8, rest);
  }

  lemma ZeroWasWritten(bs: seq<Byte>)
    requires ParseZero(bs).Parsed?
    ensures bs == ToLe(0, 8) + ParseZero(bs).rest
  {
    LeWasWritten(bs, 8);
  }

  lemma ReadNumbers(h: Header, into: Header, rest: seq<Byte>)
    requires h.blueWork < Pow(256, BLUE_WORK_BYTES)
    ensures ParseNumbers(into, EncodeNumbers(h) + rest)
            == Parsed(into.(bits := h.bits, daaScore := h.daaScore, blueScore := h.blueScore,
                            blueWork := h.blueWork, pruningPoint := h.pruningPoint), rest)
  {
    hide ToLe, Pow, EncodeBlueWork, ParseBlueWork, ParseLe, ParseHash, ParseZero;
    var t12 := h.pruningPoint + rest;
    var t11 := EncodeBlueWork(h.blueWork) + t12;
    var t10 := ToLe(h.blueScore, 8) + t11;
    var t9 := ToLe(h.daaScore, 8) + t10;
    var t8 := ToLe(0, 8) + t9;
    var t7 := ToLe(h.bits, 4) + t8;
    assert EncodeNumbers(h) + rest == ToLe(0, 8) + t7;
    Widths();
    ReadZero(t7);
    ReadLe(h.bits, 4, t8);
    ReadZero(t9);
    ReadLe(h.daaScore, 8, t10);
    ReadLe(h.blueScore, 8, t11);
    ReadBlueWork(h.blueWork, t12);
    ReadHash(h.pruningPoint, rest);
  }

  /**
   * The stream is uniquely decodable: whatever follows it, the reader gets back every field of
   * every header, except that timestamp and nonce come back as zero.
   */
  lemma ParseInvertsEncode(h: Header, rest: seq<Byte>)
    requires Representable(h)
    ensures ParseHeader(Encode(h) + rest) == Parsed(HashedPart(h), rest)
  {
    hide ToLe, Pow, EncodeNumbers, EncodeLevels, ParseNumbers, ParseLevels, ParseLe, ParseHash;
    var t6 := EncodeNumbers(h) + rest;
    var t5 := h.utxoCommitment + t6;
    var t4 := h.acceptedIdMerkleRoot + t5;
    var t3 := h.hashMerkleRoot + t4;
    var t2 := EncodeLevels(h.parents) + t3;
    var t1 := ToLe(|h.parents|, 8) + t2;
    assert Encode(h) + rest == ToLe(h.version, 2) + t1;
    Widths();
    ReadLe(h.version, 2, t1);
    ReadLe(|h.parents|, 8, t2);
    ReadLevels(h.parents, t3);
    ReadHash(h.hashMerkleRoot, t4);
    ReadHash(h.acceptedIdMerkleRoot, t5);
    ReadHash(h.utxoCommitment, t6);
    ReadNumbers(h, Header(h.version, h.parents, h.hashMerkleRoot, h.acceptedIdMerkleRoot, h.utxoCommitment,
                          0, 0, 0, 0, 0, 0, h.hashMerkleRoot), rest);
  }

  lemma NumbersWereWritten(into: Header, bs: seq<Byte>)
    requires ParseNumbers(into, bs).Parsed?
    ensures var p := ParseNumbers(into, bs);
            && bs == EncodeNumbers(p.value) + p.rest && p.value.blueWork < Pow(256, BLUE_WORK_BYTES)
            && p.value == into.(bits := p.value.bits, daaScore := p.value.daaScore, blueScore := p.value.blueScore,
                                blueWork := p.value.blueWork, pruningPoint := p.value.pruningPoint)
  {
    hide ToLe, Pow, EncodeBlueWork, ParseBlueWork, ParseLe, ParseHash, ParseZero;
    var z1 := ParseZero(bs);
    ZeroWasWritten(bs);
    var bits := ParseLe(z1.rest, 4);
    LeWasWritten(z1.rest, 4);
    var z2 := ParseZero(bits.rest);
    ZeroWasWritten(bits.rest);
    var daa := ParseLe(z2.rest, 8);
    LeWasWritten(z2.rest, 8);
    var blue := ParseLe(daa.rest, 8);
    LeWasWritten(daa.rest, 8);
    var work := ParseBlueWork(blue.rest);
    BlueWorkWasWritten(blue.rest);
    HashWasWritten(work.rest);
  }

  /** The reader accepts nothing but streams the serializer produces, so the encoding is canonical. */
  lemma ParsedMeansEncoded(bs: seq<Byte>)
    requires ParseHeader(bs).Parsed?
    ensures var p := ParseHeader(bs);
            bs == Encode(p.value) + p.rest && Representable(p.value) && p.value == HashedPart(p.value)
  {
    hide ToLe, Pow, EncodeNumbers, EncodeLevels, ParseNumbers, ParseLevels, ParseLe, ParseHash;
    Widths();
    var version := ParseLe(bs, 2);
    LeWasWritten(bs, 2);
    var count := ParseLe(version.rest, 8);
    LeWasWritten(version.rest, 8);
    var levels := ParseLevels(count.rest, count.value);
    LevelsWereWritten(count.rest, count.value);
    var merkle := ParseHash(levels.rest);
    HashWasWritten(levels.rest);
    var accepted := ParseHash(merkle.rest);
    HashWasWritten(merkle.rest);
    var utxo := ParseHash(accepted.rest);
    HashWasWritten(accepted.rest);
    NumbersWereWritten(Header(version.value, levels.value, merkle.value, accepted.value, utxo.value,
                              0, 0, 0, 0, 0, 0, merkle.value), utxo.rest);
  }

  /**
   * Two headers are hashed alike if and only if they agree on every field except timestamp and
   * nonce; and no header's stream is a proper prefix of another's.
   */
  lemma SameStreamIffSameHashedPart(g: Header, h: Header, tail: seq<Byte>)
    requires Representable(g) && Representable(h)
    ensures Encode(g) == Encode(h) <==> HashedPart(g) == HashedPart(h)
    ensures Encode(g) + tail == Encode(h) ==> tail == []
  {
    ParseInvertsEncode(g, []);
    ParseInvertsEncode(h, []);
    ParseInvertsEncode(g, tail);
    assert Encode(g) + [] == Encode(g) && Encode(h) + [] == Encode(h);
  }

  // Which bytes of the stream are what.

  lemma Cut(whole: seq<Byte>, at: nat, piece: seq<Byte>, rest: seq<Byte>)
    requires at <= |whole| && whole[at..] == piece + rest
    ensures at + |piece| <= |whole|
    ensures whole[at..at + |piece|] == piece && whole[at + |piece|..] == rest
  {
    var end := at + |piece|;
    assert whole[at..end] == whole[at..][..|piece|];
    assert whole[end..] == whole[at..][|piece|..];
  }

  /** Eight zero bytes. */
  const ZEROS: seq<Byte> := [0, 0, 0, 0, 0, 0, 0, 0]

  /** Where level `i` of the parents starts, counted from the start of the first. */
  function LevelOffset(levels: seq<seq<Hash>>, i: nat): nat
    requires i <= |levels|
  {
    if i == 0 then 0 else 8 + 32 * |levels[0]| + LevelOffset(levels[1..], i - 1)
  }

  lemma {:induction false} HashesLayout(level: seq<Hash>, j: nat)
    requires j < |level|
    ensures |EncodeHashes(level)| == 32 * |level|
    ensures EncodeHashes(level)[32 * j..32 * j + 32] == level[j]
  {
    HashesLength(level);
    if j > 0 {
      HashesLayout(level[1..], j - 1);
      assert EncodeHashes(level)[32 * j..32 * j + 32] == EncodeHashes(level[1..])[32 * (j - 1)..32 * (j - 1) + 32];
    }
  }

  lemma {:induction false} HashesLength(level: seq<Hash>)
    ensures |EncodeHashes(level)| == 32 * |level|
  {
    if level != [] { HashesLength(level[1..]); }
  }

  /** A level is its number of parents and then their hashes, in order; the levels follow each other. */
  lemma {:induction false} LevelLayout(levels: seq<seq<Hash>>, i: nat)
    requires i < |levels|
    ensures LevelOffset(levels, i) <= |EncodeLevels(levels)|
    ensures EncodeLevels(levels)[LevelOffset(levels, i)..]
            == ToLe(|levels[i]|, 8) + (EncodeHashes(levels[i]) + EncodeLevels(levels[i + 1..]))
  {
    if i == 0 {
    } else {
      LevelLayout(levels[1..], i - 1);
      LevelLayoutNext(levels, i);
    }
  }

  lemma LevelLayoutNext(levels: seq<seq<Hash>>, i: nat)
    requires 0 < i < |levels|
    requires LevelOffset(levels[1..], i - 1) <= |EncodeLevels(levels[1..])|
    requires EncodeLevels(levels[1..])[LevelOffset(levels[1..], i - 1)..]
             == ToLe(|levels[i]|, 8) + (EncodeHashes(levels[i]) + EncodeLevels(levels[1..][i..]))
    ensures LevelOffset(levels, i) <= |EncodeLevels(levels)|
    ensures EncodeLevels(levels)[LevelOffset(levels, i)..]
            == ToLe(|levels[i]|, 8) + (EncodeHashes(levels[i]) + EncodeLevels(levels[i + 1..]))
  {
    FirstLevel(levels);
    OffsetNext(levels, i);
    hide ToLe, EncodeHashes, LevelOffset, EncodeLevels;
    var (head, k) := (ToLe(|levels[0]|, 8) + EncodeHashes(levels[0]), LevelOffset(levels[1..], i - 1));
    assert EncodeLevels(levels)[|head| + k..] == EncodeLevels(levels[1..])[k..];
    assert levels[1..][i..] == levels[i + 1..];
  }

  lemma FirstLevel(levels: seq<seq<Hash>>)
    requires levels != []
    ensures EncodeLevels(levels) == (ToLe(|levels[0]|, 8) + EncodeHashes(levels[0])) + EncodeLevels(levels[1..])
    ensures |EncodeHashes(levels[0])| == 32 * |levels[0]|
  {
    HashesLength(levels[0]);
    Regroup(ToLe(|levels[0]|, 8), EncodeHashes(levels[0]), EncodeLevels(levels[1..]));
  }

  lemma {:induction false} LevelsLength(levels: seq<seq<Hash>>)
    ensures LevelOffset(levels, |levels|) == |EncodeLevels(levels)|
  {
    if levels != [] {
      FirstLevel(levels);
      LevelsLength(levels[1..]);
    }
  }

  lemma OffsetNext(levels: seq<seq<Hash>>, i: nat)
    requires 0 < i <= |levels|
    ensures LevelOffset(levels, i) == 8 + 32 * |levels[0]| + LevelOffset(levels[1..], i - 1)
  {
  }

  /** Level `i` of the parents starts at `10 + LevelOffset(i)` with its length; then come its hashes, 32 bytes each. */
  lemma ParentsLayout(h: Header, i: nat, j: nat)
    requires i < |h.parents| && j < |h.parents[i]|
    ensures var at := 10 + LevelOffset(h.parents, i);
            && at + 8 + 32 * j + 32 <= |Encode(h)|
            && Encode(h)[at..at + 8] == ToLe(|h.parents[i]|, 8)
            && Encode(h)[at + 8 + 32 * j..at + 8 + 32 * j + 32] == h.parents[i][j]
  {
    hide ToLe, EncodeHashes, LevelOffset, EncodeFields, EncodeLevels;
    var (levels, level) := (h.parents, h.parents[i]);
    var k := LevelOffset(levels, i);
    LevelLayout(levels, i);
    HashesLayout(level, j);
    var head := ToLe(h.version, 2) + ToLe(|h.parents|, 8);
    assert Encode(h) == head + (EncodeLevels(levels) + EncodeFields(h));
    var after := EncodeLevels(levels[i + 1..]) + EncodeFields(h);
    assert Encode(h)[10 + k..] == EncodeLevels(levels)[k..] + EncodeFields(h);
    assert Encode(h)[10 + k..] == ToLe(|level|, 8) + (EncodeHashes(level) + after);
    Cut(Encode(h), 10 + k, ToLe(|level|, 8), EncodeHashes(level) + after);
    Cut(Encode(h), 18 + k, EncodeHashes(level), after);
    assert Encode(h)[18 + k + 32 * j..18 + k + 32 * j + 32]
        == Encode(h)[18 + k..18 + k + 32 * |level|][32 * j..32 * j + 32];
  }

  /**
   * The fields, at their places: `p` is where the parents end, and `m` the number of bytes of blue work.
   */
  lemma FieldsLayout(h: Header) returns (p: nat, m: nat)
    requires h.blueWork < Pow(256, BLUE_WORK_BYTES)
    ensures p == 10 + LevelOffset(h.parents, |h.parents|) && |Encode(h)| == p + 172 + m
    ensures Encode(h)[..2] == ToLe(h.version, 2) && Encode(h)[2..10] == ToLe(|h.parents|, 8)
    ensures Encode(h)[p..p + 32] == h.hashMerkleRoot
    ensures Encode(h)[p + 32..p + 64] == h.acceptedIdMerkleRoot
    ensures Encode(h)[p + 64..p + 96] == h.utxoCommitment
    ensures Encode(h)[p + 96..p + 104] == ZEROS && Encode(h)[p + 104..p + 108] == ToLe(h.bits, 4)
    ensures Encode(h)[p + 108..p + 116] == ZEROS && Encode(h)[p + 116..p + 124] == ToLe(h.daaScore, 8)
    ensures Encode(h)[p + 124..p + 132] == ToLe(h.blueScore, 8)
    ensures Encode(h)[p + 132..p + 140] == ToLe(m, 8)
    ensures FromBe(Encode(h)[p + 140..p + 140 + m]) == h.blueWork
    ensures m > 0 ==> Encode(h)[p + 140] != 0
    ensures Encode(h)[p + 140 + m..] == h.pruningPoint
  {
    hide ToLe, Encode, EncodeLevels, EncodeNumbers, LevelOffset, FromBe, Pow;
    LevelsLength(h.parents);
    p := 10 + |EncodeLevels(h.parents)|;
    RootsLayout(h, p);
    m := NumbersLayout(h, Encode(h), p + 96);
  }

  lemma RootsLayout(h: Header, p: nat)
    requires p == 10 + |EncodeLevels(h.parents)|
    ensures |Encode(h)| >= p + 96
    ensures Encode(h)[..2] == ToLe(h.version, 2) && Encode(h)[2..10] == ToLe(|h.parents|, 8)
    ensures Encode(h)[p..p + 32] == h.hashMerkleRoot
    ensures Encode(h)[p + 32..p + 64] == h.acceptedIdMerkleRoot
    ensures Encode(h)[p + 64..p + 96] == h.utxoCommitment
    ensures Encode(h)[p + 96..] == EncodeNumbers(h)
  {
    hide ToLe, EncodeLevels, EncodeNumbers;
    var (e, t5) := (Encode(h), h.utxoCommitment + EncodeNumbers(h));
    var t3 := h.hashMerkleRoot + (h.acceptedIdMerkleRoot + t5);
    assert e[0..] == ToLe(h.version, 2) + (ToLe(|h.parents|, 8) + (EncodeLevels(h.parents) + t3));
    Cut(e, 0, ToLe(h.version, 2), ToLe(|h.parents|, 8) + (EncodeLevels(h.parents) + t3));
    Cut(e, 2, ToLe(|h.parents|, 8), EncodeLevels(h.parents) + t3);
    Cut(e, 10, EncodeLevels(h.parents), t3);
    Cut(e, p, h.hashMerkleRoot, h.acceptedIdMerkleRoot + t5);
    Cut(e, p + 32, h.acceptedIdMerkleRoot, t5);
    Cut(e, p + 64, h.utxoCommitment, EncodeNumbers(h));
  }

  lemma NumbersLayout(h: Header, e: seq<Byte>, q: nat) returns (m: nat)
    requires h.blueWork < Pow(256, BLUE_WORK_BYTES) && q <= |e| && e[q..] == EncodeNumbers(h)
    ensures |e| == q + 76 + m
    ensures e[q..q + 8] == ZEROS && e[q + 8..q + 12] == ToLe(h.bits, 4)
    ensures e[q + 12..q + 20] == ZEROS && e[q + 20..q + 28] == ToLe(h.daaScore, 8)
    ensures e[q + 28..q + 36] == ToLe(h.blueScore, 8)
    ensures e[q + 36..q + 44] == ToLe(m, 8)
    ensures FromBe(e[q + 44..q + 44 + m]) == h.blueWork && (m > 0 ==> e[q + 44] != 0)
    ensures e[q + 44 + m..] == h.pruningPoint
  {
    ZeroBytes();
    var t11 := EncodeBlueWork(h.blueWork) + h.pruningPoint;
    hide ToLe, EncodeBlueWork, Pow;
    var t9 := ToLe(h.daaScore, 8) + (ToLe(h.blueScore, 8) + t11);
    var t7 := ToLe(h.bits, 4) + (ToLe(0, 8) + t9);
    Cut(e, q, ToLe(0, 8), t7);
    Cut(e, q + 8, ToLe(h.bits, 4), ToLe(0, 8) + t9);
    Cut(e, q + 12, ToLe(0, 8), t9);
    Cut(e, q + 20, ToLe(h.daaScore, 8), ToLe(h.blueScore, 8) + t11);
    Cut(e, q + 28, ToLe(h.blueScore, 8), t11);
    m := WorkLayout(h, e, q + 36);
  }

  lemma WorkLayout(h: Header, e: seq<Byte>, at: nat) returns (m: nat)
    requires h.blueWork < Pow(256, BLUE_WORK_BYTES)
    requires at <= |e| && e[at..] == EncodeBlueWork(h.blueWork) + h.pruningPoint
    ensures |e| == at + 40 + m
    ensures e[at..at + 8] == ToLe(m, 8)
    ensures FromBe(e[at + 8..at + 8 + m]) == h.blueWork && (m > 0 ==> e[at + 8] != 0)
    ensures e[at + 8 + m..] == h.pruningPoint
  {
    hide ToLe, ToBe, FromBe, StripZeros, Pow;
    var work := StripZeros(ToBe(h.blueWork, BLUE_WORK_BYTES));
    FromBeInvertsToBe(h.blueWork, BLUE_WORK_BYTES);
    StripKeepsNumber(ToBe(h.blueWork, BLUE_WORK_BYTES));
    m := |work|;
    Regroup(ToLe(m, 8), work, h.pruningPoint);
    Cut(e, at, ToLe(m, 8), work + h.pruningPoint);
    Cut(e, at + 8, work, h.pruningPoint);
    if m > 0 { assert e[at + 8] == e[at + 8..at + 8 + m][0]; }
  }

  lemma ZeroBytes()
    ensures ToLe(0, 8) == ZEROS
  {
  }
}
