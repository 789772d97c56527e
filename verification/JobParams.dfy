/** The job strings sent to miners: the pre-PoW hash followed by the timestamp, in two encoders. */
module JobParams {
  import opened Powers
  import opened SeqFacts
  import opened Bytes

  const HASH_BYTES: nat := 32

  lemma WordWidth()
    ensures Pow(256, 8) == TWO64
  {
  }

  /** Four little-endian words, as far as the data reaches; the old header format. */
  method GenerateJobHeader(data: seq<Byte>) returns (ids: seq<nat>)
    ensures |ids| == if |data| / 8 < 4 then |data| / 8 else 4
    ensures LeWords(ids) == data[..8 * |ids|]
    ensures forall i :: 0 <= i < |ids| ==> ids[i] < TWO64
  {
    WordWidth();
    ids := [];
    for i := 0 to 4
      invariant |ids| == if |data| / 8 < i then |data| / 8 else i
      invariant LeWords(ids) == data[..8 * |ids|]
      invariant forall k :: 0 <= k < |ids| ==> ids[k] < TWO64
    {
      var offset := i * 8;
      if offset + 8 <= |data| {
        var bytes := data[offset..offset + 8];
        ToLeInvertsFromLe(bytes);
        LeWordsAppends(ids, FromLe(bytes));
        assert data[..8 * |ids|] + bytes == data[..8 * (|ids| + 1)];
        ids := ids + [FromLe(bytes)];
      }
    }
  }

  /** The bytes of 64-bit words, each written little-endian. */
  function LeWords(ids: seq<nat>): seq<Byte> {
    if ids == [] then [] else ToLe(ids[0], 8) + LeWords(ids[1..])
  }

  lemma {:induction false} LeWordsAppends(ids: seq<nat>, id: nat)
    ensures LeWords(ids + [id]) == LeWords(ids) + ToLe(id, 8)
  {
    if ids == [] {
    } else {
      LeWordsAppends(ids[1..], id);
      assert (ids + [id])[1..] == ids[1..] + [id];
    }
  }

  /** `generate_iceriver_job_params`: the hash in hex, then the little-endian timestamp in hex. */
  function IceRiverJobParams(hash: seq<Byte>, timestamp: nat): string {
    HexBytes(hash) + HexBytes(ToLe(timestamp, 8))
  }

  /** The hash and the timestamp a job string stands for. */
  function DecodeJobParams(s: string): Option<(seq<Byte>, nat)> {
    match UnhexBytes(s)
    case None => None
    case Some(bs) =>
      if |bs| != HASH_BYTES + 8 then None else Some((bs[..HASH_BYTES], FromLe(bs[HASH_BYTES..])))
  }

  /** A number whose bytes are swapped prints as the little-endian bytes of the number. */
  lemma SwappedWordPrintsLittleEndian(timestamp: nat)
    requires timestamp < TWO64
    ensures Hex(FromLe(ToBe(timestamp, 8)), 16) == HexBytes(ToLe(timestamp, 8))
  {
    var le := ToLe(timestamp, 8);
    ToBeIsReversed(timestamp, 8);
    FromBeIsReversed(le);
    HexOfBigEndian(le);
  }

  lemma HexBytesOfFour(a: seq<Byte>, b: seq<Byte>, c: seq<Byte>, d: seq<Byte>)
    ensures HexBytes(a) + HexBytes(b) + HexBytes(c) + HexBytes(d) == HexBytes(a + b + c + d)
  {
    hide HexBytes;
    HexBytesAppends(a, b);
    HexBytesAppends(a + b, c);
    HexBytesAppends(a + b + c, d);
  }

  /** Four big-endian words print as the 32 bytes they were read from. */
  lemma FourWordsPrintTheirBytes(data: seq<Byte>)
    requires |data| >= HASH_BYTES
    ensures Hex(FromBe(data[0..8]), 16) + Hex(FromBe(data[8..16]), 16)
            + Hex(FromBe(data[16..24]), 16) + Hex(FromBe(data[24..32]), 16) == HexBytes(data[..HASH_BYTES])
  {
    hide HexBytes, Hex, FromBe;
    var (a, b, c, d) := (data[0..8], data[8..16], data[16..24], data[24..32]);
    HexOfBigEndian(a);
    HexOfBigEndian(b);
    HexOfBigEndian(c);
    HexOfBigEndian(d);
    HexBytesOfFour(a, b, c, d);
    assert data[..16] == a + b;
    assert data[..24] == data[..16] + c;
    assert data[..HASH_BYTES] == data[..24] + d;
  }

  /**
   * `generate_large_job_params`: big-endian words and a byte-swapped timestamp, which is nevertheless
   * the IceRiver string.  `None` is the out-of-range panic on data shorter than a hash.
   */
  method GenerateLargeJobParams(data: seq<Byte>, timestamp: nat) returns (r: Option<string>)
    requires timestamp < TWO64
    ensures r == if |data| >= HASH_BYTES then Some(IceRiverJobParams(data[..HASH_BYTES], timestamp)) else None
  {
    var ids: seq<nat> := [];
    for i := 0 to 4
      invariant |ids| == if |data| / 8 < i then |data| / 8 else i
      invariant forall k :: 0 <= k < |ids| ==> ids[k] == FromBe(data[8 * k..8 * k + 8])
    {
      var offset := i * 8;
      if offset + 8 <= |data| {
        ids := ids + [FromBe(data[offset..offset + 8])];
      }
    }
    ids := ids + [FromLe(ToBe(timestamp, 8))];
    if |ids| <= 4 {
      return None;
    }
    FourWordsPrintTheirBytes(data);
    SwappedWordPrintsLittleEndian(timestamp);
    r := Some(Hex(ids[0], 16) + Hex(ids[1], 16) + Hex(ids[2], 16) + Hex(ids[3], 16) + Hex(ids[4], 16));
  }

  /**
   * The job string character by character: the bytes of the hash in order, then the bytes of the timestamp
   * from the lowest up, each as two digits with the high one first.
   */
  lemma JobParamsLayout(hash: seq<Byte>, timestamp: nat, i: nat)
    requires |hash| == HASH_BYTES && timestamp < TWO64 && i < 40
    ensures |IceRiverJobParams(hash, timestamp)| == 80
    ensures var b := if i < 32 then hash[i] else timestamp / Pow(256, i - 32) % 256;
            && IceRiverJobParams(hash, timestamp)[2 * i] == "0123456789abcdef"[b / 16]
            && IceRiverJobParams(hash, timestamp)[2 * i + 1] == "0123456789abcdef"[b % 16]
  {
    if i < 32 {
      HexBytesDigits(hash, i);
    } else {
      HexBytesDigits(ToLe(timestamp, 8), i - 32);
      LeDigit(timestamp, 8, i - 32);
    }
    hide HexBytes, ToLe, Pow;
  }

  /** A job string has 80 characters and decodes to the hash and the timestamp it was made from. */
  lemma JobParamsDecode(hash: seq<Byte>, timestamp: nat)
    requires |hash| == HASH_BYTES && timestamp < TWO64
    ensures |IceRiverJobParams(hash, timestamp)| == 80
    ensures DecodeJobParams(IceRiverJobParams(hash, timestamp)) == Some((hash, timestamp))
  {
    var bs := hash + ToLe(timestamp, 8);
    HexBytesAppends(hash, ToLe(timestamp, 8));
    UnhexInvertsHex(bs);
    WordWidth();
    FromLeInvertsToLe(timestamp, 8);
  }
}
