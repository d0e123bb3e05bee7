/**
 * Self-describing digests (multihash) and the IPFS identifier of a byte
 * string: base58(<hash function code><digest size><digest>), with SHA-256
 * (code 0x12) as the hash.
 */
module Multihash {
  import opened Wrappers
  import opened Digits
  import opened Bytes
  import Varint
  import Base58

  /** The multicodec code of sha2-256. */
  const Sha2_256: nat := 0x12

  /** The size in bytes of a SHA-256 digest. */
  const Sha256DigestSize: nat := 32

  /** The output of SHA-256. */
  type Digest = s: seq<byte> | |s| == Sha256DigestSize witness seq(32, _ => 0)

  /** SHA-256 itself is not modelled: any function with 32-byte outputs stands for it. */
  type HashFunction = seq<byte> -> Digest

  /** A digest together with the code of the function that produced it. */
  datatype Multihash = Multihash(code: nat, digest: seq<byte>)

  /** code and digest length as unsigned varints, then the digest. */
  function Serialize(m: Multihash): seq<byte> {
    Varint.Encode(m.code) + Varint.Encode(|m.digest|) + m.digest
  }

  /** The inverse of Serialize: None unless the size field matches the bytes that follow it. */
  function Parse(b: seq<byte>): Option<Multihash> {
    match Varint.Read(b)
    case None => None
    case Some((code, k1)) =>
      match Varint.Read(b[k1..])
      case None => None
      case Some((size, k2)) =>
        if |b| - k1 - k2 == size then Some(Multihash(code, b[k1 + k2..])) else None
  }

  lemma ParseSerialize(m: Multihash)
    ensures Parse(Serialize(m)) == Some(m)
  {
    var c, z := Varint.Encode(m.code), Varint.Encode(|m.digest|);
    var b := Serialize(m);
    assert b == c + (z + m.digest);
    Varint.ReadEncode(m.code, z + m.digest);
    assert b[|c|..] == z + m.digest;
    Varint.ReadEncode(|m.digest|, m.digest);
    assert b[|c| + |z|..] == m.digest;
  }

  /**
   * The hash-function code and the digest size, each as one big-endian byte,
   * then the digest: 34 bytes, code 18 first, then the size 32, which is the
   * length of the digest that follows.
   */
  function Frame(digest: Digest): (b: seq<byte>)
    ensures |b| == 34 && b[0] == 18 && b[1] == 32
    ensures b[1] as nat == |b[2..]| && b[2..] == digest
  {
    [Sha2_256 as byte, Sha256DigestSize as byte] + digest
  }

  /** The one-byte fields are the varints of the multihash format, because 18 and 32 are below 128. */
  lemma FrameIsMultihash(digest: Digest)
    ensures Frame(digest) == Serialize(Multihash(Sha2_256, digest))
    ensures Parse(Frame(digest)) == Some(Multihash(Sha2_256, digest))
  {
    ParseSerialize(Multihash(Sha2_256, digest));
  }

  /** `create_ipfs_multihash`: the Base58 text (as ASCII bytes) of the framed SHA-256 digest. */
  function CreateIpfsMultihash(sha256: HashFunction, content: seq<byte>): (id: seq<byte>)
    ensures forall i :: 0 <= i < |id| ==> Base58.IsSymbol(id[i])
  {
    Base58.Encode(Frame(sha256(content)))
  }

  /** Reads a multihash back from its Base58 text. */
  function DecodeText(t: seq<byte>): Option<Multihash> {
    match Base58.Decode(t)
    case None => None
    case Some(b) => Parse(b)
  }

  /** The identifier decodes to the 34 framed bytes and so to the SHA-256 multihash of the content. */
  lemma CreateIpfsMultihashDecodes(sha256: HashFunction, content: seq<byte>)
    ensures Base58.Decode(CreateIpfsMultihash(sha256, content)) == Some(Frame(sha256(content)))
    ensures DecodeText(CreateIpfsMultihash(sha256, content)) == Some(Multihash(Sha2_256, sha256(content)))
  {
    Base58.DecodeEncode(Frame(sha256(content)));
    FrameIsMultihash(sha256(content));
  }

  /** Two contents get the same identifier exactly when their digests agree. */
  lemma SameIdentifierIffSameDigest(sha256: HashFunction, a: seq<byte>, b: seq<byte>)
    ensures CreateIpfsMultihash(sha256, a) == CreateIpfsMultihash(sha256, b) <==> sha256(a) == sha256(b)
  {
    if CreateIpfsMultihash(sha256, a) == CreateIpfsMultihash(sha256, b) {
      CreateIpfsMultihashDecodes(sha256, a);
      CreateIpfsMultihashDecodes(sha256, b);
    }
  }

  lemma Pow256To32()
    ensures Pow(256, 32) == 115792089237316195423570985008687907853269984665640564039457584007913129639936
  {
    PowAdd(256, 1, 1);
    PowAdd(256, 2, 2);
    PowAdd(256, 4, 4);
    assert Pow(256, 8) == 18446744073709551616;
    PowAdd(256, 8, 8);
    PowAdd(256, 16, 16);
  }

  lemma Pow58To44()
    ensures Pow(58, 44) == 389790918707373377135528568990913592653094657612049369038476873218241589149696
  {
    PowAdd(58, 1, 1);
    PowAdd(58, 2, 2);
    PowAdd(58, 4, 4);
    assert Pow(58, 8) == 128063081718016;
    PowAdd(58, 8, 8);
    PowAdd(58, 16, 16);
    PowAdd(58, 32, 8);
    PowAdd(58, 40, 4);
  }

  /** The framed bytes, read as one number, lie between 0x1220 * 256^32 and 0x1221 * 256^32. */
  lemma FrameValue(digest: Digest)
    ensures 4640 * Pow(256, 32) <= FromBigEndian(Frame(digest)) < 4641 * Pow(256, 32)
  {
    var head: seq<byte> := [18, 32];
    assert Frame(digest) == head + digest;
    FromBigEndianAppend(head, digest);
    assert Naturals(head) == [18, 32];
    assert [18, 32][..1] == [18];
    assert FromDigits([18], 256) == 18;
    assert FromBigEndian(head) == 4640;
    FromBigEndianBelow(digest);
  }

  /** That number has 46 base-58 digits, the first two being 23 and 44. */
  lemma FrameDigits(digest: Digest)
    ensures var ds := ToDigits(FromBigEndian(Frame(digest)), 58);
      |ds| == 46 && ds[0] == 23 && ds[1] == 44
  {
    var n := FromBigEndian(Frame(digest));
    FrameValue(digest);
    Pow256To32();
    Pow58To44();
    assert Pow(58, 45) == 58 * Pow(58, 44);
    assert Pow(58, 46) == 58 * Pow(58, 45);
    assert 1378 * Pow(58, 44) <= n < 1379 * Pow(58, 44);
    ToDigitsLength(n, 58, 46);
    ToDigitsDrop(n, 58, 44);
    assert n / Pow(58, 44) == 1378;
    assert ToDigits(23, 58) == [23];
    assert ToDigits(1378, 58) == [23, 44];
  }

  /** Every identifier is 46 Base58 symbols and starts with "Qm", whatever the digest. */
  lemma CreateIpfsMultihashShape(sha256: HashFunction, content: seq<byte>)
    ensures var t := CreateIpfsMultihash(sha256, content);
      |t| == 46 && t[0] == 'Q' as int as byte && t[1] == 'm' as int as byte
  {
    var b := Frame(sha256(content));
    assert CountLeading(b, 0) == 0;
    assert b[0..] == b;
    FrameDigits(sha256(content));
  }
}
