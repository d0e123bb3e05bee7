/**
 * A signed claim over a dataset specification, and the identifier under
 * which it is registered: the specification's multihash is signed, the
 * multihash text and the signature are serialised together, and the claim
 * identifier is the multihash of that serialisation.
 */
module Claim {
  import opened Wrappers
  import opened Bytes
  import opened Multihash
  import Base58

  /**
   * The collaborators the claim is built from, none of them modelled:
   * SHA-256, UTF-8 encoding of text, signing with a key, Python's `str()` of
   * a bytes object and `json.dumps` of the two-field claim record.
   */
  datatype Primitives = Primitives(
    sha256: HashFunction,
    utf8: string -> seq<byte>,
    sign: seq<byte> -> seq<byte>,
    repr: seq<byte> -> string,
    dumps: (string, string) -> string)

  /** The claim record: the specification's multihash text and the signature over it. */
  datatype SignedClaim = SignedClaim(datasetSpecHash: seq<byte>, signature: seq<byte>)

  /** The multihash of the specification text, and the key's signature over that multihash text. */
  function BuildClaim(p: Primitives, specFile: string): (claim: SignedClaim)
    ensures claim.signature == p.sign(claim.datasetSpecHash)
    ensures forall i :: 0 <= i < |claim.datasetSpecHash| ==> Base58.IsSymbol(claim.datasetSpecHash[i])
  {
    var specHash := CreateIpfsMultihash(p.sha256, p.utf8(specFile));
    SignedClaim(specHash, p.sign(specHash))
  }

  /** The claim as JSON text: the Python text forms of the multihash and of the signature, under their two keys. */
  function SerializeClaim(p: Primitives, claim: SignedClaim): string {
    p.dumps(p.repr(claim.datasetSpecHash), p.repr(claim.signature))
  }

  /** `create_signed_claim_hash`: the multihash of the serialised claim. */
  function CreateSignedClaimHash(p: Primitives, specFile: string): (id: seq<byte>)
    ensures forall i :: 0 <= i < |id| ==> Base58.IsSymbol(id[i])
  {
    CreateIpfsMultihash(p.sha256, p.utf8(SerializeClaim(p, BuildClaim(p, specFile))))
  }

  /** What is signed is the specification's multihash text, which decodes to the SHA-256 multihash of the specification. */
  lemma SignatureCoversSpecMultihash(p: Primitives, specFile: string)
    ensures var claim := BuildClaim(p, specFile);
      claim.signature == p.sign(claim.datasetSpecHash) &&
      DecodeText(claim.datasetSpecHash) == Some(Multihash(Sha2_256, p.sha256(p.utf8(specFile))))
  {
    CreateIpfsMultihashDecodes(p.sha256, p.utf8(specFile));
  }

  /**
   * Each call signs with a freshly generated key, so two calls are modelled
   * with two Primitives `p` and `q` that share SHA-256 and UTF-8 but may sign
   * differently. Their claims carry the same specification multihash exactly
   * when the specifications' UTF-8 bytes have the same digest; equal records
   * imply equal digests, whatever the keys.
   */
  lemma SameSpecHashIffSameSpecDigest(p: Primitives, q: Primitives, a: string, b: string)
    requires q.sha256 == p.sha256 && q.utf8 == p.utf8
    ensures BuildClaim(p, a).datasetSpecHash == BuildClaim(q, b).datasetSpecHash
        <==> p.sha256(p.utf8(a)) == p.sha256(p.utf8(b))
    ensures BuildClaim(p, a) == BuildClaim(q, b) ==> p.sha256(p.utf8(a)) == p.sha256(p.utf8(b))
  {
    SameIdentifierIffSameDigest(p.sha256, p.utf8(a), p.utf8(b));
  }

  /**
   * The claim identifier is itself a well-formed identifier: 46 symbols
   * starting with "Qm" that decode to the SHA-256 multihash of the
   * serialised claim.
   */
  lemma ClaimHashIsMultihash(p: Primitives, specFile: string)
    ensures var id := CreateSignedClaimHash(p, specFile);
      var serialized := p.utf8(SerializeClaim(p, BuildClaim(p, specFile)));
      DecodeText(id) == Some(Multihash(Sha2_256, p.sha256(serialized))) &&
      |id| == 46 && id[0] == 'Q' as int as byte && id[1] == 'm' as int as byte
  {
    var serialized := p.utf8(SerializeClaim(p, BuildClaim(p, specFile)));
    CreateIpfsMultihashDecodes(p.sha256, serialized);
    CreateIpfsMultihashShape(p.sha256, serialized);
  }
}
