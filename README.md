# Dataset bid registry: content identifiers, signed claims and the bid ledger

This project models the test module of a dataset-licensing registry
(`tests/bid_offer_finalize_test.py`). The module holds two helpers and four
tests, all run against one deployed `DatasetBidRegistry` contract. Three of
the tests carry an explicit order (register, offer, finalize). The ownership
test has no order mark and may run at any point; that does not matter,
because nothing in the model changes the owner (it is a `const`).

* `create_ipfs_multihash(content)` takes the SHA-256 digest of `content`, puts
  the one-byte hash-function code 18 (sha2-256) and the one-byte digest size 32
  in front of it, and Base58-encodes the 34 bytes with the Bitcoin alphabet. The
  result is an IPFS (CIDv0) identifier.
* `create_signed_claim_hash(spec)` takes the identifier of the specification
  text and signs that identifier with a fresh key. It serialises the identifier
  and the signature as a JSON record and returns the identifier of that JSON
  text.
* The tests check four things:
  * the contract's owner is the deploying account;
  * a bid registered by `accounts[1]` reads back from `bidinfo` with its expiry
    and amount unchanged;
  * an offer by `accounts[2]` reports its offerer, bidder and value unchanged;
  * `finalize` with 1005 attached raises the offerer's balance by exactly 1005.

Modules, leaf first:

* `Wrappers`: `Option` and `Result`.
* `Digits`: natural numbers as digit sequences with the most significant digit
  first, and their round trips.
* `Bytes`: bytes, the big-endian reading of a byte string (`int.from_bytes`),
  and runs of leading elements.
* `Base58`: the encoding of the IETF draft "The Base58 Encoding Scheme"
  (draft-msporny-base58). It has a Bitcoin-alphabet encoder and decoder that are
  proved to be inverse bijections.
* `Varint`: the multiformats unsigned varint, which the multihash format uses
  for its code and size fields.
* `Multihash`: the multihash record, its serialisation and parser, the 34-byte
  frame, and `CreateIpfsMultihash` with its properties.
* `Claim`: `CreateSignedClaimHash` and the order in which it composes its
  parts.
* `Registry`: the `DatasetBidRegistry` class (owner, bids per bidder, offers per
  offerer/bidder pair, settlements) and an `Accounts` class for the chain's
  balances.
* `BidOfferFinalizeTest`: the four tests as one method, with the ownership
  test first and the other three in their marked order. Its postconditions
  are the tests' assertions.

The collaborators that are not modelled are passed in as parameters, bundled in
`Claim.Primitives`: SHA-256 (any function returning 32 bytes), UTF-8 encoding,
the signing key, Python's `str()` of bytes and `json.dumps`. The string that is
hashed as the specification is Python's `str()` of the parsed specification
JSON (not the file's text); it and the timestamp from the clock are plain
parameters of `OrderedTests`.

Two facts about the code shape the model:

* The key signs the Base58 identifier text of the specification
  (tests/bid_offer_finalize_test.py:38-41), not the raw digest bytes.
* The identifiers are byte strings of ASCII codes, because `b58encode` returns
  `bytes` (tests/bid_offer_finalize_test.py:30).

The registry's behaviour on inputs that no test exercises is chosen by the
model, not observed, because the contract's source is not part of this model;
"## Left out" lists each such choice.

## Model

| member | source | states |
|---|---|---|
| `Base58.Encode` | tests/bid_offer_finalize_test.py:30 | every byte of the Base58 text is a symbol of the Bitcoin alphabet |
| `Base58.Index` | tests/bid_offer_finalize_test.py:30 | a byte that is read as a digit is the symbol of that digit, and the digit is below 58 |
| `Base58.IndexOfSymbol` | tests/bid_offer_finalize_test.py:30 | every digit 0..57 has its own symbol: reading a digit's symbol gives that digit back |
| `Base58.DecodeEncode` | tests/bid_offer_finalize_test.py:30 | decoding the Base58 text of any byte string gives that byte string back, leading zero bytes included |
| `Base58.EncodeDecode` | tests/bid_offer_finalize_test.py:30 | any text that decodes is exactly the encoding of what it decodes to, so encoder and decoder are inverse bijections |
| `Varint.Encode` | tests/bid_offer_finalize_test.py:22-24 | a varint is at least one byte; every byte but the last has its high bit set; it is one byte exactly when the value is below 128 |
| `Varint.ReadEncode` | tests/bid_offer_finalize_test.py:22-24 | a varint is read back whole, value and length, whatever bytes follow it |
| `Multihash.ParseSerialize` | tests/bid_offer_finalize_test.py:22-24 | parsing the varint-framed `<code><size><digest>` form gives the multihash back |
| `Multihash.Frame` | tests/bid_offer_finalize_test.py:28-30 | the framed digest is 34 bytes: 18 (sha2-256) first, then 32, which equals the length of the digest that follows, then the digest |
| `Multihash.FrameIsMultihash` | tests/bid_offer_finalize_test.py:22-30 | the one-byte big-endian code and size fields are the varints the doc comment names, so the frame parses as the sha2-256 multihash of the digest |
| `Multihash.CreateIpfsMultihash` | tests/bid_offer_finalize_test.py:21-30 | the identifier consists of Base58 symbols only; its other properties are carried by `Multihash.CreateIpfsMultihashDecodes`, `Multihash.SameIdentifierIffSameDigest` and `Multihash.CreateIpfsMultihashShape` |
| `Multihash.CreateIpfsMultihashDecodes` | tests/bid_offer_finalize_test.py:21-30 | the identifier Base58-decodes to the 34 framed bytes, which parse as the sha2-256 multihash of the content's digest |
| `Multihash.SameIdentifierIffSameDigest` | tests/bid_offer_finalize_test.py:26-30 | two contents get the same identifier exactly when their SHA-256 digests agree, so equal content gives an identical identifier |
| `Multihash.CreateIpfsMultihashShape` | tests/bid_offer_finalize_test.py:28-30 | every identifier is 46 symbols long and starts with "Qm", whatever the digest |
| `Claim.BuildClaim` | tests/bid_offer_finalize_test.py:38-41 | the signature is the key's signature over the record's specification identifier, and that identifier consists of Base58 symbols only; `Claim.SignatureCoversSpecMultihash` adds what the identifier decodes to |
| `Claim.SerializeClaim` | tests/bid_offer_finalize_test.py:43-44 | no contract of its own: `json.dumps` and `str()` are uninterpreted parameters; `Claim.ClaimHashIsMultihash` carries the property of the serialised record |
| `Claim.CreateSignedClaimHash` | tests/bid_offer_finalize_test.py:33-45 | the claim id consists of Base58 symbols only; `Claim.ClaimHashIsMultihash` states what it decodes to and its shape |
| `Claim.SignatureCoversSpecMultihash` | tests/bid_offer_finalize_test.py:38-41 | the signature is over the specification's identifier text, and that text decodes to the sha2-256 multihash of the specification's UTF-8 bytes |
| `Claim.SameSpecHashIffSameSpecDigest` | tests/bid_offer_finalize_test.py:38-44 | for two calls, each with its own signing key, the claims carry the same specification multihash exactly when the specifications' UTF-8 bytes have equal digests; equal claim records imply equal digests (the converse fails, since the keys differ) |
| `Claim.ClaimHashIsMultihash` | tests/bid_offer_finalize_test.py:42-45 | the claim id is a well-formed identifier (46 symbols, "Qm" prefix) that decodes to the sha2-256 multihash of the serialised `{dataset_spec_hash, signature}` record |
| `Registry.Moved` | tests/bid_offer_finalize_test.py:84-87 | moving a value between two distinct accounts credits the target and debits the source by exactly that value; every other account is unchanged; a self-transfer changes nothing |
| `Registry.Accounts.Transfer` | tests/bid_offer_finalize_test.py:85 | the attached value moves exactly when the sender can cover it; otherwise the balances are unchanged |
| `Registry.DatasetBidRegistry.constructor` | tests/bid_offer_finalize_test.py:13-17 | the deployed registry's owner is the deploying account, and it starts with no bids, offers or settlements |
| `Registry.DatasetBidRegistry.BidInfo` | tests/bid_offer_finalize_test.py:65 | `bidinfo(who, position)` reports the bid stored at that position of `who`, and BidNotFound exactly when there is none (a modelling choice for the absent case, see "## Left out") |
| `Registry.DatasetBidRegistry.Register` | tests/bid_offer_finalize_test.py:59-67 | the new bid goes at the caller's next position (0 for a first bid); bidinfo then returns the same expiry, claim, amount and tag; earlier bids and all offers are unchanged |
| `Registry.DatasetBidRegistry.Offer` | tests/bid_offer_finalize_test.py:74-78 | the event reports the supplied offerer, bidder, bid number and value unchanged, with the pair's next offer number; the offer is appended to that pair's offers |
| `Registry.DatasetBidRegistry.Finalize` | tests/bid_offer_finalize_test.py:84-87 | with the amount attached, the balances become Moved(caller to offerer, amount), so a distinct offerer gains exactly that amount and the settlement is recorded; otherwise nothing changes |
| `BidOfferFinalizeTest.OrderedTests` | tests/bid_offer_finalize_test.py:47-87 | after the four tests run on one registry (ownership first; its place does not matter since the owner is a const): owner is accounts[0]; the first bid is at position 0 and reads back with its timestamp and 1000; the offer reports accounts[2], accounts[1] and 1005; the offerer's balance rises by exactly 1005 |

## Left out

- SHA-256 internals (`hashlib`): any function that returns 32 bytes stands for it. Collision resistance is an assumption and is not proved.
- ECDSA signing with a freshly generated key: the key is random and comes from a foreign library, so `sign` is a parameter. Signature verification is not part of the source.
- `json.dumps`, Python's `str()` of bytes and UTF-8 encoding: their exact text depends on CPython, so they are uninterpreted parameters.
- Brownie: deployment, the `accounts` list, transactions and gas are left out. Events become return values. Balances ignore gas because the offerer sends no transaction.
- Reading and parsing `sample_dataset_spec.json`, Python's `str()` of the parsed object, and `datetime.now()`: the resulting specification string and the timestamp become parameters.
- Registry checks that the tests never exercise are not modelled, because the contract's source is not part of this model: expiry rejection, double-finalize rejection, payment mismatch, and whether the bid or offer exists in `offer` and `finalize`.
- Ownable's `transferOwnership` and `renounceOwnership`: the tests only read the owner.
- Registry.DatasetBidRegistry.BidInfo: returning BidNotFound on an absent position is a modelling choice, not observed behaviour: no test reads an absent position, and the contract's getter might revert or return zero values instead.
- Registry.DatasetBidRegistry.Offer: the sending account is not modelled, because the test passes none.
- Registry.DatasetBidRegistry.Register: amounts, expiry strings and balances are unbounded, so the uint256 width of the contract is not modelled.
- Base58.Decode: it follows the standard, so the library's stripping of trailing whitespace is not modelled.
- Varint.Encode: the multiformats nine-byte limit is not modelled. Neither is its rule that decoders reject non-minimal encodings. Only values below 128 occur here.
