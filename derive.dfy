/**
 * From a private key to the nonce-0 contract address. Scalar multiplication
 * on secp256k1 and Keccak-256 are library calls whose insides are not part
 * of this model: they are the two functions of a `Crypto` value, known only
 * by the lengths of what they return.
 */
module Derive {
  import opened Bytes
  import opened Rlp

  /** A Keccak-256 digest. */
  type Digest = s: seq<byte> | |s| == 32 witness Zeros(32)

  /** An uncompressed public key without prefix: X then Y, 32 big-endian bytes each. */
  type PublicKey = s: seq<byte> | |s| == 64 witness Zeros(64)

  /**
   * The external collaborators: `keccak` hashes any byte string; `mulG` reads
   * a 32-byte big-endian scalar and returns the coordinates of scalar * G.
   */
  datatype Crypto = Crypto(keccak: seq<byte> -> Digest, mulG: seq<byte> -> PublicKey)

  /** The account address of a key: the last 20 bytes of Keccak-256(X ‖ Y). */
  function Eoa(c: Crypto, key: seq<byte>): (eoa: seq<byte>)
    ensures |eoa| == ADDRESS_LENGTH
  {
    c.keccak(c.mulG(key))[12..]
  }

  /**
   * The address of the first contract the account `eoa` deploys: the last 20
   * bytes of Keccak-256 of the RLP of [eoa, 0].
   */
  function ContractAddress(c: Crypto, eoa: seq<byte>): (addr: seq<byte>)
    requires |eoa| == ADDRESS_LENGTH
    ensures |addr| == ADDRESS_LENGTH
  {
    c.keccak(RlpOf(eoa))[12..]
  }

  /** Copies a digest or a public key into the C buffer that receives it. */
  method Store(buffer: array<byte>, value: seq<byte>)
    requires buffer.Length == |value|
    modifies buffer
    ensures buffer[..] == value
  {
    forall k | 0 <= k < buffer.Length {
      buffer[k] := value[k];
    }
  }

  /**
   * One pass of the derivation in the search loop: public key into
   * `publicKey`, its Keccak-256 into `hash`, the last 20 bytes of that into
   * the RLP buffer, then Keccak-256 of the buffer into `hash`. Afterwards the
   * buffer holds the EOA of the key and `hash[12..]` is its contract address.
   */
  method DeriveAddresses(c: Crypto, privateKey: array<byte>, publicKey: array<byte>,
                         hash: array<byte>, rlp: array<byte>)
    requires privateKey.Length == 32 && publicKey.Length == 64
    requires hash.Length == 32 && rlp.Length == RLP_LENGTH
    requires privateKey != publicKey && privateKey != hash
    requires HasHeader(rlp[..])
    modifies publicKey, hash, rlp
    ensures publicKey[..] == c.mulG(privateKey[..])
    ensures HasHeader(rlp[..]) && rlp[..] == RlpOf(Eoa(c, privateKey[..]))
    ensures hash[..] == c.keccak(rlp[..])
    ensures hash[12..] == ContractAddress(c, Eoa(c, privateKey[..]))
  {
    Store(publicKey, c.mulG(privateKey[..]));
    Store(hash, c.keccak(publicKey[..]));
    PlaceAddress(rlp, hash);
    ghost var eoa := Eoa(c, privateKey[..]);
    assert rlp[2..RLP_LENGTH - 1] == eoa;
    HeaderAndAddress(rlp[..]);
    Store(hash, c.keccak(rlp[..]));
  }
}
