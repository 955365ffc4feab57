/**
 * The 23-byte RLP encoding of the list [eoa, 0] that the search loop hashes
 * to get the nonce-0 contract address (Appendix B of the Ethereum Yellow
 * Paper; the address formula is in its section 7). The buffer's three header
 * bytes are written once; only the 20 address bytes change per attempt.
 */
module Rlp {
  import opened Bytes
  import opened Optional

  const ADDRESS_LENGTH := 20
  const RLP_LENGTH := 2 + ADDRESS_LENGTH + 1

  /** List prefix: a list whose payload is 22 bytes. */
  const LIST_HEADER: byte := 0xC0 + 22
  /** String prefix: a 20-byte string. */
  const ADDRESS_HEADER: byte := 0x80 + ADDRESS_LENGTH
  /** The empty string, which is how the integer 0 (the nonce) is encoded. */
  const EMPTY_STRING: byte := 0x80 + 0

  /** The whole buffer for one EOA: 0xD6 0x94 <20 address bytes> 0x80. */
  function RlpOf(eoa: seq<byte>): (r: seq<byte>)
    requires |eoa| == ADDRESS_LENGTH
    ensures |r| == RLP_LENGTH && r[..2] == [0xD6, 0x94] && r[RLP_LENGTH - 1] == 0x80
    ensures r[2..RLP_LENGTH - 1] == eoa
  {
    [LIST_HEADER, ADDRESS_HEADER] + eoa + [EMPTY_STRING]
  }

  /** The buffer has the three fixed header bytes in place. */
  predicate HasHeader(rlp: seq<byte>)
  {
    |rlp| == RLP_LENGTH && rlp[0] == LIST_HEADER && rlp[1] == ADDRESS_HEADER
    && rlp[RLP_LENGTH - 1] == EMPTY_STRING
  }

  /** A buffer with its headers in place is the encoding of the address it holds. */
  lemma HeaderAndAddress(rlp: seq<byte>)
    requires HasHeader(rlp)
    ensures rlp == RlpOf(rlp[2..RLP_LENGTH - 1])
  {
  }

  // A reference RLP encoder, short forms only (payloads under 56 bytes).

  /**
   * RLP of a byte string: a single byte below 0x80 is itself; otherwise 0x80
   * plus the length, then the bytes. Longer strings are not modelled.
   */
  function EncodeString(s: seq<byte>): (r: Option<seq<byte>>)
    ensures r.Some? <==> |s| < 56
    ensures |s| == 1 && s[0] < 0x80 ==> r == Some(s)
    ensures r.Some? && !(|s| == 1 && s[0] < 0x80) ==> r.value == [0x80 + |s|] + s
  {
    if |s| == 1 && s[0] < 0x80 then Some(s)
    else if |s| < 56 then Some([0x80 + |s|] + s)
    else None
  }

  /** The encoded items of a list, one after another: the payload of the list. */
  function Concat(parts: seq<seq<byte>>): (r: seq<byte>)
    ensures |parts| == 1 ==> r == parts[0]
  {
    if parts == [] then [] else parts[0] + Concat(parts[1..])
  }

  /** RLP of a list of already-encoded items: 0xC0 plus the payload length, then the payload. */
  function EncodeList(items: seq<seq<byte>>): (r: Option<seq<byte>>)
    ensures r.Some? <==> |Concat(items)| < 56
    ensures r.Some? ==> r.value == [0xC0 + |Concat(items)|] + Concat(items)
  {
    var payload := Concat(items);
    if |payload| < 56 then Some([0xC0 + |payload|] + payload) else None
  }

  /**
   * Big-endian bytes of an integer without leading zeros, as RLP encodes
   * integers; 0 is the empty string.
   */
  function ScalarBytes(n: nat): (r: seq<byte>)
    ensures ToNat(r) == n
    ensures r != [] ==> r[0] != 0
    ensures n == 0 <==> r == []
  {
    if n == 0 then []
    else
      var high := ScalarBytes(n / 256);
      var r := high + [n % 256];
      assert r[..|r| - 1] == high;
      r
  }

  /**
   * The fixed buffer is the RLP of the two-item list [eoa, nonce 0], which is
   * what the contract-address formula hashes for an account's first contract.
   */
  lemma RlpOfIsListEncoding(eoa: seq<byte>)
    requires |eoa| == ADDRESS_LENGTH
    ensures EncodeString(eoa) == Some([ADDRESS_HEADER] + eoa)
    ensures EncodeString(ScalarBytes(0)) == Some([EMPTY_STRING])
    ensures EncodeList([[ADDRESS_HEADER] + eoa, [EMPTY_STRING]]) == Some(RlpOf(eoa))
  {
    var items: seq<seq<byte>> := [[ADDRESS_HEADER] + eoa, [EMPTY_STRING]];
    var tail := items[1..];
    assert Concat(tail) == [EMPTY_STRING] by {
      assert tail[1..] == [];
    }
    assert Concat(items) == [ADDRESS_HEADER] + eoa + [EMPTY_STRING];
    assert [LIST_HEADER] + Concat(items) == RlpOf(eoa);
  }

  /** Writes the three header bytes (`rlp[0]`, `rlp[1]`, `rlp[22]`) and nothing else. */
  method WriteHeader(rlp: array<byte>)
    requires rlp.Length == RLP_LENGTH
    modifies rlp
    ensures HasHeader(rlp[..])
    ensures rlp[2..RLP_LENGTH - 1] == old(rlp[2..RLP_LENGTH - 1])
  {
    rlp[0] := LIST_HEADER;
    rlp[1] := ADDRESS_HEADER;
    rlp[2 + ADDRESS_LENGTH] := EMPTY_STRING;
  }

  /**
   * `memcpy(&rlp[2], &hash[12], 20)`: the last 20 bytes of the digest become
   * the address bytes; the header bytes are untouched.
   */
  method PlaceAddress(rlp: array<byte>, hash: array<byte>)
    requires rlp.Length == RLP_LENGTH && hash.Length == 32
    modifies rlp
    ensures rlp[..] == old(rlp[..2]) + old(hash[12..]) + old(rlp[RLP_LENGTH - 1..])
  {
    ghost var h := hash[12..];
    forall k | 0 <= k < ADDRESS_LENGTH {
      rlp[2 + k] := hash[12 + k];
    }
    assert rlp[..] == old(rlp[..2]) + h + old(rlp[RLP_LENGTH - 1..]);
  }
}
