/**
 * The nibble-by-nibble prefix test of the search loop. Pattern position i is
 * compared with the high half of address byte i/2 when i is even and with
 * its low half when i is odd, so odd-length patterns are possible.
 */
module Matcher {
  import opened Bytes
  import opened Hex
  import opened Optional

  /** Hex digits in a 20-byte address: the longest pattern the loop can compare. */
  const ADDRESS_DIGITS := 40

  /**
   * The address, read as hex digits, starts with the pattern: byte by byte,
   * the first pattern entry is the byte's high half and the second its low half.
   */
  predicate Matches(address: seq<byte>, pattern: seq<Nibble>)
    decreases |pattern|
    ensures Matches(address, pattern) ==> |pattern| <= 2 * |address|
  {
    if pattern == [] then true
    else if address == [] then false
    else if |pattern| == 1 then pattern[0] == address[0] / 16
    else pattern[0] == address[0] / 16 && pattern[1] == address[0] % 16
         && Matches(address[1..], pattern[2..])
  }

  /** Matching is the same as being a prefix of the address's nibble sequence. */
  lemma {:induction false} MatchesIsPrefix(address: seq<byte>, pattern: seq<Nibble>)
    decreases |pattern|
    ensures Matches(address, pattern) <==> pattern <= Nibbles(address)
  {
    if pattern != [] && address != [] {
      var rest := Nibbles(address[1..]);
      assert Nibbles(address) == [address[0] / 16, address[0] % 16] + rest;
      if |pattern| >= 2 {
        MatchesIsPrefix(address[1..], pattern[2..]);
        assert pattern == [pattern[0], pattern[1]] + pattern[2..];
      }
    }
  }

  /**
   * The match loop over `hash[12 + i / 2]`: it stops at the first position
   * whose nibble differs from `pattern[i]`. It reports a match exactly when
   * the first `patternLength` entries of `pattern` are a prefix of the
   * contract address (the last 20 bytes of the digest).
   */
  method MatchPattern(hash: array<byte>, pattern: array<Nibble>, patternLength: nat)
    returns (found: bool)
    requires hash.Length == 32 && patternLength <= pattern.Length && patternLength <= ADDRESS_DIGITS
    ensures found <==> Matches(hash[12..], pattern[..patternLength])
  {
    ghost var address := hash[12..];
    found := true;
    var i := 0;
    while i < patternLength
      invariant 0 <= i <= patternLength
      invariant forall j :: 0 <= j < i ==> Nibbles(address)[j] == pattern[j]
    {
      var nibble := hash[12 + i / 2];
      if i % 2 == 0 {
        nibble := nibble / 16;
      } else {
        nibble := nibble % 16;
      }
      NibbleAt(address, i);
      if nibble != pattern[i] {
        found := false;
        break;
      }
      i := i + 1;
    }
    assert found ==> Nibbles(address)[..patternLength] == pattern[..patternLength];
    MatchesIsPrefix(address, pattern[..patternLength]);
  }

  /** The empty pattern matches every address. */
  lemma EmptyPatternMatches(address: seq<byte>)
    ensures Matches(address, [])
  {
  }

  /**
   * A one-digit pattern matches exactly the addresses whose first byte has
   * that digit as its high half; the low half does not matter.
   */
  lemma SingleDigit(address: seq<byte>, n: Nibble)
    requires |address| > 0
    ensures Matches(address, [n]) <==> address[0] / 16 == n
  {
  }

  /**
   * Matching is about the first nibbles only: a pattern matches exactly when
   * each of its entries equals the address nibble at the same position.
   */
  lemma MatchesAt(address: seq<byte>, pattern: seq<Nibble>)
    requires |pattern| <= 2 * |address|
    ensures Matches(address, pattern) <==>
      forall i :: 0 <= i < |pattern| ==>
        pattern[i] == if i % 2 == 0 then address[i / 2] / 16 else address[i / 2] % 16
  {
    forall i | 0 <= i < |pattern| {
      NibbleAt(address, i);
    }
    if forall i :: 0 <= i < |pattern| ==> pattern[i] == Nibbles(address)[i] {
      assert Nibbles(address)[..|pattern|] == pattern;
    }
    MatchesIsPrefix(address, pattern);
  }

  /**
   * A pattern typed from the printed address (any case, at most its 40
   * digits) matches that address: parsing and printing agree on the order
   * of the nibbles.
   */
  lemma PrintedPrefixMatches(address: seq<byte>, typed: seq<byte>, pattern: seq<Nibble>)
    requires |typed| <= 2 * |address|
    requires ParseHex(typed) == Ok(pattern)
    requires forall i :: 0 <= i < |typed| ==> NibbleOf(typed[i]) == NibbleOf(Ascii(HexDigits(address))[i])
    ensures Matches(address, pattern)
  {
    ParseHexDigits(address);
    forall i | 0 <= i < |pattern| ensures pattern[i] == Nibbles(address)[i] {
      assert NibbleOf(typed[i]) == Some(pattern[i]);
      assert NibbleOf(Ascii(HexDigits(address))[i]) == Some(Nibbles(address)[i]);
    }
    assert Nibbles(address)[..|pattern|] == pattern;
    MatchesIsPrefix(address, pattern);
  }
}
