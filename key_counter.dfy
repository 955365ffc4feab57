/**
 * The private key as a counter: a 32-byte array that the search loop bumps by
 * one after every attempt, with the carry running from the last byte toward
 * the first. The loop stops before byte 0, so byte 0 never changes and bytes
 * 1..31 count modulo 2^248.
 */
module KeyCounter {
  import opened Bytes

  const KEY_LENGTH := 32

  /** Big-endian "+1": carry from the last byte toward the first; all 0xFF wraps to all zero. */
  function Inc(s: seq<byte>): (r: seq<byte>)
    ensures |r| == |s|
  {
    if s == [] then []
    else if s[|s| - 1] < 255 then s[..|s| - 1] + [s[|s| - 1] + 1]
    else Inc(s[..|s| - 1]) + [0]
  }

  /** `Inc` adds one to the big-endian value, wrapping to 0 past the largest |s|-byte value. */
  lemma {:induction false} IncValue(s: seq<byte>)
    ensures ToNat(Inc(s)) == if ToNat(s) + 1 == Pow256(|s|) then 0 else ToNat(s) + 1
  {
    if s != [] {
      var n := |s|;
      var p, b := s[..n - 1], s[n - 1];
      var r := Inc(s);
      assert r[..n - 1] == (if b < 255 then p else Inc(p));
      assert ToNat(r) == ToNat(r[..n - 1]) * 256 + r[n - 1];
      if b == 255 {
        IncValue(p);
      }
    }
  }

  /**
   * The carry stops at the last byte below 0xFF (position t): that byte goes
   * up by one, every byte after it becomes 0, every byte before it is kept.
   */
  lemma {:induction false} IncCarry(s: seq<byte>, t: nat)
    requires t < |s| && s[t] < 255
    requires forall j :: t < j < |s| ==> s[j] == 255
    ensures Inc(s) == s[..t] + [s[t] + 1] + Zeros(|s| - t - 1)
  {
    var n := |s|;
    if t < n - 1 {
      IncCarry(s[..n - 1], t);
      assert s[..n - 1][..t] == s[..t];
    }
  }

  /** When every byte is 0xFF the carry runs off the front and all bytes become 0. */
  lemma {:induction false} IncWrap(s: seq<byte>)
    requires forall j :: 0 <= j < |s| ==> s[j] == 255
    ensures Inc(s) == Zeros(|s|)
  {
    if s != [] {
      IncWrap(s[..|s| - 1]);
    }
  }

  /** The key after one step of the search loop: byte 0 kept, bytes 1..31 incremented. */
  function NextKey(key: seq<byte>): (r: seq<byte>)
    requires |key| == KEY_LENGTH
    ensures |r| == KEY_LENGTH
  {
    key[..1] + Inc(key[1..])
  }

  /** 2^248: the number of values bytes 1..31 of a key can take. */
  const KEY_SPACE: nat := 0x1_00000000_00000000_00000000_00000000_00000000_00000000_00000000_000000

  lemma KeySpace()
    ensures Pow256(31) == KEY_SPACE
  {
    assert Pow256(8) == 0x1_0000_0000_0000_0000;
    assert Pow256(16) == 0x1_0000_0000_0000_0000_0000_0000_0000_0000;
    assert Pow256(24) == 0x1_0000_0000_0000_0000_0000_0000_0000_0000_0000_0000_0000_0000;
  }

  /**
   * One step keeps byte 0 and adds one to the value of bytes 1..31 modulo 2^248.
   */
  lemma NextKeyValue(key: seq<byte>)
    requires |key| == KEY_LENGTH
    ensures NextKey(key)[0] == key[0]
    ensures ToNat(NextKey(key)[1..]) == (ToNat(key[1..]) + 1) % KEY_SPACE
  {
    assert NextKey(key)[1..] == Inc(key[1..]);
    IncValue(key[1..]);
    KeySpace();
  }

  /**
   * The increment at the end of the search loop: `privateKey[i]++` for i from
   * 31 down to 1, stopping at the first byte that did not wrap to 0.
   */
  method IncrementKey(privateKey: array<byte>)
    requires privateKey.Length == KEY_LENGTH
    modifies privateKey
    ensures privateKey[..] == NextKey(old(privateKey[..]))
  {
    ghost var next := NextKey(privateKey[..]);
    assert privateKey[1..32] == privateKey[1..] && privateKey[32..] == [];
    var i := 31;
    while i > 0
      invariant 0 <= i <= 31
      invariant privateKey[..i + 1] == old(privateKey[..i + 1])
      invariant next == privateKey[..1] + Inc(privateKey[1..i + 1]) + privateKey[i + 1..]
    {
      ghost var before := privateKey[..];
      var b := privateKey[i];
      privateKey[i] := (b as int + 1) % 256;
      assert before[1..i + 1] == before[1..i] + [b];
      if privateKey[i] != 0 {
        assert privateKey[..] == before[..1] + (before[1..i] + [b + 1]) + before[i + 1..];
        break;
      }
      assert privateKey[..] == before[..1] + before[1..i] + [0] + before[i + 1..];
      i := i - 1;
    }
  }

  /** The key tried on iteration k (counting from 0) when the search starts at `seed`. */
  function KeyAt(seed: seq<byte>, k: nat): (r: seq<byte>)
    requires |seed| == KEY_LENGTH
    ensures |r| == KEY_LENGTH
  {
    if k == 0 then seed else NextKey(KeyAt(seed, k - 1))
  }

  /**
   * k increments add k to the value of bytes 1..31 modulo 2^248, and byte 0
   * stays as it was seeded.
   */
  lemma {:induction false} KeyAtValue(seed: seq<byte>, k: nat)
    requires |seed| == KEY_LENGTH
    ensures KeyAt(seed, k)[0] == seed[0]
    ensures ToNat(KeyAt(seed, k)[1..]) == (ToNat(seed[1..]) + k) % KEY_SPACE
  {
    if k > 0 {
      KeyAtValue(seed, k - 1);
      var x := ToNat(seed[1..]) + k - 1;
      KeyAtStep(seed, k, x);
      assert x + 1 == ToNat(seed[1..]) + k;
    } else {
      assert KeyAt(seed, k) == seed;
      SeedValue(seed[1..]);
    }
  }

  /** If key k - 1 holds x modulo 2^248 in bytes 1..31, key k holds x + 1 modulo 2^248. */
  lemma KeyAtStep(seed: seq<byte>, k: nat, x: nat)
    requires |seed| == KEY_LENGTH && k > 0
    requires KeyAt(seed, k - 1)[0] == seed[0]
    requires ToNat(KeyAt(seed, k - 1)[1..]) == x % KEY_SPACE
    ensures KeyAt(seed, k)[0] == seed[0]
    ensures ToNat(KeyAt(seed, k)[1..]) == (x + 1) % KEY_SPACE
  {
    var key := KeyAt(seed, k - 1);
    NextKeyValue(key);
    ModSucc(x);
  }

  /** The seed's own bytes 1..31 are already below 2^248. */
  lemma SeedValue(s: seq<byte>)
    requires |s| == KEY_LENGTH - 1
    ensures ToNat(s) % KEY_SPACE == ToNat(s)
  {
    KeySpace();
  }

  /** Fewer than 2^248 steps apart, two tried keys are different. */
  lemma KeysDistinct(seed: seq<byte>, i: nat, j: nat)
    requires |seed| == KEY_LENGTH
    requires i < j < i + KEY_SPACE
    ensures KeyAt(seed, i) != KeyAt(seed, j)
  {
    KeyAtValue(seed, i);
    KeyAtValue(seed, j);
    ModShift(ToNat(seed[1..]) + i, j - i);
  }

  lemma ModShift(a: nat, d: nat)
    requires 0 < d < KEY_SPACE
    ensures a % KEY_SPACE != (a + d) % KEY_SPACE
  {
    var q, r := a / KEY_SPACE, a % KEY_SPACE;
    assert a == q * KEY_SPACE + r;
    if r + d < KEY_SPACE {
      assert (a + d) % KEY_SPACE == r + d;
    } else {
      assert a + d == (q + 1) * KEY_SPACE + (r + d - KEY_SPACE);
      assert (a + d) % KEY_SPACE == r + d - KEY_SPACE;
    }
  }

  lemma ModSucc(x: nat)
    ensures (x % KEY_SPACE + 1) % KEY_SPACE == (x + 1) % KEY_SPACE
  {
    var q, r := x / KEY_SPACE, x % KEY_SPACE;
    assert x == q * KEY_SPACE + r;
    if r + 1 < KEY_SPACE {
      assert (x + 1) % KEY_SPACE == r + 1;
    } else {
      assert x + 1 == (q + 1) * KEY_SPACE;
      assert (x + 1) % KEY_SPACE == 0;
    }
  }
}
