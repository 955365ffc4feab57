/**
 * Hexadecimal text: the per-byte mapping of the PATTERN argument, the
 * `%02x` rendering used by `dumpBuffer`, and the nibble view of a byte string
 * that both the matcher and the rendering read in the same order.
 */
module Hex {
  import opened Bytes
  import opened Optional

  /** The digit `%x` prints for `n`: '0'..'9', then lower-case 'a'..'f'. */
  function LowerDigit(n: Nibble): (c: char)
    ensures '0' <= c <= '9' || 'a' <= c <= 'f'
  {
    if n < 10 then ('0' as int + n) as char else ('a' as int + n - 10) as char
  }

  /** The upper-case spelling of the same digit. */
  function UpperDigit(n: Nibble): (c: char)
  {
    if n < 10 then ('0' as int + n) as char else ('A' as int + n - 10) as char
  }

  /**
   * Value of one PATTERN byte: 0x30..0x39 ('0'..'9') are 0..9, 0x41..0x46
   * ('A'..'F') and 0x61..0x66 ('a'..'f') are 10..15; every other byte is
   * rejected. Exactly the digits that `%x` or `%X` would print are accepted,
   * each for the nibble it prints.
   */
  function NibbleOf(b: byte): (r: Option<Nibble>)
    ensures forall n: Nibble :: r == Some(n) <==> b == LowerDigit(n) as int || b == UpperDigit(n) as int
  {
    if 0x30 <= b <= 0x39 then Some(b - 0x30)
    else if 0x41 <= b <= 0x46 then Some(b - 0x41 + 10)
    else if 0x61 <= b <= 0x66 then Some(b - 0x61 + 10)
    else None
  }

  /**
   * Parse of a whole PATTERN: the nibble of every byte, or the position of
   * the first byte that is not a hex digit.
   */
  function ParseHex(s: seq<byte>): (r: Result<seq<Nibble>, nat>)
    ensures r.Ok? ==> |r.value| == |s| && forall i :: 0 <= i < |s| ==> NibbleOf(s[i]) == Some(r.value[i])
    ensures r.Err? ==> r.error < |s| && NibbleOf(s[r.error]).None?
                       && forall i :: 0 <= i < r.error ==> NibbleOf(s[i]).Some?
  {
    if s == [] then Ok([])
    else match NibbleOf(s[0])
      case None => Err(0)
      case Some(n) =>
        match ParseHex(s[1..])
        case Ok(rest) => Ok([n] + rest)
        case Err(p) => Err(p + 1)
  }

  /** ParseHex fails at the first byte that is not a hex digit. */
  lemma {:induction false} ParseHexFirstError(s: seq<byte>, p: nat)
    requires p < |s| && NibbleOf(s[p]).None?
    requires forall j :: 0 <= j < p ==> NibbleOf(s[j]).Some?
    ensures ParseHex(s) == Err(p)
  {
    if p > 0 {
      ParseHexFirstError(s[1..], p - 1);
    }
  }

  /** ParseHex succeeds with the nibble of every byte when all are hex digits. */
  lemma {:induction false} ParseHexAll(s: seq<byte>, nibbles: seq<Nibble>)
    requires |nibbles| == |s|
    requires forall j :: 0 <= j < |s| ==> NibbleOf(s[j]) == Some(nibbles[j])
    ensures ParseHex(s) == Ok(nibbles)
  {
    if s != [] {
      ParseHexAll(s[1..], nibbles[1..]);
      assert nibbles == [nibbles[0]] + nibbles[1..];
    }
  }

  /** The bytes that spell an ASCII string, one per character. */
  function Ascii(s: string): (r: seq<byte>)
    requires forall i :: 0 <= i < |s| ==> s[i] as int < 128
  {
    seq(|s|, i requires 0 <= i < |s| => s[i] as int)
  }

  /** The nibbles of `s` in reading order: high half of each byte, then its low half. */
  function Nibbles(s: seq<byte>): (r: seq<Nibble>)
    ensures |r| == 2 * |s|
  {
    if s == [] then [] else [s[0] / 16, s[0] % 16] + Nibbles(s[1..])
  }

  /** Nibble i is the high half of byte i/2 when i is even and its low half when i is odd. */
  lemma {:induction false} NibbleAt(s: seq<byte>, i: nat)
    requires i < 2 * |s|
    ensures Nibbles(s)[i] == if i % 2 == 0 then s[i / 2] / 16 else s[i / 2] % 16
  {
    if i >= 2 {
      NibbleAt(s[1..], i - 2);
    }
  }

  /** The `%02x` digits of every byte of `s`, in order. */
  function HexDigits(s: seq<byte>): (r: string)
    ensures |r| == 2 * |s|
    ensures forall i :: 0 <= i < |r| ==> '0' <= r[i] <= '9' || 'a' <= r[i] <= 'f'
  {
    if s == [] then [] else [LowerDigit(s[0] / 16), LowerDigit(s[0] % 16)] + HexDigits(s[1..])
  }

  /** Each printed digit renders the nibble at the same position. */
  lemma {:induction false} HexDigitsAt(s: seq<byte>, i: nat)
    requires i < 2 * |s|
    ensures HexDigits(s)[i] == LowerDigit(Nibbles(s)[i])
  {
    if i >= 2 {
      HexDigitsAt(s[1..], i - 2);
    }
  }

  /**
   * `dumpBuffer`: "0x", two lower-case digits per byte, a newline. The length
   * is an `uint8_t` in the source, so the buffer is shorter than 256 bytes.
   */
  function DumpBuffer(buffer: seq<byte>): (out: string)
    requires |buffer| < 256
    ensures |out| == 2 * |buffer| + 3
    ensures out[..2] == "0x" && out[|out| - 1] == '\n'
    ensures forall i :: 2 <= i < |out| - 1 ==> '0' <= out[i] <= '9' || 'a' <= out[i] <= 'f'
    ensures forall i :: 0 <= i < 2 * |buffer| ==> out[2 + i] == LowerDigit(Nibbles(buffer)[i])
    ensures out[2..|out| - 1] == HexDigits(buffer)
  {
    var digits := HexDigits(buffer);
    forall i | 0 <= i < 2 * |buffer| ensures digits[i] == LowerDigit(Nibbles(buffer)[i]) {
      HexDigitsAt(buffer, i);
    }
    "0x" + digits + "\n"
  }

  /** Reading the printed digits back as a PATTERN gives the nibbles of the buffer. */
  lemma ParseHexDigits(s: seq<byte>)
    ensures ParseHex(Ascii(HexDigits(s))) == Ok(Nibbles(s))
  {
    var typed := Ascii(HexDigits(s));
    forall j | 0 <= j < |typed| ensures NibbleOf(typed[j]) == Some(Nibbles(s)[j]) {
      HexDigitsAt(s, j);
    }
    ParseHexAll(typed, Nibbles(s));
  }
}
