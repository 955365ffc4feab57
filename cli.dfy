/**
 * The command line: `vanity-contract PATTERN [-s N] [-f P]`. The flag values
 * are checked first and the PATTERN length next, all before any worker is
 * started. The PATTERN characters are checked afterwards, by each worker
 * while it fills its nibble array, so a bad character is reported once per
 * worker. Every ending the model covers exits with code 1; a failing `fork`
 * (which returns -1 from `main`) is not part of it.
 *
 * PATTERN is the argument's bytes before its terminating NUL, as `strlen`
 * and the parse loop see them, so a multi-byte UTF-8 character counts as
 * several characters and is reported by its first byte.
 */
module Cli {
  import opened Bytes
  import opened Optional
  import opened Hex

  /** The longest PATTERN accepted: the 40 hex digits of an address. */
  const MAX_PATTERN := 40

  /** What the checks before the fork decide. */
  datatype Launch =
    | Usage                  // `-f` below 1, `-s` negative, or no PATTERN
    | TooLong                // PATTERN longer than 40 bytes
    | Start(numProcs: int, speedIters: int, patternLength: nat)

  /**
   * vanity.c lines 56-66: a `-f` value below 1, a negative `-s` or a missing
   * PATTERN is a usage error; otherwise the byte length of PATTERN, kept in
   * an `uint32_t`, must be at most 40.
   */
  function Validate(numProcs: int, speedIters: int, pattern: Option<seq<byte>>): (r: Launch)
    ensures r.Usage? <==> numProcs < 1 || speedIters < 0 || pattern.None?
    ensures r.TooLong? <==> !r.Usage? && |pattern.value| % 0x1_0000_0000 > MAX_PATTERN
    ensures r.Start? ==> r.numProcs == numProcs >= 1 && r.speedIters == speedIters >= 0
    ensures r.Start? ==> r.patternLength <= MAX_PATTERN && r.patternLength <= |pattern.value|
    ensures r.Start? && |pattern.value| < 0x1_0000_0000 ==> r.patternLength == |pattern.value|
  {
    if numProcs < 1 || speedIters < 0 || pattern.None? then Usage
    else
      var patternLength := |pattern.value| % 0x1_0000_0000;
      if patternLength > MAX_PATTERN then TooLong
      else Start(numProcs, speedIters, patternLength)
  }

  /**
   * For any argument the operating system can pass (a single argument is far
   * shorter than 2^32 bytes), the length check rejects exactly the patterns
   * longer than 40 bytes.
   */
  lemma LengthCheck(numProcs: int, speedIters: int, pattern: seq<byte>)
    requires numProcs >= 1 && speedIters >= 0 && |pattern| < 0x1_0000_0000
    ensures Validate(numProcs, speedIters, Some(pattern)).TooLong? <==> |pattern| > MAX_PATTERN
    ensures Validate(numProcs, speedIters, Some(pattern)).Start? <==> |pattern| <= MAX_PATTERN
  {
  }

  /** Why a worker stopped before searching: the position and the byte found there. */
  datatype PatternError = InvalidCharacter(position: nat, c: byte)

  /**
   * vanity.c lines 82-95: fills `pattern[i]` with the nibble of byte i, for i
   * below `patternLength`, and stops at the first byte that is not a hex
   * digit, reporting its position; entries from there on are not written.
   */
  method ParsePattern(arg: seq<byte>, patternLength: nat, pattern: array<Nibble>)
    returns (err: Option<PatternError>)
    requires patternLength <= |arg| && patternLength <= MAX_PATTERN == pattern.Length
    modifies pattern
    ensures ParseHex(arg[..patternLength]).Ok? <==> err.None?
    ensures err.None? ==> pattern[..patternLength] == ParseHex(arg[..patternLength]).value
                          && pattern[patternLength..] == old(pattern[patternLength..])
    ensures err.Some? ==>
      var p := ParseHex(arg[..patternLength]).error;
      && err.value == InvalidCharacter(p, arg[p])
      && (forall i :: 0 <= i < p ==> NibbleOf(arg[i]) == Some(pattern[i]))
      && pattern[p..] == old(pattern[p..])
  {
    ghost var s := arg[..patternLength];
    var i := 0;
    while i < patternLength
      invariant 0 <= i <= patternLength
      invariant forall j :: 0 <= j < i ==> NibbleOf(arg[j]) == Some(pattern[j])
      invariant pattern[i..] == old(pattern[i..])
    {
      var c := arg[i];
      if 0x30 <= c <= 0x39 {
        pattern[i] := c - 0x30;
      } else if 0x41 <= c <= 0x46 {
        pattern[i] := c - 0x41 + 10;
      } else if 0x61 <= c <= 0x66 {
        pattern[i] := c - 0x61 + 10;
      } else {
        ParseHexFirstError(s, i);
        return Some(InvalidCharacter(i, c));
      }
      i := i + 1;
    }
    ParseHexAll(s, pattern[..patternLength]);
    return None;
  }

  /** A line the program writes to the error stream. */
  datatype ErrorLine = UsageText | PatternTooLongText | InvalidCharacterText(position: nat, c: byte)

  /** How a run of the whole program turns out. */
  datatype Outcome =
    | Exit(code: int, errors: seq<ErrorLine>)
    | Searching(workers: nat, patternLength: nat)

  /** `n` copies of the lines one failing worker writes. */
  function Repeat(lines: seq<ErrorLine>, n: nat): (r: seq<ErrorLine>)
    ensures |r| == n * |lines|
    ensures n > 0 ==> r[..|lines|] == lines
    ensures forall e :: e in r ==> e in lines
  {
    if n == 0 then [] else lines + Repeat(lines, n - 1)
  }

  /**
   * The whole program apart from the search: usage errors end it before the
   * fork; otherwise `numProcs` workers start, and each one parses PATTERN
   * itself. If PATTERN has a bad byte every worker writes the usage text
   * and the error and exits, and the parent, having waited for all of them,
   * exits with 1. Otherwise the workers search for ever. Error lines of
   * different workers are shown one worker after another; their real
   * interleaving is not modelled.
   */
  function Program(numProcs: int, speedIters: int, pattern: Option<seq<byte>>): (r: Outcome)
    ensures r.Exit? ==> r.code == 1 && |r.errors| > 0 && r.errors[0] == UsageText
    ensures Validate(numProcs, speedIters, pattern).Usage? <==> r == Exit(1, [UsageText])
    ensures Validate(numProcs, speedIters, pattern).TooLong? <==> r == Exit(1, [UsageText, PatternTooLongText])
    ensures r.Exit? && PatternTooLongText in r.errors ==> Validate(numProcs, speedIters, pattern).TooLong?
    ensures r.Searching? <==>
      var v := Validate(numProcs, speedIters, pattern);
      v.Start? && ParseHex(pattern.value[..v.patternLength]).Ok?
    ensures r.Searching? ==> r.workers == numProcs && r.patternLength <= MAX_PATTERN
    ensures r.Searching? ==> r.patternLength == Validate(numProcs, speedIters, pattern).patternLength
  {
    match Validate(numProcs, speedIters, pattern)
    case Usage => Exit(1, [UsageText])
    case TooLong => Exit(1, [UsageText, PatternTooLongText])
    case Start(procs, _, patternLength) =>
      var arg := pattern.value;
      match ParseHex(arg[..patternLength])
      case Err(p) =>
        var errors := Repeat([UsageText, InvalidCharacterText(p, arg[p])], procs);
        assert PatternTooLongText !in errors;
        Exit(1, errors)
      case Ok(_) => Searching(procs, patternLength)
  }

  /**
   * A bad PATTERN byte is reported once by every worker, with its position,
   * and the program exits with 1.
   */
  lemma BadCharacterPerWorker(numProcs: int, speedIters: int, arg: seq<byte>, p: nat)
    requires numProcs >= 1 && speedIters >= 0 && p < |arg| <= MAX_PATTERN
    requires NibbleOf(arg[p]).None? && forall j :: 0 <= j < p ==> NibbleOf(arg[j]).Some?
    ensures Program(numProcs, speedIters, Some(arg))
         == Exit(1, Repeat([UsageText, InvalidCharacterText(p, arg[p])], numProcs))
  {
    assert arg[..|arg|] == arg;
    ParseHexFirstError(arg, p);
  }
}
