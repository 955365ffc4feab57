/**
 * One worker: the body of `main` after the fork. It parses PATTERN into its
 * nibble array, seeds the key, writes the RLP header, then repeats: derive
 * the contract address, test it, report a match, count the attempt, report
 * the speed when due, increment the key. The source loops for ever; the
 * model runs a given number of attempts, and every shorter run is a prefix
 * of every longer one.
 */
module Worker {
  import opened Bytes
  import opened Optional
  import opened Hex
  import opened Rlp
  import opened Derive
  import opened Matcher
  import opened KeyCounter
  import opened Report
  import opened Cli

  /** What a worker writes to standard output, one event per block or line. */
  datatype Event =
    | Found(privateKey: seq<byte>, eoa: seq<byte>, contract: seq<byte>)
    | Speed(tried: nat)

  /** The output of attempt number `count` (counting from 1) on `key`. */
  function Attempt(c: Crypto, pattern: seq<Nibble>, speedIters: nat, key: seq<byte>, count: nat)
    : (events: seq<Event>)
    requires |key| == KEY_LENGTH
    ensures |events| <= 2
  {
    var eoa := Eoa(c, key);
    var contract := ContractAddress(c, eoa);
    (if Matches(contract, pattern) then [Found(key, eoa, contract)] else [])
    + (if SpeedDue(count, speedIters) then [Speed(count)] else [])
  }

  /** Everything the first `n` attempts write, starting from `seed`. */
  function Trace(c: Crypto, pattern: seq<Nibble>, speedIters: nat, seed: seq<byte>, n: nat)
    : (events: seq<Event>)
    requires |seed| == KEY_LENGTH
  {
    if n == 0 then []
    else Trace(c, pattern, speedIters, seed, n - 1) + Attempt(c, pattern, speedIters, KeyAt(seed, n - 1), n)
  }

  /**
   * A worker given the PATTERN argument, its checked length, `-s`, the
   * random seed and a number of attempts. A bad PATTERN byte ends it with
   * that byte's position; otherwise it writes exactly the events of `Trace`.
   */
  method Run(c: Crypto, arg: seq<byte>, patternLength: nat, speedIters: nat, seed: seq<byte>, iterations: nat)
    returns (r: Result<seq<Event>, PatternError>)
    requires patternLength <= |arg| && patternLength <= MAX_PATTERN
    requires |seed| == KEY_LENGTH
    ensures ParseHex(arg[..patternLength]).Err? ==>
      var p := ParseHex(arg[..patternLength]).error;
      r == Err(InvalidCharacter(p, arg[p]))
    ensures ParseHex(arg[..patternLength]).Ok? ==>
      r == Ok(Trace(c, ParseHex(arg[..patternLength]).value, speedIters, seed, iterations))
  {
    var pattern := new Nibble[MAX_PATTERN];
    var err := ParsePattern(arg, patternLength, pattern);
    if err.Some? {
      return Err(err.value);
    }
    var events := Search(c, pattern, patternLength, speedIters, seed, iterations);
    return Ok(events);
  }

  /**
   * The search loop proper, from the seeding of the key on: the key starts
   * as `seed` (what `random_buffer` produced), the RLP header is written
   * once, and each round derives, tests, reports and increments.
   */
  method Search(c: Crypto, pattern: array<Nibble>, patternLength: nat, speedIters: nat,
                seed: seq<byte>, iterations: nat)
    returns (events: seq<Event>)
    requires pattern.Length == MAX_PATTERN && patternLength <= MAX_PATTERN
    requires |seed| == KEY_LENGTH
    ensures events == Trace(c, pattern[..patternLength], speedIters, seed, iterations)
  {
    var privateKey := new byte[KEY_LENGTH];
    Store(privateKey, seed);
    var rlp := new byte[RLP_LENGTH];
    WriteHeader(rlp);
    var publicKey := new byte[64];
    var hash := new byte[32];
    events := Loop(c, privateKey, publicKey, hash, rlp, pattern, patternLength, speedIters, iterations);
  }

  /** The `while` loop of the worker, run for `iterations` rounds. */
  method Loop(c: Crypto, privateKey: array<byte>, publicKey: array<byte>, hash: array<byte>,
              rlp: array<byte>, pattern: array<Nibble>, patternLength: nat, speedIters: nat, iterations: nat)
    returns (events: seq<Event>)
    requires privateKey.Length == KEY_LENGTH && publicKey.Length == 64
    requires hash.Length == 32 && rlp.Length == RLP_LENGTH
    requires privateKey != publicKey && privateKey != hash && privateKey != rlp
    requires HasHeader(rlp[..])
    requires pattern.Length == MAX_PATTERN && patternLength <= MAX_PATTERN
    modifies privateKey, publicKey, hash, rlp
    ensures events == Trace(c, pattern[..patternLength], speedIters, old(privateKey[..]), iterations)
    ensures privateKey[..] == KeyAt(old(privateKey[..]), iterations) && HasHeader(rlp[..])
  {
    ghost var seed := privateKey[..];
    ghost var nibbles := pattern[..patternLength];
    events := [];
    var count := 0;
    while count < iterations
      invariant 0 <= count <= iterations
      invariant HasHeader(rlp[..])
      invariant privateKey[..] == KeyAt(seed, count)
      invariant events == Trace(c, nibbles, speedIters, seed, count)
    {
      var attempt := TryKey(c, privateKey, publicKey, hash, rlp, pattern, patternLength, speedIters, count + 1,
                            nibbles, KeyAt(seed, count));
      events := events + attempt;
      count := count + 1;
    }
  }

  /**
   * One round of the loop: derive the addresses of the current key, test the
   * contract address, write the match block and the speed line when they are
   * due (`count` already incremented), then increment the key. The ghost
   * arguments name the pattern and the key that the arrays hold.
   */
  method TryKey(c: Crypto, privateKey: array<byte>, publicKey: array<byte>, hash: array<byte>,
                rlp: array<byte>, pattern: array<Nibble>, patternLength: nat, speedIters: nat, count: nat,
                ghost nibbles: seq<Nibble>, ghost key: seq<byte>)
    returns (attempt: seq<Event>)
    requires privateKey.Length == KEY_LENGTH && publicKey.Length == 64
    requires hash.Length == 32 && rlp.Length == RLP_LENGTH
    requires privateKey != publicKey && privateKey != hash && privateKey != rlp
    requires HasHeader(rlp[..])
    requires pattern.Length == MAX_PATTERN && patternLength <= MAX_PATTERN
    requires nibbles == pattern[..patternLength] && key == privateKey[..]
    modifies privateKey, publicKey, hash, rlp
    ensures HasHeader(rlp[..]) && privateKey[..] == NextKey(key)
    ensures attempt == Attempt(c, nibbles, speedIters, key, count)
  {
    DeriveAddresses(c, privateKey, publicKey, hash, rlp);
    var found := MatchPattern(hash, pattern, patternLength);
    attempt := [];
    if found {
      attempt := [Found(privateKey[..], rlp[2..2 + ADDRESS_LENGTH], hash[12..])];
    }
    if speedIters != 0 && count % speedIters == 0 {
      attempt := attempt + [Speed(count)];
    }
    IncrementKey(privateKey);
  }

  /** A shorter run writes a prefix of what a longer one writes. */
  lemma {:induction false} TracePrefix(c: Crypto, pattern: seq<Nibble>, speedIters: nat, seed: seq<byte>, m: nat, n: nat)
    requires |seed| == KEY_LENGTH && m <= n
    ensures Trace(c, pattern, speedIters, seed, m) <= Trace(c, pattern, speedIters, seed, n)
  {
    if m < n {
      TracePrefix(c, pattern, speedIters, seed, m, n - 1);
    }
  }

  /**
   * Every reported match is genuine: its key is one of the keys tried, its
   * EOA and contract address are derived from that key, and the contract
   * address starts with the pattern.
   */
  lemma {:induction false} FoundIsMatch(c: Crypto, pattern: seq<Nibble>, speedIters: nat, seed: seq<byte>,
                                        n: nat, e: Event)
    requires |seed| == KEY_LENGTH
    requires e in Trace(c, pattern, speedIters, seed, n) && e.Found?
    ensures exists j :: 0 <= j < n && e.privateKey == KeyAt(seed, j)
    ensures |e.privateKey| == KEY_LENGTH && e.eoa == Eoa(c, e.privateKey)
    ensures e.contract == ContractAddress(c, e.eoa) && Matches(e.contract, pattern)
  {
    assert n > 0;
    var last := Attempt(c, pattern, speedIters, KeyAt(seed, n - 1), n);
    assert Trace(c, pattern, speedIters, seed, n) == Trace(c, pattern, speedIters, seed, n - 1) + last;
    if e !in Trace(c, pattern, speedIters, seed, n - 1) {
      assert e in last;
      assert e.privateKey == KeyAt(seed, n - 1);
    } else {
      FoundIsMatch(c, pattern, speedIters, seed, n - 1, e);
    }
  }

  /** No match is missed: every tried key whose contract address matches is reported. */
  lemma {:induction false} MatchIsFound(c: Crypto, pattern: seq<Nibble>, speedIters: nat, seed: seq<byte>,
                                        n: nat, j: nat)
    requires |seed| == KEY_LENGTH && j < n
    requires Matches(ContractAddress(c, Eoa(c, KeyAt(seed, j))), pattern)
    ensures var key := KeyAt(seed, j);
      Found(key, Eoa(c, key), ContractAddress(c, Eoa(c, key))) in Trace(c, pattern, speedIters, seed, n)
  {
    if j < n - 1 {
      MatchIsFound(c, pattern, speedIters, seed, n - 1, j);
    }
  }

  /**
   * A speed line for attempt t is written exactly when t is among the
   * attempts made and reporting is due at t.
   */
  lemma {:induction false} SpeedLines(c: Crypto, pattern: seq<Nibble>, speedIters: nat, seed: seq<byte>,
                                      n: nat, t: nat)
    requires |seed| == KEY_LENGTH
    ensures Speed(t) in Trace(c, pattern, speedIters, seed, n) <==> 1 <= t <= n && SpeedDue(t, speedIters)
  {
    if n > 0 {
      SpeedLines(c, pattern, speedIters, seed, n - 1, t);
      var last := Attempt(c, pattern, speedIters, KeyAt(seed, n - 1), n);
      assert Speed(t) in last <==> t == n && SpeedDue(n, speedIters);
    }
  }

  /**
   * The printed contract address of a reported match begins with the
   * typed PATTERN, digit for digit, in lower case.
   */
  lemma PrintedMatch(c: Crypto, arg: seq<byte>, pattern: seq<Nibble>, speedIters: nat, seed: seq<byte>,
                     n: nat, e: Event)
    requires |seed| == KEY_LENGTH && |arg| <= MAX_PATTERN
    requires ParseHex(arg) == Ok(pattern)
    requires e in Trace(c, pattern, speedIters, seed, n) && e.Found?
    ensures |e.privateKey| == KEY_LENGTH && |e.eoa| == 20 && |e.contract| == 20
    ensures forall i :: 0 <= i < |arg| ==>
      MatchBlock(e.privateKey, e.eoa, e.contract)[156 + i] == LowerDigit(pattern[i])
      && NibbleOf(MatchBlock(e.privateKey, e.eoa, e.contract)[156 + i] as int) == NibbleOf(arg[i])
  {
    FoundIsMatch(c, pattern, speedIters, seed, n, e);
    MatchBlockDigits(e.privateKey, e.eoa, e.contract);
    MatchesIsPrefix(e.contract, pattern);
    forall i | 0 <= i < |arg| ensures Nibbles(e.contract)[i] == pattern[i] {
    }
  }

  /** The attempt counts of the speed lines among `events`, in order. */
  function SpeedsIn(events: seq<Event>): (tried: seq<nat>)
    ensures |tried| <= |events|
  {
    if events == [] then []
    else
      var last := events[|events| - 1];
      SpeedsIn(events[..|events| - 1]) + (if last.Speed? then [last.tried] else [])
  }

  lemma {:induction false} SpeedsInAppend(a: seq<Event>, b: seq<Event>)
    ensures SpeedsIn(a + b) == SpeedsIn(a) + SpeedsIn(b)
  {
    if b == [] {
      assert a + b == a;
    } else {
      var b' := b[..|b| - 1];
      assert (a + b)[..|a + b| - 1] == a + b';
      assert (a + b)[|a + b| - 1] == b[|b| - 1];
      SpeedsInAppend(a, b');
    }
  }

  /** One attempt writes a speed line for its own count exactly when one is due. */
  lemma SpeedsOfAttempt(c: Crypto, pattern: seq<Nibble>, speedIters: nat, key: seq<byte>, count: nat)
    requires |key| == KEY_LENGTH
    ensures SpeedsIn(Attempt(c, pattern, speedIters, key, count)) == if SpeedDue(count, speedIters) then [count] else []
  {
    var eoa := Eoa(c, key);
    var contract := ContractAddress(c, eoa);
    var found: seq<Event> := if Matches(contract, pattern) then [Found(key, eoa, contract)] else [];
    var speed: seq<Event> := if SpeedDue(count, speedIters) then [Speed(count)] else [];
    assert Attempt(c, pattern, speedIters, key, count) == found + speed;
    SpeedsInAppend(found, speed);
    assert found == [] || found[..0] == [];
    assert speed == [] || speed[..0] == [];
  }

  /** The first q positive multiples of `d`, in increasing order. */
  function Multiples(q: nat, d: nat): (r: seq<nat>)
    ensures |r| == q && forall k :: 0 <= k < q ==> r[k] == (k + 1) * d
  {
    if q == 0 then [] else Multiples(q - 1, d) + [q * d]
  }

  /**
   * With `-s 0` a worker writes no speed line; with `-s N`, N > 0, the speed
   * lines of the first n attempts are for attempts N, 2N, ..., in that
   * order, n / N of them.
   */
  lemma {:induction false} SpeedSchedule(c: Crypto, pattern: seq<Nibble>, speedIters: nat, seed: seq<byte>, n: nat)
    requires |seed| == KEY_LENGTH
    ensures speedIters == 0 ==> SpeedsIn(Trace(c, pattern, speedIters, seed, n)) == []
    ensures speedIters > 0 ==> SpeedsIn(Trace(c, pattern, speedIters, seed, n)) == Multiples(n / speedIters, speedIters)
  {
    if n > 0 {
      SpeedSchedule(c, pattern, speedIters, seed, n - 1);
      SpeedsInAppend(Trace(c, pattern, speedIters, seed, n - 1), Attempt(c, pattern, speedIters, KeyAt(seed, n - 1), n));
      SpeedsOfAttempt(c, pattern, speedIters, KeyAt(seed, n - 1), n);
      if speedIters > 0 {
        DueStep(n, speedIters);
      }
    }
  }
}
