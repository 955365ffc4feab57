# vanity-contract, modelled in Dafny

`vanity-contract PATTERN [-s N] [-f P]` searches for an Ethereum private key
whose first contract (the one its account deploys at nonce 0) gets an address
that starts with the hex digits PATTERN. The program is a single C file,
`vanity.c`. It checks its arguments, forks P workers, and each worker runs
the same loop for ever:

1. compute the public key of the current private key (secp256k1);
2. take the last 20 bytes of its Keccak-256 hash (the account address, EOA);
3. put that address into a fixed 23-byte RLP buffer for the list [EOA, 0];
4. take the last 20 bytes of the buffer's Keccak-256 (the contract address);
5. compare it with the pattern nibble by nibble;
6. print the key and both addresses on a match;
7. print a speed line every N attempts;
8. add one to the key.

This project models the argument checks, the pattern parse, the RLP buffer,
the derivation pipeline, the matcher, the key increment, and the reporting
decisions and hex text. It also models one worker's loop, run for a given
number of attempts and proved equal to a specification of what the worker
prints.

Modules, one per file:

- `Optional` (optional.dfy): Option and Result.
- `Bytes` (bytes.dfy): `byte` (0..255), `Nibble` (0..15), and the big-endian value of a byte string.
- `Hex` (hex.dfy): the value of each PATTERN byte, the `%02x` digits, `dumpBuffer`, and the nibble view of a byte string.
- `Cli` (cli.dfy): argument validation, the pattern-parse loop, and how the whole program ends.
- `Rlp` (rlp.dfy): the 23-byte buffer, its two in-place writes, and a short-form RLP reference encoder (Appendix B of the Ethereum Yellow Paper).
- `Derive` (derive.dfy): EOA and contract address. Keccak-256 and scalar multiplication are the two functions of a `Crypto` value, and their result types fix the lengths (32 and 64 bytes).
- `Matcher` (matcher.dfy): the nibble-prefix test and the C index loop proved against it.
- `KeyCounter` (key_counter.dfy): the carry loop on the key array and its meaning as +1 modulo 2^248.
- `Report` (report.dfy): when a speed line is due, and the text of a match block.
- `Worker` (worker.dfy): one worker from its pattern parse on, with soundness and completeness of what it reports.

Where the code and the usual description of the tool disagree, the model follows the code:

- The increment loop stops before byte 0, so byte 0 of the key never changes. When bytes 1..31 are all 0xFF, the next increment sets them all to zero instead of carrying into byte 0 (`KeyCounter.IncWrap`, `KeyCounter.NextKeyValue`). So the key comes back to the seed after exactly 2^248 rounds, and no key repeats before that (`KeyCounter.KeyAtValue`, `KeyCounter.KeysDistinct`).
- No key is skipped. A key that is 0 or at least the curve order still goes to scalar multiplication. `Crypto.mulG` is total, so the model passes such a key on as well.
- PATTERN characters are checked after the fork, by every worker. So a bad character is printed once per worker, and the parent exits with 1 after waiting for all of them (`Cli.Program`, `Cli.BadCharacterPerWorker`).
- Every ending the model covers exits with code 1: a usage error, a PATTERN that is too long, and the parent after its workers end. A failing `fork` is the exception and is not modelled (see below).
- PATTERN is a byte string, the bytes of the argument before its terminating NUL. Its length and its digits are counted and checked byte by byte, as `strlen` and the `uint8_t` loop do. A non-ASCII character therefore counts as several characters, and an error names its first byte.
- The pattern length is `strlen` stored in an `uint32_t`, so it is taken modulo 2^32 (`Cli.Validate`). For arguments shorter than 2^32 bytes, which is every argument an operating system passes, this is the plain length (`Cli.LengthCheck`).

## Model

| member | source | states |
|---|---|---|
| `Cli.Validate` | vanity.c:56-66 | Usage error exactly when `-f` < 1, `-s` < 0 or PATTERN is missing. Otherwise too long exactly when the byte length, kept in 32 bits, is over 40. A start carries the checked values and a length that is at most 40 and at most the argument's byte length. |
| `Cli.LengthCheck` | vanity.c:61-66 | For any real argument, PATTERN is rejected as too long iff it has more than 40 bytes, and the workers start iff it has at most 40. |
| `Hex.NibbleOf` | vanity.c:83-94 | A byte has value n iff it is the code of the lower- or upper-case hex digit for n. So 0x30..0x39 give 0..9, 0x41..0x46 and 0x61..0x66 give 10..15, and every other byte is rejected. |
| `Hex.ParseHex` | vanity.c:82-95 | Success gives one nibble per byte, each the byte's value. Failure gives the first position whose byte is not a hex digit; every earlier byte is a hex digit. |
| `Cli.ParsePattern` | vanity.c:81-95 | The parse loop succeeds iff `ParseHex` does. Then the first `patternLength` array entries are the parsed nibbles and the rest are unchanged. On failure it returns the first bad position and its byte; the entries before it are filled and the entries from it on are unchanged. |
| `Hex.ParseHexFirstError` | vanity.c:90-94 | When every byte before p is a hex digit and the one at p is not, the parse fails at exactly p. |
| `Hex.ParseHexAll` | vanity.c:82-89 | When every byte is a hex digit, the parse returns exactly their values. |
| `Cli.Program` | vanity.c:56-95 | Every ending it covers exits with code 1, and its first error line is the usage text. A usage error writes exactly the usage text. Exactly when PATTERN is too long it writes the usage text and the length error. The length error appears in no other outcome. The workers search iff the pre-fork checks pass and PATTERN parses; then there are `-f` workers, and they compare the number of digits `Validate` measured (for any real argument its byte length), at most 40. |
| `Cli.BadCharacterPerWorker` | vanity.c:70-95 | A bad PATTERN byte at position p makes each of the P workers write the usage text and the error naming p and that byte, and the program exits with 1. |
| `Rlp.RlpOf` | vanity.c:105-119 | The buffer for an address is 23 bytes: 0xD6, 0x94, the 20 address bytes, then 0x80. |
| `Rlp.HeaderAndAddress` | vanity.c:105-119 | A buffer with the three header bytes in place is exactly the encoding of the 20 bytes it holds at 2..21. |
| `Rlp.RlpOfIsListEncoding` | vanity.c:107-119 | The buffer equals the reference RLP encoding of the two-item list [20-byte address, integer 0]. |
| `Rlp.EncodeString` | vanity.c:113-119 | The short-form RLP string encoding exists iff the string is shorter than 56 bytes. A single byte below 0x80 is its own encoding; any other such string is 0x80 + length followed by its bytes. |
| `Rlp.EncodeList` | vanity.c:107-111 | The short-form list encoding exists iff the payload is under 56 bytes, and it is 0xC0 + payload length followed by the payload. |
| `Rlp.ScalarBytes` | vanity.c:118-119 | RLP's integer bytes are the big-endian bytes of the value with no leading zero byte. They are empty exactly for 0, which is how nonce 0 becomes the empty string 0x80. |
| `Rlp.WriteHeader` | vanity.c:111-119 | Writes 0xD6 at 0, 0x94 at 1 and 0x80 at 22, and leaves bytes 2..21 as they were. |
| `Rlp.PlaceAddress` | vanity.c:146 | The copy makes the buffer equal its old two header bytes, then bytes 12..31 of the digest, then its old last byte. |
| `Derive.Eoa` | vanity.c:134-143 | The account address of a key is 20 bytes. |
| `Derive.ContractAddress` | vanity.c:148-151 | The contract address of an account is 20 bytes. |
| `Derive.Store` | vanity.c:137-143 | A buffer written by a library call (`bn_write_be`, `keccak_Final`, `random_buffer`) holds exactly the value written. |
| `Derive.DeriveAddresses` | vanity.c:134-151 | One pass leaves the public key of the key in `publicKey` and the encoding of the key's EOA in the RLP buffer (headers kept). It leaves the digest of that buffer in `hash`, whose last 20 bytes are the key's contract address. |
| `Matcher.Matches` | vanity.c:154-168 | Byte-by-byte definition of a match: entry 2k is the high half of address byte k, entry 2k+1 its low half. A matching pattern is never longer than the address's digits. |
| `Matcher.MatchesIsPrefix` | vanity.c:153-168 | The byte-wise definition of a match is the same as the pattern being a prefix of the address's nibble sequence. |
| `Matcher.MatchPattern` | vanity.c:154-168 | The C loop reports a match iff the first `patternLength` pattern entries match the last 20 bytes of the digest. Every index it reads (12 + i/2, with i < 40) is inside the 32-byte digest, and the first mismatch gives no match. |
| `Matcher.SingleDigit` | vanity.c:155-166 | A one-digit pattern n matches iff the high half of the first address byte is n, whatever the low half. |
| `Matcher.MatchesAt` | vanity.c:155-161 | A pattern matches iff every entry i equals the high half of byte i/2 for even i and the low half for odd i. |
| `Matcher.EmptyPatternMatches` | vanity.c:154-155 | The empty pattern matches every address. |
| `Matcher.PrintedPrefixMatches` | vanity.c:15-21 | A PATTERN typed, in either case, from the first digits that `dumpBuffer` prints for an address matches that address. |
| `Hex.Nibbles` | vanity.c:156-161 | An address has two nibbles per byte. |
| `Hex.NibbleAt` | vanity.c:156-161 | Nibble i is the high half of byte i/2 when i is even and its low half when i is odd. |
| `Hex.LowerDigit` | vanity.c:18 | `%x` prints every nibble as '0'..'9' or 'a'..'f'. |
| `Hex.HexDigits` | vanity.c:17-19 | Two digits are printed per byte, each '0'..'9' or 'a'..'f'. |
| `Hex.HexDigitsAt` | vanity.c:17-19 | Printed digit i is the lower-case digit of nibble i, so high half before low half. |
| `Hex.DumpBuffer` | vanity.c:15-21 | The output is "0x", two lower-case hex digits per byte (digit i renders nibble i), then a newline: 2·length + 3 characters. |
| `Hex.ParseHexDigits` | vanity.c:15-21 | Parsing the bytes of a buffer's printed digits as a PATTERN gives back exactly its nibbles. |
| `KeyCounter.Inc` | vanity.c:191-194 | Incrementing keeps the length of the byte string. |
| `KeyCounter.IncValue` | vanity.c:191-194 | Incrementing adds one to the big-endian value, wrapping to 0 only from the largest value. |
| `KeyCounter.IncCarry` | vanity.c:191-194 | The carry stops at the last byte below 0xFF. That byte goes up by one, all bytes after it become 0, and all bytes before it are kept. |
| `KeyCounter.IncWrap` | vanity.c:191-194 | When every byte is 0xFF, every byte becomes 0. |
| `KeyCounter.NextKey` | vanity.c:191-194 | The next key is again 32 bytes. |
| `KeyCounter.NextKeyValue` | vanity.c:191-194 | One increment keeps byte 0 and adds one to the value of bytes 1..31 modulo 2^248. |
| `KeyCounter.IncrementKey` | vanity.c:190-194 | The in-place carry loop leaves exactly the next key in the array. |
| `KeyCounter.KeyAt` | vanity.c:131-195 | The key tried in every round is 32 bytes. |
| `KeyCounter.KeyAtValue` | vanity.c:131-195 | After k rounds, byte 0 is the seeded byte and bytes 1..31 hold the seed's value plus k, modulo 2^248. |
| `KeyCounter.KeysDistinct` | vanity.c:131-195 | Two rounds fewer than 2^248 apart try different keys. |
| `Report.SpeedDue` | vanity.c:183 | A speed line is due after attempt `count` when `-s` is not 0 and divides `count`; the first one after attempt 0 is never before attempt N. |
| `Report.SpeedPeriodic` | vanity.c:183 | With `-s N`, N > 0, a speed line is due at `count` iff one is due at `count + N`. |
| `Report.DueStep` | vanity.c:182-183 | From attempt n - 1 to n, the count of whole multiples of N reached grows by one exactly when a line is due at n, and then n is that multiple. |
| `Report.MatchBlock` | vanity.c:171-179 | The match block is 198 characters: "Private Key: 0x" and the key's 64 digits, then a newline. Next "EOA Address: 0x" and the EOA's 40 digits, then a newline, then "Contract Address: 0x" and the contract address's 40 digits. Last come the line's newline and the empty line. Each run of digits is the `%02x` rendering of its buffer. |
| `Report.MatchBlockDigits` | vanity.c:171-179 | Each printed digit of the key, the EOA and the contract address is the lower-case digit of the nibble at the same position. |
| `Worker.Attempt` | vanity.c:133-188 | One attempt writes at most two events: the match block for its key if the contract address matches, then the speed line for its count if one is due. |
| `Worker.Trace` | vanity.c:131-195 | What the first n attempts write, from the seed: each attempt's events after those of the attempts before it. |
| `Worker.Run` | vanity.c:81-195 | A worker whose PATTERN has a bad byte stops with that position and byte. Otherwise it writes exactly `Trace` of the parsed pattern, `-s`, the seed and the number of rounds. |
| `Worker.Search` | vanity.c:97-195 | Starting from the seed, with the RLP header written once, the loop writes exactly `Trace` of the pattern's first `patternLength` entries. |
| `Worker.Loop` | vanity.c:131-195 | The `while` loop, for the given number of rounds, writes the `Trace` of the key it started with. It leaves the key n increments on and the RLP headers in place. |
| `Worker.TryKey` | vanity.c:133-194 | One round writes the events `Attempt` prescribes for the current key and count, keeps the RLP headers and leaves exactly the next key (`NextKey`) in the key array. |
| `Worker.TracePrefix` | vanity.c:132 | What a shorter run writes is a prefix of what a longer run writes, so bounded runs are the beginnings of the endless one. |
| `Worker.FoundIsMatch` | vanity.c:170-179 | Every reported match is genuine. Its key is one of the keys tried, its EOA and contract address derive from that key, and the contract address matches the pattern. |
| `Worker.MatchIsFound` | vanity.c:170-179 | Every tried key whose contract address matches the pattern is reported with its EOA and contract address. |
| `Worker.SpeedLines` | vanity.c:181-188 | A speed line for attempt t is written iff t is among the attempts made and a line is due at t. |
| `Worker.SpeedsOfAttempt` | vanity.c:181-188 | An attempt writes a speed line for its own count exactly when one is due, and no other. |
| `Worker.SpeedSchedule` | vanity.c:181-188 | With `-s 0` no speed line is written. With `-s N`, N > 0, the first n attempts write speed lines for attempts N, 2N, ..., in that order, n / N of them. |
| `Worker.PrintedMatch` | vanity.c:171-177 | In every reported match block, the printed contract address starts, digit for digit, with the typed PATTERN in lower case. |

## Left out

- Keccak-256 and secp256k1 scalar multiplication (with the `bn_read_be`/`bn_write_be` conversions) are library code. They are the functions `keccak` and `mulG` of a `Crypto` value, and only their output lengths are known.
- `random_buffer` is external entropy. The first key is a 32-byte `seed` parameter.
- `fork`, `wait` and the concurrency between workers are not modelled. `Cli.Program` records only the outcome: P workers, the parent exiting with 1, and each failing worker's error lines listed one worker after another rather than interleaved.
- A failing `fork` is not modelled. In that case `main` returns -1 (exit status 255) while the workers forked before it keep running.
- `getopt` and `atol` mechanics are not modelled: the model starts from the numeric values of `-s` and `-f` and from the PATTERN argument if there is one. The unknown-option exit (usage, code 1) is not modelled separately.
- `setlinebuf` and the writing of text to the streams are libc I/O. The model gives the text of a match block and the decision to write a speed line. The usage text itself is a token.
- `currTimeMicros`, `lastTime` and the `double` speed value are not modelled (wall clock and floating point). Neither is the process id in the speed line. A speed line is modelled only by its attempt count.
- The `while (1)` loop is run for a given number of rounds; `Worker.TracePrefix` ties these bounded runs to the endless one.
- The `long` attempt counter is unbounded in the model; its overflow after 2^63 attempts is not modelled.
- Worker.Attempt: its own contract gives only the number of events; what they are is stated over whole runs by `Worker.FoundIsMatch`, `Worker.MatchIsFound`, `Worker.SpeedLines` and `Worker.SpeedSchedule`.
- Rlp.EncodeString: the long form for strings of 56 bytes or more is not modelled, because the buffer only ever encodes a 20-byte string and an empty one.
- Rlp.EncodeList: the long form for payloads of 56 bytes or more is not modelled, because the buffer's payload is 22 bytes.
