/**
 * What a worker writes to standard output: the three-line block for a match
 * and the decision of when a speed line is due. The speed value itself (a
 * `double` computed from the wall clock) is not part of this model.
 */
module Report {
  import opened Bytes
  import opened Hex

  /**
   * vanity.c line 183: after `count++`, a speed line is due when reporting is on
   * (`speedIters != 0`) and `count` is a multiple of `speedIters`. The
   * arguments are never negative there: `-s` was checked and `count` starts at 0.
   */
  predicate SpeedDue(count: int, speedIters: int)
    requires count >= 0 && speedIters >= 0
    ensures SpeedDue(count, speedIters) && count > 0 ==> speedIters <= count
  {
    if speedIters == 0 then false
    else
      MultipleFacts(count, speedIters);
      count % speedIters == 0
  }

  /** No positive multiple of `d` is below `d`. */
  lemma MultipleFacts(count: nat, d: nat)
    requires d >= 1
    ensures count % d == 0 && count > 0 ==> d <= count
  {
    if count % d == 0 && count > 0 {
      var q := count / d;
      assert count == q * d;
      MulStep(0, q, d);
    }
  }

  /** Speed lines recur with period `-s`: one is due at `count` iff one is due `-s` attempts later. */
  lemma SpeedPeriodic(count: nat, speedIters: nat)
    requires speedIters >= 1
    ensures SpeedDue(count, speedIters) <==> SpeedDue(count + speedIters, speedIters)
  {
    var q, r := count / speedIters, count % speedIters;
    assert count == q * speedIters + r;
    assert count + speedIters == (q + 1) * speedIters + r;
    DivUnique(count + speedIters, speedIters, q + 1, r);
  }

  /**
   * Going from attempt n - 1 to attempt n, the number of whole multiples of
   * `speedIters` reached grows by one exactly when a speed line is due at n,
   * and that line is for the next multiple.
   */
  lemma DueStep(n: nat, speedIters: nat)
    requires n >= 1 && speedIters >= 1
    ensures SpeedDue(n, speedIters) ==> n / speedIters == (n - 1) / speedIters + 1 && n == (n / speedIters) * speedIters
    ensures !SpeedDue(n, speedIters) ==> n / speedIters == (n - 1) / speedIters
  {
    var d := speedIters;
    var q, r := (n - 1) / d, (n - 1) % d;
    DivUnique(n - 1, d, q, r);
    if r + 1 == d {
      assert n == (q + 1) * d + 0 by {
        assert (q + 1) * d == q * d + d;
      }
      DivUnique(n, d, q + 1, 0);
    } else {
      DivUnique(n, d, q, r + 1);
    }
  }

  /** Quotient and remainder are determined by `n == q * d + r` with `0 <= r < d`. */
  lemma DivUnique(n: nat, d: nat, q: nat, r: nat)
    requires 0 <= r < d && n == q * d + r
    ensures n / d == q && n % d == r && n == (n / d) * d + n % d
  {
    var q', r' := n / d, n % d;
    assert n == q' * d + r';
    if q' < q {
      MulStep(q', q, d);
    } else if q' > q {
      MulStep(q, q', d);
    }
  }

  /** A larger multiplier gives a product at least one `d` larger. */
  lemma MulStep(a: nat, b: nat, d: nat)
    requires a < b
    ensures a * d + d <= b * d
  {
    var k := b - a;
    assert b * d == a * d + k * d;
    assert k * d == d + (k - 1) * d;
  }

  /** A labelled `dumpBuffer` line: the label, "0x", the digits, a newline. */
  function Line(caption: string, buffer: seq<byte>): (line: string)
    requires |buffer| < 256
    ensures |line| == |caption| + 2 * |buffer| + 3
    ensures line[..|caption|] == caption && line[|caption|..|caption| + 2] == "0x"
    ensures line[|caption| + 2..|line| - 1] == HexDigits(buffer) && line[|line| - 1] == '\n'
  {
    var out := DumpBuffer(buffer);
    assert (caption + out)[|caption| + 2..|caption| + |out| - 1] == out[2..|out| - 1];
    caption + out
  }

  /**
   * vanity.c lines 171-179: the block written for a match: the private key, the
   * EOA and the contract address, each after its label and rendered by
   * `dumpBuffer`, then an empty line.
   */
  function MatchBlock(privateKey: seq<byte>, eoa: seq<byte>, contract: seq<byte>): (text: string)
    requires |privateKey| == 32 && |eoa| == 20 && |contract| == 20
    ensures |text| == 198
    ensures text[..13] == "Private Key: " && text[13..15] == "0x" && text[15..79] == HexDigits(privateKey)
    ensures text[79] == '\n' && text[80..93] == "EOA Address: " && text[93..95] == "0x"
    ensures text[95..135] == HexDigits(eoa)
    ensures text[135] == '\n' && text[136..154] == "Contract Address: " && text[154..156] == "0x"
    ensures text[156..196] == HexDigits(contract)
    ensures text[196] == '\n' && text[197] == '\n'
  {
    var keyLine := Line("Private Key: ", privateKey);
    var eoaLine := Line("EOA Address: ", eoa);
    var contractLine := Line("Contract Address: ", contract);
    var text := keyLine + eoaLine + contractLine + "\n";
    Layout(text, keyLine, eoaLine, contractLine, HexDigits(privateKey), HexDigits(eoa), HexDigits(contract));
    text
  }

  /** Where the three lines of a match block, and the parts of each, sit in the block. */
  lemma Layout(text: string, keyLine: string, eoaLine: string, contractLine: string,
               keyDigits: string, eoaDigits: string, contractDigits: string)
    requires |keyLine| == 80 && |eoaLine| == 56 && |contractLine| == 61
    requires keyLine[..13] == "Private Key: " && keyLine[13..15] == "0x" && keyLine[15..79] == keyDigits
    requires eoaLine[..13] == "EOA Address: " && eoaLine[13..15] == "0x" && eoaLine[15..55] == eoaDigits
    requires contractLine[..18] == "Contract Address: " && contractLine[18..20] == "0x"
    requires contractLine[20..60] == contractDigits
    requires keyLine[79] == '\n' && eoaLine[55] == '\n' && contractLine[60] == '\n'
    requires text == keyLine + eoaLine + contractLine + "\n"
    ensures |text| == 198
    ensures text[..13] == "Private Key: " && text[13..15] == "0x" && text[15..79] == keyDigits
    ensures text[79] == '\n' && text[80..93] == "EOA Address: " && text[93..95] == "0x"
    ensures text[95..135] == eoaDigits
    ensures text[135] == '\n' && text[136..154] == "Contract Address: " && text[154..156] == "0x"
    ensures text[156..196] == contractDigits
    ensures text[196] == '\n' && text[197] == '\n'
  {
    Within(text, keyLine, 0, 0, 13);
    Within(text, keyLine, 0, 13, 15);
    Within(text, keyLine, 0, 15, 79);
    Within(text, eoaLine, 80, 0, 13);
    Within(text, eoaLine, 80, 13, 15);
    Within(text, eoaLine, 80, 15, 55);
    Within(text, contractLine, 136, 0, 18);
    Within(text, contractLine, 136, 18, 20);
    Within(text, contractLine, 136, 20, 60);
  }

  /** A slice of `line` placed at offset `k` of `text` is the same slice of `text`, shifted by `k`. */
  lemma Within(text: string, line: string, k: nat, i: nat, j: nat)
    requires k + |line| <= |text| && text[k..k + |line|] == line && i <= j <= |line|
    ensures text[k + i..k + j] == line[i..j]
  {
    forall m | 0 <= m < j - i ensures text[k + i..k + j][m] == line[i..j][m] {
      assert line[i + m] == text[k..k + |line|][i + m];
    }
  }

  /**
   * Each printed digit of the match block renders the nibble at the same
   * position: the private key's 64 digits, then the EOA's 40, then the
   * contract address's 40.
   */
  lemma MatchBlockDigits(privateKey: seq<byte>, eoa: seq<byte>, contract: seq<byte>)
    requires |privateKey| == 32 && |eoa| == 20 && |contract| == 20
    ensures forall i :: 0 <= i < 64 ==> MatchBlock(privateKey, eoa, contract)[15 + i] == LowerDigit(Nibbles(privateKey)[i])
    ensures forall i :: 0 <= i < 40 ==> MatchBlock(privateKey, eoa, contract)[95 + i] == LowerDigit(Nibbles(eoa)[i])
    ensures forall i :: 0 <= i < 40 ==> MatchBlock(privateKey, eoa, contract)[156 + i] == LowerDigit(Nibbles(contract)[i])
  {
    var text := MatchBlock(privateKey, eoa, contract);
    forall i | 0 <= i < 64 ensures text[15 + i] == LowerDigit(Nibbles(privateKey)[i]) {
      assert text[15 + i] == text[15..79][i];
      HexDigitsAt(privateKey, i);
    }
    forall i | 0 <= i < 40 ensures text[95 + i] == LowerDigit(Nibbles(eoa)[i]) {
      assert text[95 + i] == text[95..135][i];
      HexDigitsAt(eoa, i);
    }
    forall i | 0 <= i < 40 ensures text[156 + i] == LowerDigit(Nibbles(contract)[i]) {
      assert text[156 + i] == text[156..196][i];
      HexDigitsAt(contract, i);
    }
  }
}
