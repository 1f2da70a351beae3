/**
 * Checkpoint file names of the OpenMP Poisson solvers: sprintf(filename,
 * "u%06d.bin", it) prints "u", the iteration number in decimal padded on the
 * left with zeros to at least six digits, then ".bin", into a char[20].
 */
module CheckpointName {

  /** A file written by write_array (or fwrite): its name and the values it holds, in order. */
  datatype ArrayFile = ArrayFile(name: string, data: seq<real>)

  predicate IsDigit(c: char)
  {
    '0' <= c <= '9'
  }

  function DigitChar(d: nat): (c: char)
    requires d < 10
    ensures IsDigit(c) && c as int - '0' as int == d
  {
    ('0' as int + d) as char
  }

  function DigitValue(c: char): (d: nat)
    requires IsDigit(c)
    ensures d < 10
  {
    c as int - '0' as int
  }

  /** Decimal notation of x without leading zeros ("0" for zero), as %d prints it. */
  function Decimal(x: nat): (s: string)
    ensures 1 <= |s| && forall k :: 0 <= k < |s| ==> IsDigit(s[k])
  {
    if x < 10 then [DigitChar(x)] else Decimal(x / 10) + [DigitChar(x % 10)]
  }

  /** The zero padding of the %06d conversion: zeros in front up to `width` characters. */
  function PadWithZeros(s: string, width: nat): (r: string)
    ensures |r| == if |s| < width then width else |s|
    ensures r[|r| - |s|..] == s
    ensures forall k :: 0 <= k < |r| - |s| ==> r[k] == '0'
  {
    if |s| < width then seq(width - |s|, _ => '0') + s else s
  }

  /** The number a digit string denotes. */
  function DigitsValue(s: string): nat
    requires forall k :: 0 <= k < |s| ==> IsDigit(s[k])
  {
    if s == [] then 0 else DigitsValue(s[..|s| - 1]) * 10 + DigitValue(s[|s| - 1])
  }

  /** The name of the checkpoint written after iteration `it`. */
  function FileName(it: nat): (name: string)
    ensures |name| >= 11 && name[0] == 'u' && name[|name| - 4..] == ".bin"
    ensures forall k :: 1 <= k < |name| - 4 ==> IsDigit(name[k])
  {
    "u" + PadWithZeros(Decimal(it), 6) + ".bin"
  }

  /** The digit field of a checkpoint name. */
  function DigitField(name: string): string
    requires |name| >= 5
  {
    name[1..|name| - 4]
  }

  /** Reading back the decimal notation of x gives x. */
  lemma {:induction false} DecimalRoundTrip(x: nat)
    ensures DigitsValue(Decimal(x)) == x
  {
    if x >= 10 {
      var s := Decimal(x);
      assert s[..|s| - 1] == Decimal(x / 10);
      DecimalRoundTrip(x / 10);
    }
  }

  /** Leading zeros do not change the number a digit string denotes. */
  lemma {:induction false} LeadingZerosIgnored(z: nat, s: string)
    requires forall k :: 0 <= k < |s| ==> IsDigit(s[k])
    ensures DigitsValue(seq(z, _ => '0') + s) == DigitsValue(s)
  {
    var t := seq(z, _ => '0') + s;
    if s == [] {
      assert t == seq(z, _ => '0');
      AllZerosDenoteZero(z);
    } else {
      assert t[..|t| - 1] == seq(z, _ => '0') + s[..|s| - 1];
      LeadingZerosIgnored(z, s[..|s| - 1]);
    }
  }

  lemma {:induction false} AllZerosDenoteZero(z: nat)
    ensures DigitsValue(seq(z, _ => '0')) == 0
  {
    if z > 0 {
      assert seq(z, _ => '0')[..z - 1] == seq(z - 1, _ => '0');
      AllZerosDenoteZero(z - 1);
    }
  }

  /** The digit field of FileName(it) denotes it: the name identifies the iteration. */
  lemma FileNameRoundTrip(it: nat)
    ensures DigitsValue(DigitField(FileName(it))) == it
  {
    var d := Decimal(it);
    var p := PadWithZeros(d, 6);
    assert DigitField(FileName(it)) == p;
    if |d| < 6 {
      LeadingZerosIgnored(6 - |d|, d);
    }
    DecimalRoundTrip(it);
  }

  /** Different iterations get different checkpoint files. */
  lemma FileNameInjective(a: nat, b: nat)
    requires FileName(a) == FileName(b)
    ensures a == b
  {
    FileNameRoundTrip(a);
    FileNameRoundTrip(b);
  }

  /** Numbers below 10^k have at most k digits. */
  lemma {:induction false} DecimalLength(x: nat, k: nat, bound: nat)
    requires 1 <= k && bound == Pow10(k) && x < bound
    ensures |Decimal(x)| <= k
  {
    if x >= 10 {
      assert k >= 2;
      DecimalLength(x / 10, k - 1, Pow10(k - 1));
    }
  }

  function Pow10(k: nat): (p: nat)
    ensures p >= 1
  {
    if k == 0 then 1 else 10 * Pow10(k - 1)
  }

  /**
   * Every iteration number a C int can hold (below 2^31 < 10^10) gives a name
   * of at most 15 characters, which with its terminating NUL fits the char[20]
   * buffer the solver prints into.
   */
  lemma FileNameFitsBuffer(it: nat)
    requires it < 0x8000_0000
    ensures |FileName(it)| + 1 <= 20
  {
    assert Pow10(10) == 10_000_000_000;
    DecimalLength(it, 10, Pow10(10));
  }

  /** The first checkpoint file is "u000000.bin". */
  lemma FirstFileName()
    ensures FileName(0) == "u000000.bin"
  {
    assert PadWithZeros("0", 6) == "000000";
  }

  /** The checkpoint of iteration 1000 is "u001000.bin". */
  lemma ThousandthFileName()
    ensures FileName(1000) == "u001000.bin"
  {
    assert Decimal(1000) == "1000" by {
      assert Decimal(1) == "1";
      assert Decimal(10) == "10";
      assert Decimal(100) == "100";
    }
    assert PadWithZeros("1000", 6) == "001000";
  }
}
