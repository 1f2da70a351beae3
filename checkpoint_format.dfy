/**
 * The binary layout of u.bin and of the checkpoint files: the element count as
 * one 8-byte unsigned integer (size_t), then the elements as 8-byte doubles
 * (IEEE 754-2008 binary64, section 3.4), all in the host's little-endian byte
 * order.  A double is handled here as its 64-bit pattern: the writer is given
 * the function from values to patterns and the reader its inverse.
 */
module CheckpointFormat {

  newtype byte = x: int | 0 <= x < 256

  /** 256 to the power k. */
  function Pow256(k: nat): (p: nat)
    ensures p >= 1
  {
    if k == 0 then 1 else 256 * Pow256(k - 1)
  }

  /** One past the largest 8-byte unsigned integer. */
  const WordLimit: nat := 0x1_0000_0000_0000_0000

  /** An 8-byte unsigned integer: a size_t, or the bit pattern of a double. */
  type Word = x: nat | x < WordLimit

  /** The k low-order bytes of x, least significant first. */
  function LittleEndian(x: nat, k: nat): (bs: seq<byte>)
    ensures |bs| == k
  {
    if k == 0 then [] else [(x % 256) as byte] + LittleEndian(x / 256, k - 1)
  }

  /** The unsigned integer that bs holds, least significant byte first. */
  function Value(bs: seq<byte>): nat
  {
    if bs == [] then 0 else bs[0] as nat + 256 * Value(bs[1..])
  }

  lemma {:induction false} ValueBound(bs: seq<byte>)
    ensures Value(bs) < Pow256(|bs|)
  {
    if bs != [] {
      ValueBound(bs[1..]);
    }
  }

  lemma EightBytes()
    ensures Pow256(8) == WordLimit
  {
  }

  /** Reading back k bytes written for x < 256^k gives x. */
  lemma {:induction false} ValueOfLittleEndian(x: nat, k: nat)
    requires x < Pow256(k)
    ensures Value(LittleEndian(x, k)) == x
  {
    if k > 0 {
      var bs := LittleEndian(x, k);
      assert bs[1..] == LittleEndian(x / 256, k - 1);
      ValueOfLittleEndian(x / 256, k - 1);
    }
  }

  /** The 8-byte word at the start of bs. */
  function ReadWord(bs: seq<byte>): (w: Word)
    requires |bs| >= 8
    ensures w == Value(bs[..8])
  {
    ValueBound(bs[..8]);
    EightBytes();
    Value(bs[..8])
  }

  /** The words laid end to end, 8 bytes each. */
  function EncodeWords(ws: seq<Word>): (bs: seq<byte>)
    ensures |bs| == 8 * |ws|
  {
    if ws == [] then [] else LittleEndian(ws[0], 8) + EncodeWords(ws[1..])
  }

  /**
   * np.fromfile(f, count): up to count whole 8-byte words from the start of
   * bs; it stops early, without failing, when bs runs out.
   */
  function DecodeWords(bs: seq<byte>, count: nat): (ws: seq<Word>)
    ensures |ws| == if count <= |bs| / 8 then count else |bs| / 8
    decreases count
  {
    if count == 0 || |bs| < 8 then [] else [ReadWord(bs)] + DecodeWords(bs[8..], count - 1)
  }

  /** Decoding the encoding of ws, followed by anything, gives ws back. */
  lemma {:induction false} DecodeEncode(ws: seq<Word>, rest: seq<byte>)
    ensures DecodeWords(EncodeWords(ws) + rest, |ws|) == ws
  {
    if ws != [] {
      var bs := EncodeWords(ws) + rest;
      assert bs[..8] == LittleEndian(ws[0], 8);
      EightBytes();
      ValueOfLittleEndian(ws[0], 8);
      assert bs[8..] == EncodeWords(ws[1..]) + rest;
      DecodeEncode(ws[1..], rest);
    }
  }

  /** f applied to every element: the patterns of values, or the values of patterns. */
  function Apply<A, B>(s: seq<A>, f: A -> B): (r: seq<B>)
    ensures |r| == |s| && forall i :: 0 <= i < |s| ==> r[i] == f(s[i])
  {
    seq(|s|, i requires 0 <= i < |s| => f(s[i]))
  }

  /**
   * The writer: fwrite(&count, sizeof(size_t), 1) with count = |data|, then
   * fwrite(data, sizeof(double), count).  The count must fit a size_t.
   */
  function WriteArray<T>(data: seq<T>, bits: T -> Word): (bs: seq<byte>)
    requires |data| < WordLimit
    ensures |bs| == 8 + 8 * |data|
  {
    LittleEndian(|data|, 8) + EncodeWords(Apply(data, bits))
  }

  /** The header of a written file holds the element count, and the body the element patterns in order. */
  lemma WriteArrayLayout<T>(data: seq<T>, bits: T -> Word)
    requires |data| < WordLimit
    ensures ReadWord(WriteArray(data, bits)) == |data|
    ensures DecodeWords(WriteArray(data, bits)[8..], |data|) == Apply(data, bits)
  {
    var bs := WriteArray(data, bits);
    assert bs[..8] == LittleEndian(|data|, 8);
    EightBytes();
    ValueOfLittleEndian(|data|, 8);
    assert bs[8..] == EncodeWords(Apply(data, bits)) + [];
    DecodeEncode(Apply(data, bits), []);
  }
}
