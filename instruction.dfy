/**
 * The Instruction entity and its wire codec (Instruction::tostring and the
 * decoding constructor Instruction(string&) of networkinstruction.cpp).
 *
 * Wire layout, every integer big-endian:
 *   offset  0  old_num        8 bytes
 *   offset  8  new_num        8 bytes
 *   offset 16  ack_num        8 bytes
 *   offset 24  throwaway_num  8 bytes
 *   offset 32  final << 15 | fragment_num, 2 bytes
 *   offset 34  diff, to the end of the record
 */
module Instructions {

  import opened Bytes
  import opened Results

  /** Length of the fixed header (inst_header_len). */
  const HeaderLen: nat := 34

  /** Bit 15 of the fragment word carries the `final` flag. */
  const FinalBit: nat := 0x8000

  datatype Instruction = Instruction(
    oldNum: uint64,
    newNum: uint64,
    ackNum: uint64,
    throwawayNum: uint64,
    fragmentNum: uint16,
    final: bool,
    diff: seq<byte>)

  datatype DecodeError = TruncatedHeader

  /** network_order_string(uint64_t): the eight bytes of x in network order. */
  function NetworkOrder64(x: uint64): (r: seq<byte>)
    ensures |r| == 8 && FromBigEndian(r) == x
  {
    Pow256Widths();
    BigEndian(x, 8)
  }

  /** network_order_string(uint16_t): the two bytes of x in network order. */
  function NetworkOrder16(x: uint16): (r: seq<byte>)
    ensures |r| == 2 && FromBigEndian(r) == x
  {
    Pow256Widths();
    BigEndian(x, 2)
  }

  /**
   * The 16-bit word `(final << 15) | fragment_num`.  Because the fragment
   * number is below 0x8000, the shift-and-or is the sum written here.
   */
  function PackFragmentWord(final: bool, fragmentNum: uint16): (w: uint16)
    requires fragmentNum < FinalBit
    ensures w / FinalBit == (if final then 1 else 0)
    ensures w % FinalBit == fragmentNum
  {
    (if final then FinalBit else 0) + fragmentNum
  }

  /**
   * Splits a 16-bit word into `(w & 0x8000) >> 15` and `w & 0x7FFF`: the
   * top bit and the low fifteen bits.  Packing the two parts again gives w.
   */
  function UnpackFragmentWord(w: uint16): (p: (bool, uint16))
    ensures p.1 < FinalBit
    ensures PackFragmentWord(p.0, p.1) == w
  {
    (w / FinalBit == 1, w % FinalBit)
  }

  /**
   * Instruction::tostring.  The caller must keep the fragment number within
   * fifteen bits (the assertion on `fragment_num & 0x8000`).
   */
  function Encode(inst: Instruction): (r: seq<byte>)
    requires inst.fragmentNum < FinalBit
    ensures |r| == HeaderLen + |inst.diff|
    ensures FromBigEndian(r[0..8]) == inst.oldNum
    ensures FromBigEndian(r[8..16]) == inst.newNum
    ensures FromBigEndian(r[16..24]) == inst.ackNum
    ensures FromBigEndian(r[24..32]) == inst.throwawayNum
    ensures UnpackFragmentWord(FromBigEndian(r[32..34])) == (inst.final, inst.fragmentNum)
    ensures r[HeaderLen..] == inst.diff
  {
    var header := NetworkOrder64(inst.oldNum) + NetworkOrder64(inst.newNum)
      + NetworkOrder64(inst.ackNum) + NetworkOrder64(inst.throwawayNum)
      + NetworkOrder16(PackFragmentWord(inst.final, inst.fragmentNum));
    assert |header| == HeaderLen;
    var r := header + inst.diff;
    assert r[0..8] == NetworkOrder64(inst.oldNum);
    assert r[8..16] == NetworkOrder64(inst.newNum);
    assert r[16..24] == NetworkOrder64(inst.ackNum);
    assert r[24..32] == NetworkOrder64(inst.throwawayNum);
    assert r[32..34] == NetworkOrder16(PackFragmentWord(inst.final, inst.fragmentNum));
    r
  }

  /** Reads the big-endian field of `width` bytes at `offset`. */
  function FieldAt(x: seq<byte>, offset: nat, width: nat): (v: nat)
    requires offset + width <= |x|
    ensures v < Pow256(width)
  {
    FromBigEndian(x[offset..offset + width])
  }

  /**
   * The decoding constructor Instruction(string&).  A record shorter than
   * the header is refused (the assertion on `x.size()`); otherwise the four
   * 64-bit fields are read at offsets 0, 8, 16 and 24, the fragment word at
   * offset 32 is split into `final` and `fragment_num`, and the rest of the
   * record is the diff.
   */
  function Decode(x: seq<byte>): (r: Result<Instruction, DecodeError>)
    ensures r.Failure? <==> |x| < HeaderLen
    ensures r.Success? ==>
      && r.value.oldNum == FieldAt(x, 0, 8)
      && r.value.newNum == FieldAt(x, 8, 8)
      && r.value.ackNum == FieldAt(x, 16, 8)
      && r.value.throwawayNum == FieldAt(x, 24, 8)
      && r.value.final == (FieldAt(x, 32, 2) >= FinalBit)
      && r.value.fragmentNum == FieldAt(x, 32, 2) % FinalBit
      && r.value.diff == x[HeaderLen..]
  {
    if |x| < HeaderLen then Failure(TruncatedHeader)
    else
      Pow256Widths();
      var word := UnpackFragmentWord(FieldAt(x, 32, 2));
      Success(Instruction(
        FieldAt(x, 0, 8), FieldAt(x, 8, 8), FieldAt(x, 16, 8), FieldAt(x, 24, 8),
        word.1, word.0, x[HeaderLen..]))
  }

  /**
   * Instruction::operator==: every field except `final` takes part.  Two
   * instructions are equal in this sense exactly when they differ at most
   * in their `final` flag.
   */
  predicate Equivalent(a: Instruction, b: Instruction)
    ensures Equivalent(a, b) <==> a.(final := b.final) == b
  {
    && a.oldNum == b.oldNum && a.newNum == b.newNum
    && a.ackNum == b.ackNum && a.throwawayNum == b.throwawayNum
    && a.fragmentNum == b.fragmentNum && a.diff == b.diff
  }

  /** Decoding an encoded instruction gives back all seven fields. */
  lemma DecodeEncode(inst: Instruction)
    requires inst.fragmentNum < FinalBit
    ensures Decode(Encode(inst)) == Success(inst)
  {
    var r := Encode(inst);
    var word := FieldAt(r, 32, 2);
    assert UnpackFragmentWord(word) == (inst.final, inst.fragmentNum);
  }

  /**
   * Every record at least a header long is the encoding of what it decodes
   * to: the codec is a bijection between such records and the instructions
   * whose fragment number fits in fifteen bits.
   */
  lemma EncodeDecode(x: seq<byte>)
    requires |x| >= HeaderLen
    ensures Decode(x).Success? && Decode(x).value.fragmentNum < FinalBit
    ensures Encode(Decode(x).value) == x
  {
    var inst := Decode(x).value;
    var r := Encode(inst);
    Pow256Widths();
    assert r[0..8] == x[0..8] by { BigEndianInjective(r[0..8], x[0..8]); }
    assert r[8..16] == x[8..16] by { BigEndianInjective(r[8..16], x[8..16]); }
    assert r[16..24] == x[16..24] by { BigEndianInjective(r[16..24], x[16..24]); }
    assert r[24..32] == x[24..32] by { BigEndianInjective(r[24..32], x[24..32]); }
    assert r[32..34] == x[32..34] by {
      assert PackFragmentWord(inst.final, inst.fragmentNum) == FieldAt(x, 32, 2);
      BigEndianInjective(r[32..34], x[32..34]);
    }
    SlicesEqual(r, x);
  }

  /** Two records that agree on every field of the layout are the same record. */
  lemma SlicesEqual(r: seq<byte>, x: seq<byte>)
    requires |r| >= HeaderLen && |x| >= HeaderLen
    requires r[0..8] == x[0..8] && r[8..16] == x[8..16] && r[16..24] == x[16..24]
    requires r[24..32] == x[24..32] && r[32..34] == x[32..34] && r[34..] == x[34..]
    ensures r == x
  {
    assert r == r[0..8] + r[8..16] + r[16..24] + r[24..32] + r[32..34] + r[34..];
    assert x == x[0..8] + x[8..16] + x[16..24] + x[24..32] + x[32..34] + x[34..];
  }
}
