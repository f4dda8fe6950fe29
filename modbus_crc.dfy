/**
 * CRC-16 of the MODBUS serial line (MODBUS over Serial Line Specification and
 * Implementation Guide V1.02, section 6.2.2 and Appendix B): the register starts at
 * 0xFFFF, each byte is XORed into its low half and then eight shift steps follow, each
 * shifting right by one and XORing the reflected polynomial 0xA001 in whenever the bit
 * shifted out was set. On the wire the CRC travels low byte first (section 2.5.1.2).
 */
module ModbusCrc {
  import opened Bytes

  const CrcInit: bv16 := 0xFFFF
  const Polynomial: bv16 := 0xA001

  /** The shift steps per byte. */
  const BitsPerByte: nat := 8

  /**
   * One shift step of the inner loop: shift right by one and XOR the polynomial in
   * when the bit shifted out was set. Written without a branch (the low bit, 0 or 1,
   * scales the polynomial); ShiftStepCases gives the branching form of the source.
   */
  function ShiftStep(crc: bv16): bv16 {
    (crc >> 1) ^ (Polynomial * (crc & 1))
  }

  /** The shift step is the source's two-way branch on the low bit. */
  lemma ShiftStepCases(crc: bv16)
    ensures crc & 1 == 1 ==> ShiftStep(crc) == (crc >> 1) ^ Polynomial
    ensures crc & 1 != 1 ==> ShiftStep(crc) == crc >> 1
  {
  }

  /** n shift steps, the last one outermost (the shape the inner loop builds). */
  function ShiftSteps(crc: bv16, n: nat): bv16
    decreases n
  {
    if n == 0 then crc else ShiftStep(ShiftSteps(crc, n - 1))
  }

  /** The effect of one byte on the register: XOR it in, then eight shift steps. */
  function UpdateByte(crc: bv16, b: byte): bv16 {
    ShiftSteps(crc ^ (b as bv16), BitsPerByte)
  }

  /** A per-byte register update applied to the bytes of s in order, last byte outermost. */
  function FoldBytes(step: (bv16, byte) -> bv16, init: bv16, s: seq<byte>): bv16
    decreases |s|
  {
    if s == [] then init else step(FoldBytes(step, init, s[..|s| - 1]), s[|s| - 1])
  }

  /** Folding over a ++ b is folding over b from where a left off, whatever the step. */
  lemma {:induction false} FoldBytesAppend(step: (bv16, byte) -> bv16, init: bv16, a: seq<byte>, b: seq<byte>)
    ensures FoldBytes(step, init, a + b) == FoldBytes(step, FoldBytes(step, init, a), b)
    decreases |b|
  {
    if b == [] {
      assert a + b == a;
    } else {
      var ab := a + b;
      assert ab[..|ab| - 1] == a + b[..|b| - 1];
      assert ab[|ab| - 1] == b[|b| - 1];
      FoldBytesAppend(step, init, a, b[..|b| - 1]);
    }
  }

  /** The register after the bytes of s, starting from init. */
  function CrcFrom(init: bv16, s: seq<byte>): bv16 {
    FoldBytes(UpdateByte, init, s)
  }

  /** `calculateModbusCrc16` as a function of the bytes it covers. */
  function Crc16(s: seq<byte>): bv16 {
    CrcFrom(CrcInit, s)
  }

  /** The low byte of a CRC, the one sent first. */
  function CrcLow(crc: bv16): byte { (crc & 0xFF) as int }

  /** The high byte of a CRC, the one sent second. */
  function CrcHigh(crc: bv16): byte { (crc >> 8) as int }

  /** The received CRC as the handler reassembles it: `(hi << 8) | lo`. */
  function CrcFromBytes(lo: byte, hi: byte): uint16 {
    hi as int * 0x100 + lo as int
  }

  /**
   * The acceptance rule for a frame whose last two bytes carry a CRC, low byte first:
   * the CRC of everything before them matches.
   */
  predicate CrcValid(frame: seq<byte>) {
    |frame| >= 2 &&
    Crc16(frame[..|frame| - 2]) as int == CrcFromBytes(frame[|frame| - 2], frame[|frame| - 1])
  }

  /** Splitting a CRC into its two transmitted bytes and joining them is lossless. */
  lemma CrcBytesRoundTrip(crc: bv16)
    ensures CrcFromBytes(CrcLow(crc), CrcHigh(crc)) == crc as int
  {
  }

  /** The CRC of no bytes is the initial value. */
  lemma CrcOfEmpty()
    ensures Crc16([]) == 0xFFFF
  {
  }

  /** Processing a ++ b is processing b starting from the register a left behind. */
  lemma CrcFromAppend(init: bv16, a: seq<byte>, b: seq<byte>)
    ensures CrcFrom(init, a + b) == CrcFrom(CrcFrom(init, a), b)
  {
    FoldBytesAppend(UpdateByte, init, a, b);
  }

  /** CRC(a ++ b) is b folded in starting from CRC(a). */
  lemma CrcAppend(a: seq<byte>, b: seq<byte>)
    ensures Crc16(a + b) == CrcFrom(Crc16(a), b)
  {
    CrcFromAppend(CrcInit, a, b);
  }

  /** The same register read as a left fold: the first byte is processed first. */
  lemma CrcFromCons(init: bv16, x: byte, s: seq<byte>)
    ensures CrcFrom(init, [x] + s) == CrcFrom(UpdateByte(init, x), s)
  {
    CrcFromAppend(init, [x], s);
    assert [x][..0] == [];
    assert FoldBytes(UpdateByte, init, [x][..0]) == init;
  }

  /** The CRC of one more byte is one more register update. */
  lemma CrcSnoc(prefix: seq<byte>, b: byte)
    ensures Crc16(prefix + [b]) == UpdateByte(Crc16(prefix), b)
  {
    assert (prefix + [b])[..|prefix|] == prefix;
  }

  /** Eight shift steps from the register with byte b XORed in give the CRC of one more byte. */
  lemma CrcStep(prefix: seq<byte>, b: byte, before: bv16, crc: bv16)
    requires before == Crc16(prefix) && crc == ShiftSteps(before ^ (b as bv16), BitsPerByte)
    ensures crc == Crc16(prefix + [b])
  {
    assert crc == UpdateByte(before, b);
    CrcSnoc(prefix, b);
  }

  /**
   * `calculateModbusCrc16(buffer, len)`: the CRC of the first len bytes of buffer,
   * computed by the source's two nested loops.
   */
  method CalculateModbusCrc16(buffer: array<byte>, len: nat) returns (crc: bv16)
    requires len <= buffer.Length
    ensures crc == Crc16(buffer[..len])
  {
    crc := CrcInit;
    var i := 0;
    while i < len
      invariant 0 <= i <= len
      invariant crc == Crc16(buffer[..i])
    {
      var b := buffer[i];
      ghost var before := crc;
      crc := crc ^ (b as bv16);
      ghost var start := crc;
      var j := 0;
      while j < 8
        invariant 0 <= j <= 8
        invariant crc == ShiftSteps(start, j)
      {
        ghost var prev := crc;
        if crc & 0x0001 == 1 {
          crc := (crc >> 1) ^ Polynomial;
        } else {
          crc := crc >> 1;
        }
        assert crc == ShiftStep(prev) by { ShiftStepCases(prev); }
        j := j + 1;
      }
      CrcStep(buffer[..i], b, before, crc);
      assert buffer[..i] + [b] == buffer[..i + 1];
      i := i + 1;
    }
  }
}

module ModbusCrcVectors {
  import opened Bytes
  import opened ModbusCrc

  /** A read request for address 0x0001, one word: its CRC is 0xCAD5, sent as D5 CA. */
  lemma ReadRequestVector()
    ensures Crc16([0x01, 0x03, 0x00, 0x01, 0x00, 0x01]) == 0xCAD5
  {
    var s: seq<byte> := [0x01, 0x03, 0x00, 0x01, 0x00, 0x01];
    assert s[..0] == [];
    assert UpdateByte(0xFFFF, 0x01) == 0x807E;
    assert UpdateByte(0x807E, 0x03) == 0x2140;
    assert UpdateByte(0x2140, 0x00) == 0xF020;
    assert UpdateByte(0xF020, 0x01) == 0x1830;
    assert UpdateByte(0x1830, 0x00) == 0x1418;
    assert UpdateByte(0x1418, 0x01) == 0xCAD5;
    assert s[..1][..0] == [] && s[..1][0] == 0x01;
    assert CrcFrom(CrcInit, []) == 0xFFFF;
    assert Crc16(s[..1]) == 0x807E;
    assert s[..2][..1] == s[..1];
    assert Crc16(s[..2]) == 0x2140;
    assert s[..3][..2] == s[..2];
    assert Crc16(s[..3]) == 0xF020;
    assert s[..4][..3] == s[..3];
    assert Crc16(s[..4]) == 0x1830;
    assert s[..5][..4] == s[..4];
    assert Crc16(s[..5]) == 0x1418;
    assert s[..6][..5] == s[..5];
    assert s[..6] == s;
  }
}
