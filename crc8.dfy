/** CRC-8/MAXIM, the Dallas/Maxim 1-Wire checksum used by CRC8Maxim: generator
    polynomial x^8 + x^5 + x^4 + 1 (0x31), data taken least significant bit
    first, register starting at 0, no final xor. */
module Crc8 {

  /** x^8 + x^5 + x^4 + 1 without its x^8 term. */
  const Polynomial: bv8 := 0x31

  /** The eight bits of `b` in reverse order. */
  function Reflect(b: bv8): (r: bv8)
  {
    ((b & 0x01) << 7) | ((b & 0x02) << 5) | ((b & 0x04) << 3) | ((b & 0x08) << 1) |
    ((b & 0x10) >> 1) | ((b & 0x20) >> 3) | ((b & 0x40) >> 5) | ((b & 0x80) >> 7)
  }

  /** The polynomial as a register that shifts right (least significant bit
      first) sees it: 0x31 with its bits reversed (ReflectedPolynomialIsPolynomial). */
  const ReflectedPolynomial: bv8 := 0x8C

  lemma ReflectedPolynomialIsPolynomial()
    ensures ReflectedPolynomial == Reflect(Polynomial)
    ensures Reflect(ReflectedPolynomial) == Polynomial
  {
  }

  /** One clock of the 1-Wire CRC shift register: the feedback is the input bit
      xor the register's low bit; the register shifts right and, when the
      feedback is 1, is xored with the polynomial. */
  function SerialStep(crc: bv8, bit: bool): (next: bv8)
  {
    if ((crc & 1) == 1) != bit then (crc >> 1) ^ ReflectedPolynomial else crc >> 1
  }

  /** The register after clocking in `bits` one after the other. */
  function SerialCrc(crc: bv8, bits: seq<bool>): (r: bv8)
    decreases |bits|
  {
    if |bits| == 0 then crc else SerialCrc(SerialStep(crc, bits[0]), bits[1..])
  }

  /** The low `n` bits of `x`, least significant first. */
  function LsbBits(x: bv8, n: nat): (r: seq<bool>)
    ensures |r| == n
  {
    if n == 0 then [] else [x & 1 == 1] + LsbBits(x >> 1, n - 1)
  }

  /** The bits of one byte in the order the 1-Wire CRC takes them. */
  function LsbFirst(b: bv8): (r: seq<bool>)
    ensures |r| == 8
  {
    LsbBits(b, 8)
  }

  /** `x` has no set bit at position `n` or above. */
  predicate Below(x: bv8, n: nat)
  {
    if n == 0 then x == 0 else Below(x >> 1, n - 1)
  }

  lemma ByteBelow(b: bv8)
    ensures Below(b, 8)
  {
    var b1 := b >> 1;
    var b2 := b1 >> 1;
    var b3 := b2 >> 1;
    var b4 := b3 >> 1;
    var b5 := b4 >> 1;
    var b6 := b5 >> 1;
    var b7 := b6 >> 1;
    assert b7 >> 1 == 0;
    assert Below(b7, 1);
    assert Below(b6, 2);
    assert Below(b5, 3);
    assert Below(b4, 4);
    assert Below(b3, 5);
    assert Below(b2, 6);
    assert Below(b1, 7);
  }

  /** The bit stream of a byte string, each byte least significant bit first. */
  function Serialize(data: seq<bv8>): (bits: seq<bool>)
    ensures |bits| == 8 * |data|
  {
    if |data| == 0 then [] else Serialize(data[..|data| - 1]) + LsbFirst(data[|data| - 1])
  }

  /** `k` clocks of the register with no input. */
  function Shifts(crc: bv8, k: nat): (r: bv8)
    decreases k
  {
    if k == 0 then crc else Shifts(SerialStep(crc, false), k - 1)
  }

  /** The byte-at-a-time update: xor the byte into the register, then eight clocks. */
  function UpdateByte(crc: bv8, b: bv8): (r: bv8)
  {
    Shifts(crc ^ b, 8)
  }

  /** CRC8Maxim(buff, size) over the bytes of `data`. */
  function Crc8Maxim(data: seq<bv8>): (crc: bv8)
  {
    if |data| == 0 then 0 else UpdateByte(Crc8Maxim(data[..|data| - 1]), data[|data| - 1])
  }

  lemma {:induction false} SerialCrcAppend(crc: bv8, a: seq<bool>, b: seq<bool>)
    ensures SerialCrc(crc, a + b) == SerialCrc(SerialCrc(crc, a), b)
    decreases |a|
  {
    if |a| > 0 {
      assert (a + b)[1..] == a[1..] + b;
      SerialCrcAppend(SerialStep(crc, a[0]), a[1..], b);
    } else {
      assert a + b == b;
    }
  }

  /** Clocking with a byte xored in is clocking the byte's low bit in. */
  lemma StepXor(crc: bv8, x: bv8)
    ensures SerialStep(crc ^ x, false) == SerialStep(crc, x & 1 == 1) ^ (x >> 1)
  {
  }

  lemma ShiftsUnfold(u: bv8, n: nat)
    requires n > 0
    ensures Shifts(u, n) == Shifts(SerialStep(u, false), n - 1)
  {
  }

  /** One clock of the byte-at-a-time loop, with the byte's remaining bits
      `x` still in the register, is one clock of the serial register with
      the low bit of `x` as input. */
  lemma ClockStep(crc: bv8, x: bv8, n: nat)
    requires n > 0
    ensures Shifts(crc ^ x, n) == Shifts(SerialStep(crc, x & 1 == 1) ^ (x >> 1), n - 1)
  {
    StepXor(crc, x);
    ShiftsUnfold(crc ^ x, n);
  }

  /** With the `n` input bits still to come xored into the register, `n`
      clocks with no input are those `n` bits clocked in one after the other. */
  lemma {:induction false} UpdateByteFrom(crc: bv8, x: bv8, n: nat)
    requires Below(x, n)
    ensures Shifts(crc ^ x, n) == SerialCrc(crc, LsbBits(x, n))
    decreases n
  {
    if n == 0 {
      assert crc ^ x == crc;
    } else {
      var low := x & 1 == 1;
      var bits := LsbBits(x, n);
      assert bits[0] == low && bits[1..] == LsbBits(x >> 1, n - 1);
      ClockStep(crc, x, n);
      UpdateByteFrom(SerialStep(crc, low), x >> 1, n - 1);
    }
  }

  /** The byte-at-a-time update equals clocking the byte's eight bits,
      least significant first, through the serial register. */
  lemma UpdateByteIsSerial(crc: bv8, b: bv8)
    ensures UpdateByte(crc, b) == SerialCrc(crc, LsbFirst(b))
  {
    ByteBelow(b);
    UpdateByteFrom(crc, b, 8);
  }

  /** CRC8Maxim is the 1-Wire CRC of the bit stream of its bytes. */
  lemma {:induction false} Crc8MaximIsSerial(data: seq<bv8>)
    ensures Crc8Maxim(data) == SerialCrc(0, Serialize(data))
  {
    if |data| > 0 {
      var init := data[..|data| - 1];
      var last := data[|data| - 1];
      Crc8MaximIsSerial(init);
      SerialCrcAppend(0, Serialize(init), LsbFirst(last));
      UpdateByteIsSerial(Crc8Maxim(init), last);
    }
  }

  lemma {:induction false} ShiftsZero(k: nat)
    ensures Shifts(0, k) == 0
  {
    if k > 0 {
      ShiftsZero(k - 1);
    }
  }

  /** The 1-Wire check: a byte string followed by its CRC has CRC 0. */
  lemma Crc8MaximResidue(data: seq<bv8>)
    ensures Crc8Maxim(data + [Crc8Maxim(data)]) == 0
  {
    var d := data + [Crc8Maxim(data)];
    assert d[..|d| - 1] == data;
    ShiftsZero(8);
  }

  /** The catalogue check value of CRC-8/MAXIM: the ASCII string "123456789" gives 0xA1. */
  lemma Crc8MaximCheckValue(d: seq<bv8>)
    requires d == [0x31, 0x32, 0x33, 0x34, 0x35, 0x36, 0x37, 0x38, 0x39]
    ensures Crc8Maxim(d) == 0xA1
  {
    for k := 0 to 9
      invariant Crc8Maxim(d[..k]) == CheckRegisters[k]
    {
      Crc8MaximPrefix(d, k);
      CheckValueStep(d, k);
    }
    assert d[..9] == d;
  }

  /** One more byte of a prefix is one more byte-at-a-time update. */
  lemma Crc8MaximPrefix(d: seq<bv8>, k: nat)
    requires k < |d|
    ensures Crc8Maxim(d[..k + 1]) == UpdateByte(Crc8Maxim(d[..k]), d[k])
  {
    assert d[..k + 1][..k] == d[..k];
  }

  /** The register after each byte of the check string. */
  const CheckRegisters: seq<bv8> := [0x00, 0xE0, 0xEB, 0x95, 0xF1, 0xAB, 0xEC, 0x77, 0x07, 0xA1]

  lemma CheckValueStep(d: seq<bv8>, k: nat)
    requires d == [0x31, 0x32, 0x33, 0x34, 0x35, 0x36, 0x37, 0x38, 0x39]
    requires k < 9
    ensures UpdateByte(CheckRegisters[k], d[k]) == CheckRegisters[k + 1]
  {
    if k == 0 {
      assert UpdateByte(0x00, 0x31) == 0xE0;
    } else if k == 1 {
      assert UpdateByte(0xE0, 0x32) == 0xEB;
    } else if k == 2 {
      assert UpdateByte(0xEB, 0x33) == 0x95;
    } else if k == 3 {
      assert UpdateByte(0x95, 0x34) == 0xF1;
    } else if k == 4 {
      assert UpdateByte(0xF1, 0x35) == 0xAB;
    } else if k == 5 {
      assert UpdateByte(0xAB, 0x36) == 0xEC;
    } else if k == 6 {
      assert UpdateByte(0xEC, 0x37) == 0x77;
    } else if k == 7 {
      assert UpdateByte(0x77, 0x38) == 0x07;
    } else {
      assert UpdateByte(0x07, 0x39) == 0xA1;
    }
  }
}
