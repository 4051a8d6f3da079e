/** The Farpointe/Pyramid frame encoder, GetPyramidBits: a facility code and a
    card number become a 128-bit frame made of
      bits 0..7     the header, never written by the encoder (the caller clears it),
      bits 8..119   fourteen groups of 7 data bits, each followed by an odd parity
                    bit, taken from a scratch buffer that holds the 26-bit Wiegand
                    field with its own two parity bits at offset 71,
      bits 120..127 CRC-8/MAXIM over the 13 bytes at bits 16..119. */
module Pyramid {
  import opened BitBuffers
  import opened Parity
  import opened Crc8

  /** The 26 cells of the encoder's `wiegand` buffer: cells 0..7 hold the
      facility code and cells 8..23 the card number, each most significant bit
      first. `pad` stands for cells 24 and 25, which the encoder never writes. */
  function WiegandCells(fc: nat, cn: nat, pad: seq<Bit>): (w: seq<Bit>)
    requires |pad| == 2
    ensures |w| == 26
  {
    NumToBits(fc, 8) + NumToBits(cn, 16) + pad
  }

  /** The scratch buffer `pre` once cleared and given
      wiegand_add_parity(pre + 71, wiegand, 26). */
  function PreWith(fc: nat, cn: nat, pad: seq<Bit>): (pre: seq<Bit>)
    requires |pad| == 2
    ensures |pre| == 128
  {
    Overlay(Zeros(128), 71, WiegandAddParity(WiegandCells(fc, cn, pad)))
  }

  /** addParity(pre + 8, pyramidBits + 8, 112, 8, 1) as the call is written:
      all 112 source bits, that is 16 groups of 7, expanded to 128 bits. */
  function ParityPassAsWritten(pre: seq<Bit>): (r: seq<Bit>)
    requires |pre| == 128
    ensures |r| == 128
  {
    AddParityLength(pre[8..120], 8, OddParity);
    AddParity(pre[8..120], 8, OddParity)
  }

  /** The parity pass over the 105 source bits (15 groups of 7) whose 120 output
      bits are exactly the cells 8..127 of the frame. */
  function ParityPass(pre: seq<Bit>): (r: seq<Bit>)
    requires |pre| == 128
    ensures |r| == 120
  {
    AddParityLength(pre[8..113], 8, OddParity);
    AddParity(pre[8..113], 8, OddParity)
  }

  /** One byte read most significant bit first. */
  function ByteOf(bs: seq<Bit>): (b: bv8)
    requires |bs| == 8
  {
    Pow2Word();
    BitsToNum(bs) as bv8
  }

  /** The value of a byte read most significant bit first is that of its cells. */
  lemma ByteOfValue(bs: seq<Bit>)
    requires |bs| == 8
    ensures ByteOf(bs) as int == BitsToNum(bs)
  {
    Pow2Word();
    ByteCast(BitsToNum(bs));
  }

  /** The 13 bytes of `csBuff`, read from the 104 frame bits at 16..119. */
  function ChecksumWindow(bits: seq<Bit>): (w: seq<bv8>)
    requires |bits| == 104
    ensures |w| == 13
    ensures forall i :: 0 <= i < 13 ==> w[i] == ByteOf(bits[8 * i..8 * i + 8])
  {
    seq(13, i requires 0 <= i < 13 => ByteOf(bits[8 * i..8 * i + 8]))
  }

  /** Each byte of `csBuff`, written back as 8 cells, gives the cells it was read from. */
  lemma ChecksumWindowWriteBack(bits: seq<Bit>, i: nat)
    requires |bits| == 104 && i < 13
    ensures NumToBits(ChecksumWindow(bits)[i] as int, 8) == bits[8 * i..8 * i + 8]
  {
    var b := bits[8 * i..8 * i + 8];
    assert ChecksumWindow(bits)[i] == ByteOf(b);
    ByteOfValue(b);
    NumToBitsOfBitsToNum(b);
  }

  /** num_to_bytebits(crc, 8, pyramidBits + 120) for the CRC of those bytes. */
  function ChecksumBits(bits: seq<Bit>): (r: seq<Bit>)
    requires |bits| == 104
    ensures |r| == 8
  {
    NumToBits(Crc8Maxim(ChecksumWindow(bits)) as int, 8)
  }

  /** The frame GetPyramidBits leaves in a cleared buffer, for given contents
      `pad` of the two `wiegand` cells it never writes. */
  function FrameWith(fc: nat, cn: nat, pad: seq<Bit>): (frame: seq<Bit>)
    requires |pad| == 2
    ensures |frame| == 128
  {
    var body := Overlay(Zeros(128), 8, ParityPass(PreWith(fc, cn, pad)));
    Overlay(body, 120, ChecksumBits(body[16..120]))
  }

  /** The frame of a credential, with the two unwritten `wiegand` cells taken as 0. */
  function Frame(fc: nat, cn: nat): (frame: seq<Bit>)
    ensures |frame| == 128
  {
    FrameWith(fc, cn, [0, 0])
  }

  /** The facility code and card number as the frame carries them: the data
      bits of its first fourteen parity groups are `pre` bits 8..105, where the
      facility code sits at 72..79 and the card number at 80..95. */
  function FrameCredential(frame: seq<Bit>): (c: (nat, nat))
    requires |frame| == 128
    ensures c.0 < 256 && c.1 < 65536
  {
    assert |frame[8..120]| % 8 == 0;
    StripLength(frame[8..120]);
    var data := StripParity(frame[8..120], 8);
    Pow2Word();
    (BitsToNum(data[64..72]), BitsToNum(data[72..88]))
  }

  lemma {:induction false} StripLength(bits: seq<Bit>)
    requires |bits| % 8 == 0
    ensures |StripParity(bits, 8)| == |bits| / 8 * 7
    decreases |bits|
  {
    if |bits| > 0 {
      StripLength(bits[8..]);
    }
  }

  /** The scratch buffer holds the Wiegand field framed by its two parity bits
      at 71..98 and nothing else: the facility code at 72..79, the card number
      at 80..95, the unwritten cells at 96..97. */
  lemma PreLayout(fc: nat, cn: nat, pad: seq<Bit>)
    requires |pad| == 2
    ensures PreWith(fc, cn, pad)[71..99] == WiegandAddParity(WiegandCells(fc, cn, pad))
    ensures PreWith(fc, cn, pad)[72..80] == NumToBits(fc, 8)
    ensures PreWith(fc, cn, pad)[80..96] == NumToBits(cn, 16)
    ensures PreWith(fc, cn, pad)[96..98] == pad
    ensures forall i :: 0 <= i < 128 && !(71 <= i < 99) ==> PreWith(fc, cn, pad)[i] == 0
  {
    var pre := PreWith(fc, cn, pad);
    var w := WiegandCells(fc, cn, pad);
    var f := WiegandAddParity(w);
    assert pre[71..99] == f;
    assert f[1..27] == w;
    assert pre[72..80] == w[..8];
    assert pre[80..96] == w[8..24];
    assert pre[96..98] == w[24..];
  }

  /** As written, the parity pass produces 128 bits for the 120 cells that
      follow the header, so its last group would land past the end of the
      buffer; the cells it can reach receive exactly the 120 bits of ParityPass. */
  lemma ParityPassOverrun(pre: seq<Bit>, s: seq<Bit>)
    requires |pre| == 128 && |s| == 128
    ensures ParityPassAsWritten(pre)[..120] == ParityPass(pre)
    ensures ParityPassAsWritten(pre)[120..] == pre[113..120] + [ParityBit(pre[113..120], OddParity)]
    ensures Overlay(s, 8, ParityPassAsWritten(pre)) == Overlay(s, 8, ParityPass(pre))
  {
    assert pre[8..120] == pre[8..113] + pre[113..120];
    AddParityAppend(pre[8..113], pre[113..120], 8, OddParity);
    LastGroup(pre[113..120]);
    var a := Overlay(s, 8, ParityPassAsWritten(pre));
    var b := Overlay(s, 8, ParityPass(pre));
    assert forall i :: 0 <= i < 128 ==> a[i] == b[i];
  }

  /** addParity of a single group of 7 bits is those bits and their parity bit. */
  lemma LastGroup(g: seq<Bit>)
    requires |g| == 7
    ensures AddParity(g, 8, OddParity) == g + [ParityBit(g, OddParity)]
  {
    AddParityUnfold(g, 8, OddParity);
    assert g[..7] == g && g[7..] == [];
  }

  /** Cells 8..119 of the frame are the first fourteen groups of the parity
      pass, which come from `pre` bits 8..105 alone. */
  lemma FrameBody(fc: nat, cn: nat, pad: seq<Bit>)
    requires |pad| == 2
    ensures FrameWith(fc, cn, pad)[8..120] == AddParity(PreWith(fc, cn, pad)[8..106], 8, OddParity)
  {
    var pre := PreWith(fc, cn, pad);
    var body := Overlay(Zeros(128), 8, ParityPass(pre));
    var frame := FrameWith(fc, cn, pad);
    assert pre[8..113] == pre[8..106] + pre[106..113];
    AddParityAppend(pre[8..106], pre[106..113], 8, OddParity);
    assert ParityPass(pre)[..112] == AddParity(pre[8..106], 8, OddParity);
    assert forall i :: 8 <= i < 120 ==> frame[i] == ParityPass(pre)[i - 8];
  }

  /** The header: frame bits 0..7 are never written, so they stay 0. */
  lemma FrameHeader(fc: nat, cn: nat, pad: seq<Bit>)
    requires |pad| == 2
    ensures FrameWith(fc, cn, pad)[..8] == Zeros(8)
  {
  }

  /** The checksum: frame bits 120..127 are CRC-8/MAXIM of the 13 bytes read
      from frame bits 16..119, most significant bit first. */
  lemma FrameChecksum(fc: nat, cn: nat, pad: seq<Bit>)
    requires |pad| == 2
    ensures FrameWith(fc, cn, pad)[120..] == ChecksumBits(FrameWith(fc, cn, pad)[16..120])
    ensures BitsToNum(FrameWith(fc, cn, pad)[120..]) == Crc8Maxim(ChecksumWindow(FrameWith(fc, cn, pad)[16..120])) as int
  {
    var body := Overlay(Zeros(128), 8, ParityPass(PreWith(fc, cn, pad)));
    var frame := FrameWith(fc, cn, pad);
    assert frame[16..120] == body[16..120];
    var crc := Crc8Maxim(ChecksumWindow(frame[16..120]));
    assert frame[120..] == NumToBits(crc as int, 8);
    CrcBitsValue(crc);
  }

  lemma CrcBitsValue(crc: bv8)
    ensures BitsToNum(NumToBits(crc as int, 8)) == crc as int
  {
    var n := crc as int;
    BitsToNumOfNumToBits(n, 8);
    Pow2Word();
    assert n < 256;
    ModUnique(n, 256, 0, n);
  }

  /** In a buffer whose header cells are clear, the encoder leaves exactly the frame. */
  lemma FrameInClearedBuffer(fc: nat, cn: nat, header: seq<Bit>)
    requires header == Zeros(8)
    ensures header + Frame(fc, cn)[8..] == Frame(fc, cn)
  {
    FrameHeader(fc, cn, [0, 0]);
    var frame := Frame(fc, cn);
    assert frame == frame[..8] + frame[8..];
  }

  /** Parity: each of the bytes 1..14 of the frame (a group of 7 data bits and
      its parity bit) holds an odd number of set bits. */
  lemma FrameGroupParity(fc: nat, cn: nat, pad: seq<Bit>, g: nat)
    requires |pad| == 2 && g < 14
    ensures Ones(FrameWith(fc, cn, pad)[8 + 8 * g..16 + 8 * g]) % 2 == 1
  {
    var pre := PreWith(fc, cn, pad);
    FrameBody(fc, cn, pad);
    AddParityGroupParity(pre[8..106], 8, OddParity, g);
    var frame := FrameWith(fc, cn, pad);
    assert frame[8 + 8 * g..16 + 8 * g] == frame[8..120][8 * g..8 * g + 8];
    assert Chunk(AddParity(pre[8..106], 8, OddParity), 8, g) == frame[8..120][8 * g..8 * g + 8];
  }

  /** The frame carries the facility code reduced to 8 bits and the card
      number reduced to 16 bits, whatever the unwritten cells hold. */
  lemma FrameCredentialOfFrame(fc: nat, cn: nat, pad: seq<Bit>)
    requires |pad| == 2
    ensures FrameCredential(FrameWith(fc, cn, pad)) == (fc % 256, cn % 65536)
  {
    var pre := PreWith(fc, cn, pad);
    var frame := FrameWith(fc, cn, pad);
    FrameBody(fc, cn, pad);
    StripAddParity(pre[8..106], 8, OddParity);
    var data := StripParity(frame[8..120], 8);
    assert data == pre[8..106];
    PreLayout(fc, cn, pad);
    assert data[64..72] == pre[72..80];
    assert data[72..88] == pre[80..96];
    BitsToNumOfNumToBits(fc, 8);
    BitsToNumOfNumToBits(cn, 16);
    Pow2Word();
  }

  /** Two credentials give the same frame exactly when they agree on the low
      8 bits of the facility code and the low 16 bits of the card number. */
  lemma FrameDeterminedByCredential(fc1: nat, cn1: nat, fc2: nat, cn2: nat)
    ensures Frame(fc1, cn1) == Frame(fc2, cn2) <==> fc1 % 256 == fc2 % 256 && cn1 % 65536 == cn2 % 65536
  {
    FrameCredentialOfFrame(fc1, cn1, [0, 0]);
    FrameCredentialOfFrame(fc2, cn2, [0, 0]);
    NumToBitsEqual(fc1, fc2, 8);
    NumToBitsEqual(cn1, cn2, 16);
    Pow2Word();
  }

  /** The two `wiegand` cells the encoder never writes reach the frame, as
      frame bits 108 and 109. */
  lemma FrameShowsUnwrittenCells(fc: nat, cn: nat, pad: seq<Bit>)
    requires |pad| == 2
    ensures FrameWith(fc, cn, pad)[108..110] == pad
  {
    var pre := PreWith(fc, cn, pad);
    FrameBody(fc, cn, pad);
    AddParityChunk(pre[8..106], 8, OddParity, 12);
    PreLayout(fc, cn, pad);
    var frame := FrameWith(fc, cn, pad);
    var ap := AddParity(pre[8..106], 8, OddParity);
    assert frame[8..120] == ap;
    assert frame[108..110] == ap[100..102];
    var src := pre[8..106];
    assert 12 * 8 == 96 && 12 * 7 == 84;
    assert Chunk(ap, 8, 12) == ap[96..104];
    assert Chunk(src, 7, 12) == src[84..91];
    assert src[84..91] == pre[92..99];
    assert ap[100..102] == Chunk(ap, 8, 12)[4..6];
    assert Chunk(ap, 8, 12)[4..6] == Chunk(src, 7, 12)[4..6];
    assert pre[92..99][4..6] == pre[96..98];
  }

  /** So with the encoder as written the frame is not a function of the
      credential: two contents of the unwritten cells give two frames. */
  lemma UnwrittenCellsChangeFrame(fc: nat, cn: nat, pad1: seq<Bit>, pad2: seq<Bit>)
    requires |pad1| == 2 && |pad2| == 2 && pad1 != pad2
    ensures FrameWith(fc, cn, pad1) != FrameWith(fc, cn, pad2)
  {
    FrameShowsUnwrittenCells(fc, cn, pad1);
    FrameShowsUnwrittenCells(fc, cn, pad2);
  }

  /** The cells after the parity pass and the CRC, whatever the caller left
      in the buffer: its header cells, then the frame. */
  lemma FrameFromStages(fc: nat, cn: nat, caller: seq<Bit>)
    requires |caller| == 128
    ensures |Overlay(caller, 8, ParityPassAsWritten(PreWith(fc, cn, [0, 0])))| == 128
    ensures var stage := Overlay(caller, 8, ParityPassAsWritten(PreWith(fc, cn, [0, 0])));
            Overlay(stage, 120, ChecksumBits(stage[16..120])) == caller[..8] + Frame(fc, cn)[8..]
  {
    var pre := PreWith(fc, cn, [0, 0]);
    ParityPassOverrun(pre, caller);
    var stage := Overlay(caller, 8, ParityPass(pre));
    var body := Overlay(Zeros(128), 8, ParityPass(pre));
    assert stage[16..120] == body[16..120];
    var cs := ChecksumBits(body[16..120]);
    var r := Overlay(stage, 120, cs);
    var frame := Frame(fc, cn);
    assert frame == Overlay(body, 120, cs);
    assert forall k :: 0 <= k < 128 ==> r[k] == (caller[..8] + frame[8..])[k];
  }

  /** The checksum loop of GetPyramidBits: the 13 bytes at bits 16..119 are
      packed into `csBuff` and their CRC-8/MAXIM computed. */
  method ComputeChecksum(bits: array<Bit>) returns (crc: bv8)
    requires bits.Length == 128
    ensures crc == Crc8Maxim(ChecksumWindow(bits[16..120]))
  {
    ghost var s := bits[..];
    var csBuff := new bv8[13];
    for i := 0 to 13
      modifies csBuff
      invariant forall k :: 0 <= k < i ==> csBuff[k] == ByteOf(s[16 + 8 * k..24 + 8 * k])
    {
      var b := BytebitsToByte(bits, 16 + 8 * i, 8);
      assert bits[16 + 8 * i..24 + 8 * i] == s[16 + 8 * i..24 + 8 * i];
      ByteFits(s[16 + 8 * i..24 + 8 * i]);
      assert b == BitsToNum(s[16 + 8 * i..24 + 8 * i]);
      csBuff[i] := b as bv8;
      assert csBuff[i] == ByteOf(s[16 + 8 * i..24 + 8 * i]);
    }
    forall k | 0 <= k < 13
      ensures csBuff[k] == ChecksumWindow(s[16..120])[k]
    {
      WindowByte(s, k);
    }
    assert csBuff[..] == ChecksumWindow(s[16..120]);
    crc := Crc8Maxim(csBuff[..]);
  }

  lemma ByteFits(bs: seq<Bit>)
    requires |bs| == 8
    ensures BitsToNum(bs) % Word == BitsToNum(bs) < 256
  {
    BytebitsFit(bs);
    Pow2Word();
  }

  lemma WindowByte(bits: seq<Bit>, k: nat)
    requires |bits| == 128 && k < 13
    ensures ChecksumWindow(bits[16..120])[k] == ByteOf(bits[16 + 8 * k..24 + 8 * k])
  {
    SubSlice(bits, 16, 120, 8 * k, 8 * k + 8);
  }

  /** GetPyramidBits(fc, cn, pyramidBits): writes the frame into cells 8..127
      of the caller's 128-cell buffer and reports success. Unlike the C code,
      which never clears its local `wiegand` buffer, the model clears it, so
      cells 24 and 25 hold 0; FrameWith gives the frame for other contents. */
  method GetPyramidBits(fc: uint32, cn: uint32, pyramidBits: array<Bit>) returns (ok: bool)
    requires pyramidBits.Length == 128
    modifies pyramidBits
    ensures ok
    ensures pyramidBits[..] == old(pyramidBits[..8]) + Frame(fc, cn)[8..]
  {
    var pre := new Bit[128](_ => 0);
    var wiegand := new Bit[26](_ => 0);
    WriteBits(wiegand, 0, NumToBits(fc, 8));
    WriteBits(wiegand, 8, NumToBits(cn, 16));
    assert wiegand[..] == WiegandCells(fc, cn, [0, 0]);

    WriteBits(pre, 71, WiegandAddParity(wiegand[..]));
    assert pre[..] == PreWith(fc, cn, [0, 0]);

    ghost var caller := pyramidBits[..];
    WriteBits(pyramidBits, 8, AddParity(pre[8..120], 8, OddParity));
    assert pyramidBits[..] == Overlay(caller, 8, ParityPassAsWritten(pre[..]));

    var crc := ComputeChecksum(pyramidBits);
    WriteBits(pyramidBits, 120, NumToBits(crc as int, 8));
    FrameFromStages(fc, cn, caller);
    ok := true;
  }
}
