/** The `lf pyramid clone` and `lf pyramid sim` commands: the guard that
    answers an empty line or a help request with the usage text, the masking
    of the facility code to 8 bits and the card number to 16 bits, the packing
    of the frame into four T55x7 data blocks behind a configuration block, and
    the loop that writes the five blocks and gives up at the first one the
    device does not acknowledge. */
module PyramidCmd {
  import opened BitBuffers
  import opened Pyramid

  datatype Option<T> = None | Some(value: T)

  /** One CMD_T55XX_WRITE_BLOCK command: arg[0] is the data word, arg[1] the
      block number; arg[2] stays 0. */
  datatype WriteRequest = WriteBlock(data: uint32, block: nat)

  /** What a command did: its return value, whether it printed its usage
      text, and the write commands it sent, in order. */
  datatype Outcome = Outcome(ret: int, usage: bool, sent: seq<WriteRequest>)

  /** The answer to an empty line or a help request. */
  const UsageOutcome := Outcome(0, true, [])

  /** `x & mask` for a mask of `k` low one bits: the value of the low `k`
      bits of the 32-bit word `x`. */
  function LowBits(x: uint32, k: nat): (r: uint32)
    requires k <= 32
    ensures r == x % Pow2(k)
  {
    NumToBitsSuffix(x, 32 - k, k);
    BitsToNumOfNumToBits(x, k);
    Pow2Monotone(k, 32);
    Pow2Word();
    BitsToNum(NumToBits(x, 32)[32 - k..])
  }

  /** facilitycode = fc & 0x000000FF */
  function MaskFc(fc: uint32): (r: uint32)
    ensures r < 256 && r == fc % 256
  {
    Pow2Word();
    LowBits(fc, 8)
  }

  /** cardnumber = cn & 0x0000FFFF */
  function MaskCn(cn: uint32): (r: uint32)
    ensures r < 65536 && r == cn % 65536
  {
    Pow2Word();
    LowBits(cn, 16)
  }

  /** Masking keeps what is already in range, so masking twice changes nothing. */
  lemma MaskIdempotent(fc: uint32, cn: uint32)
    ensures MaskFc(MaskFc(fc)) == MaskFc(fc)
    ensures MaskCn(MaskCn(cn)) == MaskCn(cn)
  {
    ModUnique(fc % 256, 256, 0, fc % 256);
    ModUnique(cn % 65536, 65536, 0, cn % 65536);
  }

  /** Facility codes 256 apart, and card numbers 65536 apart, are cloned alike. */
  lemma MaskPeriod(fc: uint32, cn: uint32)
    ensures fc + 256 < Word ==> MaskFc(fc + 256) == MaskFc(fc)
    ensures cn + 65536 < Word ==> MaskCn(cn + 65536) == MaskCn(cn)
  {
    ModUnique(fc + 256, 256, fc / 256 + 1, fc % 256);
    ModUnique(cn + 65536, 65536, cn / 65536 + 1, cn % 65536);
  }

  /** The 32 cells from `off` on as one word. */
  function WordAt(frame: seq<Bit>, off: nat): (w: uint32)
    requires off + 32 <= |frame|
  {
    Pow2Word();
    BitsToNum(frame[off..off + 32])
  }

  /** blocks[0] is the configuration word; blocks[1..4] are
      bytebits_to_byte(bs + 32 * k, 32) for k = 0..3. */
  function PackBlocks(config: uint32, frame: seq<Bit>): (blocks: seq<uint32>)
    requires |frame| == 128
    ensures |blocks| == 5 && blocks[0] == config
  {
    [config, WordAt(frame, 0), WordAt(frame, 32), WordAt(frame, 64), WordAt(frame, 96)]
  }

  /** The 128 cells the four data blocks hold, each block most significant bit first. */
  function UnpackBlocks(blocks: seq<uint32>): (frame: seq<Bit>)
    requires |blocks| == 5
    ensures |frame| == 128
  {
    NumToBits(blocks[1], 32) + NumToBits(blocks[2], 32) + NumToBits(blocks[3], 32) + NumToBits(blocks[4], 32)
  }

  /** The data blocks hold the frame: unpacking them gives it back. */
  lemma UnpackPack(config: uint32, frame: seq<Bit>)
    requires |frame| == 128
    ensures UnpackBlocks(PackBlocks(config, frame)) == frame
  {
    NumToBitsOfBitsToNum(frame[0..32]);
    NumToBitsOfBitsToNum(frame[32..64]);
    NumToBitsOfBitsToNum(frame[64..96]);
    NumToBitsOfBitsToNum(frame[96..128]);
    Quarters(frame);
  }

  lemma Quarters(frame: seq<Bit>)
    requires |frame| == 128
    ensures frame == frame[0..32] + frame[32..64] + frame[64..96] + frame[96..128]
  {
  }

  lemma QuarterSlices(p: seq<Bit>, q: seq<Bit>, r: seq<Bit>, s: seq<Bit>)
    requires |p| == 32 && |q| == 32 && |r| == 32 && |s| == 32
    ensures (p + q + r + s)[0..32] == p && (p + q + r + s)[32..64] == q
    ensures (p + q + r + s)[64..96] == r && (p + q + r + s)[96..128] == s
  {
  }

  /** And the frame determines the data blocks: packing what was unpacked
      gives the same five words. */
  lemma PackUnpack(blocks: seq<uint32>)
    requires |blocks| == 5
    ensures PackBlocks(blocks[0], UnpackBlocks(blocks)) == blocks
  {
    WordRoundTrip(blocks[1]);
    WordRoundTrip(blocks[2]);
    WordRoundTrip(blocks[3]);
    WordRoundTrip(blocks[4]);
    QuarterSlices(NumToBits(blocks[1], 32), NumToBits(blocks[2], 32), NumToBits(blocks[3], 32), NumToBits(blocks[4], 32));
    var f := UnpackBlocks(blocks);
    assert WordAt(f, 0) == blocks[1];
    assert WordAt(f, 32) == blocks[2];
    assert WordAt(f, 64) == blocks[3];
    assert WordAt(f, 96) == blocks[4];
  }

  /** WaitForResponseTimeout(CMD_ACK, ...) after the `i`-th write: `acks[i]`,
      and no acknowledgement for a write past the end of `acks`. */
  function Acked(acks: seq<bool>, i: nat): bool
  {
    i < |acks| && acks[i]
  }

  /** The first write from `i` on, below `n`, that is not acknowledged, or `n`. */
  function FirstUnacked(acks: seq<bool>, i: nat, n: nat): (r: nat)
    requires i <= n
    ensures i <= r <= n
    ensures forall j :: i <= j < r ==> Acked(acks, j)
    ensures r < n ==> !Acked(acks, r)
    decreases n - i
  {
    if i == n then n else if !Acked(acks, i) then i else FirstUnacked(acks, i + 1, n)
  }

  /** Write commands for the first `n` blocks, in order. */
  function Requests(blocks: seq<uint32>, n: nat): (r: seq<WriteRequest>)
    requires n <= |blocks|
    ensures |r| == n
    ensures forall i :: 0 <= i < n ==> r[i] == WriteBlock(blocks[i], i)
  {
    seq(n, i requires 0 <= i < n => WriteBlock(blocks[i], i))
  }

  /** The write loop: block `i` is written as block number `i`, in ascending
      order; the loop ends with -1 after the first write left unacknowledged,
      and with 0 once all five are acknowledged. */
  function WriteOutcome(blocks: seq<uint32>, acks: seq<bool>): (o: (int, seq<WriteRequest>))
    requires |blocks| == 5
    ensures o.0 == 0 || o.0 == -1
    ensures o.0 == 0 <==> forall i :: 0 <= i < 5 ==> Acked(acks, i)
    ensures 1 <= |o.1| <= 5
    ensures forall i :: 0 <= i < |o.1| ==> o.1[i] == WriteBlock(blocks[i], i)
    ensures forall i :: 0 <= i < |o.1| - 1 ==> Acked(acks, i)
    ensures o.0 == 0 ==> |o.1| == 5
    ensures o.0 == -1 ==> !Acked(acks, |o.1| - 1)
  {
    var f := FirstUnacked(acks, 0, 5);
    if f == 5 then (0, Requests(blocks, 5)) else (-1, Requests(blocks, f + 1))
  }

  /** The loop over i = 0..4 that sends each block and waits for its acknowledgement. */
  method WriteBlocks(blocks: array<uint32>, acks: seq<bool>) returns (ret: int, sent: seq<WriteRequest>)
    requires blocks.Length == 5
    ensures (ret, sent) == WriteOutcome(blocks[..], acks)
  {
    sent := [];
    for i := 0 to 5
      invariant sent == Requests(blocks[..], i)
      invariant forall j :: 0 <= j < i ==> Acked(acks, j)
    {
      sent := sent + [WriteBlock(blocks[i], i)];
      assert sent == Requests(blocks[..], i + 1);
      if !Acked(acks, i) {
        ret := -1;
        return;
      }
    }
    ret := 0;
  }

  predicate IsBlank(c: char)
  {
    c == ' ' || c == '\t'
  }

  /** Where the first parameter of a command line starts: past the leading
      blanks, or the end of the line. */
  function FirstParamIndex(cmd: string): (r: nat)
    ensures r <= |cmd|
    ensures forall j :: 0 <= j < r ==> IsBlank(cmd[j])
    ensures r < |cmd| ==> !IsBlank(cmd[r])
  {
    if |cmd| == 0 || !IsBlank(cmd[0]) then 0 else 1 + FirstParamIndex(cmd[1..])
  }

  /** param_getchar(Cmd, 0): the first character of the first parameter, or
      NUL when the line holds only blanks. */
  function FirstParamChar(cmd: string): (c: char)
    ensures !IsBlank(c)
    ensures forall i :: 0 <= i < |cmd| && !IsBlank(cmd[i]) && (forall j :: 0 <= j < i ==> IsBlank(cmd[j])) ==> c == cmd[i]
    ensures (forall j :: 0 <= j < |cmd| ==> IsBlank(cmd[j])) ==> c == '\0'
  {
    var i := FirstParamIndex(cmd);
    if i < |cmd| then cmd[i] else '\0'
  }

  /** strlen(Cmd) == 0 || cmdp == 'h' || cmdp == 'H' */
  predicate IsUsageRequest(cmd: string)
  {
    |cmd| == 0 || FirstParamChar(cmd) == 'h' || FirstParamChar(cmd) == 'H'
  }

  /** The five words the clone command writes for a parsed credential. */
  function ClonedBlocks(config: uint32, fc: uint32, cn: uint32): (blocks: seq<uint32>)
    ensures |blocks| == 5 && blocks[0] == config
    ensures UnpackBlocks(blocks) == Frame(fc % 256, cn % 65536)
  {
    UnpackPack(config, Frame(MaskFc(fc), MaskCn(cn)));
    PackBlocks(config, Frame(MaskFc(fc), MaskCn(cn)))
  }

  /** blocks[1..4] = bytebits_to_byte(bs + 32 * k, 32) for k = 0..3. */
  method FillDataBlocks(bs: array<Bit>, blocks: array<uint32>)
    requires bs.Length == 128 && blocks.Length == 5
    modifies blocks
    ensures blocks[..] == PackBlocks(old(blocks[0]), bs[..])
  {
    blocks[1] := BytebitsToByte(bs, 0, 32);
    blocks[2] := BytebitsToByte(bs, 32, 32);
    blocks[3] := BytebitsToByte(bs, 64, 32);
    blocks[4] := BytebitsToByte(bs, 96, 32);
    BytebitsFit(bs[0..32]);
    BytebitsFit(bs[32..64]);
    BytebitsFit(bs[64..96]);
    BytebitsFit(bs[96..128]);
  }

  /** The clone command for a command line, the result of scanning it for two
      numbers, the configuration word and the acknowledgement pattern. */
  function CloneSpec(cmd: string, parsed: Option<(uint32, uint32)>, config: uint32, acks: seq<bool>): (o: Outcome)
  {
    if IsUsageRequest(cmd) || parsed.None? then UsageOutcome
    else CloneCredentialSpec(parsed.value.0, parsed.value.1, config, acks)
  }

  function CloneCredentialSpec(fc: uint32, cn: uint32, config: uint32, acks: seq<bool>): (o: Outcome)
  {
    var w := WriteOutcome(ClonedBlocks(config, fc, cn), acks);
    Outcome(w.0, false, w.1)
  }

  /** CmdPyramidClone(Cmd). `parsed` is what sscanf(Cmd, "%u %u", &fc, &cn)
      found: both numbers, or None when it did not convert two. `config` is
      the T55x7 configuration word of blocks[0], `acks` the device's answers. */
  method CmdPyramidClone(cmd: string, parsed: Option<(uint32, uint32)>, config: uint32, acks: seq<bool>)
    returns (o: Outcome)
    ensures o == CloneSpec(cmd, parsed, config, acks)
  {
    var cmdp := FirstParamChar(cmd);
    if |cmd| == 0 || cmdp == 'h' || cmdp == 'H' {
      return UsageOutcome;
    }
    if parsed.None? {
      return UsageOutcome;
    }
    o := CloneCredential(parsed.value.0, parsed.value.1, config, acks);
  }

  /** The clone command once sscanf has found both numbers: mask them, encode
      the frame into a cleared buffer, pack the blocks and write them. */
  method CloneCredential(fc: uint32, cn: uint32, config: uint32, acks: seq<bool>) returns (o: Outcome)
    ensures o == CloneCredentialSpec(fc, cn, config, acks)
  {
    var bs := new Bit[128](_ => 0);
    assert bs[..8] == Zeros(8);
    var blocks := new uint32[5](_ => 0);
    blocks[0] := config;
    var facilitycode := MaskFc(fc);
    var cardnumber := MaskCn(cn);
    var ok := GetPyramidBits(facilitycode, cardnumber, bs);
    FrameInClearedBuffer(facilitycode, cardnumber, Zeros(8));

    FillDataBlocks(bs, blocks);
    assert blocks[..] == ClonedBlocks(config, fc, cn);

    var ret, sent := WriteBlocks(blocks, acks);
    o := Outcome(ret, false, sent);
  }

  /** An empty line, a help request, or a line without two numbers prints the
      usage text, returns 0 and sends nothing. */
  lemma CloneUsage(cmd: string, parsed: Option<(uint32, uint32)>, config: uint32, acks: seq<bool>)
    requires IsUsageRequest(cmd) || parsed.None?
    ensures CloneSpec(cmd, parsed, config, acks) == Outcome(0, true, [])
  {
  }

  /** Otherwise the command writes block `i` as block number `i`: first the
      configuration word, then the four words of the frame of the masked
      credential; it returns 0 exactly when all five writes were acknowledged,
      and -1 right after the first that was not. */
  lemma CloneWrites(cmd: string, fc: uint32, cn: uint32, config: uint32, acks: seq<bool>)
    requires !IsUsageRequest(cmd)
    ensures var o := CloneSpec(cmd, Some((fc, cn)), config, acks);
            var blocks := ClonedBlocks(config, fc, cn);
            && !o.usage
            && (o.ret == 0 || o.ret == -1)
            && (o.ret == 0 <==> forall i :: 0 <= i < 5 ==> Acked(acks, i))
            && 1 <= |o.sent| <= 5
            && o.sent[0] == WriteBlock(config, 0)
            && (forall i :: 0 <= i < |o.sent| ==> o.sent[i] == WriteBlock(blocks[i], i))
            && UnpackBlocks(blocks) == Frame(fc % 256, cn % 65536)
            && (forall i :: 0 <= i < |o.sent| - 1 ==> Acked(acks, i))
            && (o.ret == -1 ==> !Acked(acks, |o.sent| - 1))
  {
  }

  /** Credentials that agree on the low 8 bits of the facility code and the
      low 16 bits of the card number are cloned alike, in every respect. */
  lemma CloneTruncates(cmd: string, fc1: uint32, cn1: uint32, fc2: uint32, cn2: uint32, config: uint32, acks: seq<bool>)
    requires fc1 % 256 == fc2 % 256 && cn1 % 65536 == cn2 % 65536
    ensures CloneSpec(cmd, Some((fc1, cn1)), config, acks) == CloneSpec(cmd, Some((fc2, cn2)), config, acks)
  {
  }

  /** And those are the only credentials written alike: the five blocks are
      equal exactly when the masked credentials are. */
  lemma ClonedBlocksDetermined(config: uint32, fc1: uint32, cn1: uint32, fc2: uint32, cn2: uint32)
    ensures ClonedBlocks(config, fc1, cn1) == ClonedBlocks(config, fc2, cn2)
        <==> fc1 % 256 == fc2 % 256 && cn1 % 65536 == cn2 % 65536
  {
    FrameDeterminedByCredential(fc1 % 256, cn1 % 65536, fc2 % 256, cn2 % 65536);
    ModUnique(fc1 % 256, 256, 0, fc1 % 256);
    ModUnique(fc2 % 256, 256, 0, fc2 % 256);
    ModUnique(cn1 % 65536, 65536, 0, cn1 % 65536);
    ModUnique(cn2 % 65536, 65536, 0, cn2 % 65536);
    var b1 := ClonedBlocks(config, fc1, cn1);
    var b2 := ClonedBlocks(config, fc2, cn2);
    if b1 == b2 {
      assert Frame(fc1 % 256, cn1 % 65536) == Frame(fc2 % 256, cn2 % 65536);
    }
  }

  /** Block 0 does not depend on the credential at all. */
  lemma ConfigBlockFixed(config: uint32, fc1: uint32, cn1: uint32, fc2: uint32, cn2: uint32)
    ensures ClonedBlocks(config, fc1, cn1)[0] == ClonedBlocks(config, fc2, cn2)[0] == config
  {
  }

  /** CmdPyramidSim(Cmd): prints the usage text for an empty line or a help
      request, sends nothing and returns 0 in every case. */
  function CmdPyramidSim(cmd: string): (o: Outcome)
    ensures o.ret == 0 && o.sent == []
    ensures o.usage <==> IsUsageRequest(cmd)
  {
    Outcome(0, IsUsageRequest(cmd), [])
  }
}
