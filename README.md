# Farpointe/Pyramid clone and sim commands, modelled in Dafny

The proxmark3 client's `lf pyramid` commands turn a Farpointe/Pyramid
credential into a 128-bit frame and write it to a T55x7 tag. The credential is
an 8-bit facility code and a 16-bit card number.

- `GetPyramidBits` builds the frame:
  - header bits 0..7 are left as the caller cleared them;
  - bits 8..119 are fourteen bytes, each seven data bits and one odd parity bit;
  - bits 120..127 hold CRC-8/MAXIM over the thirteen bytes at bits 16..119.
  - The data bits come from a scratch buffer: it holds the 26 cells of the
    Wiegand buffer, framed by an even and an odd parity bit, at offset 71.
- `CmdPyramidClone`:
  1. answers an empty line or a help request with its usage text;
  2. scans two numbers and masks them to 8 and 16 bits;
  3. encodes the frame into a cleared buffer;
  4. packs the frame into four 32-bit data blocks behind a configuration block;
  5. writes the five blocks in order, stopping at the first write the device
     does not acknowledge.
- `CmdPyramidSim` has only its usage guard. The rest of its body is commented out.

The model has five modules.

- `BitBuffers` (`bits.dfy`): one-cell-per-bit buffers, with
  `num_to_bytebits`, `bytebits_to_byte` and the cell-by-cell stores.
- `Parity` (`parity.dfy`): `wiegand_add_parity` and `addParity`.
- `Crc8` (`crc8.dfy`): CRC-8/MAXIM. The byte-at-a-time update is proved equal to
  the serial 1-Wire shift register.
- `Pyramid` (`pyramid.dfy`): the frame encoder. It is an array method proved
  against the function `Frame`; the frame's layout is proved as lemmas about
  that function.
- `PyramidCmd` (`pyramid_cmd.dfy`): the commands.
  - The device is an acknowledgement pattern: `acks[i]` says whether the
    `i`-th write was acknowledged.
  - The result of `sscanf` is a parameter.
  - The T55x7 configuration word is a parameter.

Three details of the code decide what the model does:

- `addParity(pre+8, pyramidBits+8, 112, 8, 1)`: the group width 8 includes
  the parity bit, so each group carries 7 data bits and ends in its odd
  parity bit.
- `wiegand_add_parity(pre+71, wiegand, 26)` frames all 26 cells of `wiegand`,
  with one parity bit before them and one after. Cells 24 and 25 are never
  assigned, and the model fixes them to 0; see Findings.
- A usage request returns the value of `usage_lf_pyramid_clone` or
  `usage_lf_pyramid_sim`, and both return 0 (lines 24 and 38). So an empty
  line, a help request and a line without two numbers all return 0, the
  same value as a clone whose five writes were all acknowledged.

## Model

| member | source | states |
|---|---|---|
| `Pyramid.GetPyramidBits` | client/cmdlfpyramid.c:46-72 | always reports success; the caller's header cells 0..7 are kept, and cells 8..127 become the frame of (fc, cn) |
| `Pyramid.ComputeChecksum` | client/cmdlfpyramid.c:64-69 | the checksum loop packs cells 16..119 into 13 bytes, most significant bit first, and returns CRC-8/MAXIM of them |
| `Pyramid.PreLayout` | client/cmdlfpyramid.c:48-59 | the scratch buffer holds the parity-framed Wiegand field at 71..98 (facility code 72..79, card number 80..95, unwritten cells 96..97) and zero everywhere else |
| `Pyramid.FrameBody` | client/cmdlfpyramid.c:62 | frame cells 8..119 are addParity of scratch bits 8..105 with odd parity and groups of 8 |
| `Pyramid.FrameHeader` | client/cmdlfpyramid.c:46-72 | the encoder never writes header bits 0..7, so in a cleared buffer they are 0 |
| `Pyramid.FrameChecksum` | client/cmdlfpyramid.c:64-70 | frame bits 120..127, read as a number, equal CRC-8/MAXIM of the bytes at frame bits 16..119 |
| `Pyramid.FrameGroupParity` | client/cmdlfpyramid.c:62 | each of frame bytes 1..14 has an odd number of set bits |
| `Pyramid.FrameCredentialOfFrame` | client/cmdlfpyramid.c:46-72 | with the parity bits removed, the frame gives back fc mod 256 and cn mod 65536, whichever bits the unwritten cells hold |
| `Pyramid.FrameDeterminedByCredential` | client/cmdlfpyramid.c:46-72 | two credentials give the same frame if and only if they agree on the low 8 bits of fc and the low 16 bits of cn |
| `Pyramid.FrameShowsUnwrittenCells` | client/cmdlfpyramid.c:54-62 | the two unwritten `wiegand` cells 24 and 25 appear as frame bits 108 and 109 |
| `Pyramid.UnwrittenCellsChangeFrame` | client/cmdlfpyramid.c:54-62 | different bits in the unwritten cells give different frames for the same credential |
| `Pyramid.WiegandCells` | client/cmdlfpyramid.c:54-56 | the 26 `wiegand` cells: facility code in 0..7 and card number in 8..23, most significant bit first (PreLayout places them in the scratch buffer), then the two unwritten cells |
| `Pyramid.ChecksumWindow` | client/cmdlfpyramid.c:65-67 | `csBuff`: 13 bytes, byte i read from the 8 cells at 8i; ComputeChecksum proves that the loop at lines 66-67 fills `csBuff` with it, ByteOfValue that each byte's value is the number those cells spell most significant bit first, and ChecksumWindowWriteBack that writing each byte back gives its 8 cells |
| `Pyramid.ByteOfValue` | client/cmdlfpyramid.c:67 | the byte `bytebits_to_byte` reads from 8 cells has, as a number, the value those cells spell most significant bit first |
| `Pyramid.ChecksumWindowWriteBack` | client/cmdlfpyramid.c:65-67 | writing byte i of `csBuff` back as 8 cells, most significant bit first, gives cells 8i..8i+7 of the window it was read from |
| `Pyramid.PreWith` | client/cmdlfpyramid.c:48-59 | the `pre` buffer after it is cleared at line 49 and the parity-framed Wiegand field is written at 71 on line 59; PreLayout states what each of its cells holds |
| `Pyramid.ChecksumBits` | client/cmdlfpyramid.c:69-70 | the 8 cells stored at 120 on line 70: CRC-8/MAXIM of the window's bytes, most significant bit first; FrameChecksum places them in the frame and reads them back as the CRC |
| `Pyramid.FrameWith` | client/cmdlfpyramid.c:46-72 | the 128-cell frame as the code computes it, with the two unwritten `wiegand` cells as a parameter; its layout is given by FrameBody, FrameHeader, FrameChecksum, FrameGroupParity and FrameCredentialOfFrame, and its dependence on those cells by FrameShowsUnwrittenCells |
| `Pyramid.Frame` | client/cmdlfpyramid.c:46-72 | the 128-cell frame with the unwritten cells 0; FrameDeterminedByCredential shows it is a function of the masked credential alone |
| `Pyramid.ParityPassAsWritten` | client/cmdlfpyramid.c:62 | the parity pass as the call is written, 128 cells long; ParityPassOverrun relates it to the corrected ParityPass |
| `Pyramid.ParityPassOverrun` | client/cmdlfpyramid.c:62 | as written the parity pass yields 128 bits from offset 8, so 8 bits beyond the 128-cell buffer; those 8 are the 16th group, source bits 113..119 and their odd parity bit, and the part that fits is the 120-bit corrected pass |
| `Pyramid.ParityPass` | client/cmdlfpyramid.c:62 | the corrected parity pass yields exactly the 120 cells 8..127 |
| `Pyramid.FrameInClearedBuffer` | client/cmdlfpyramid.c:96-98 | written into a buffer whose header cells are clear, the encoder leaves exactly the frame |
| `Pyramid.FrameFromStages` | client/cmdlfpyramid.c:62-70 | the parity store followed by the checksum store turn any caller buffer into its header followed by the frame |
| `Parity.ParityBit` | client/cmdlfpyramid.c:59-62 | the parity bit both helpers compute: with it, the group's number of set bits is even or odd as asked |
| `Parity.WiegandAddParity` | client/cmdlfpyramid.c:59 | the source bits are framed by an even parity bit over their first half and an odd parity bit over their second half |
| `Parity.AddParity` | client/cmdlfpyramid.c:62 | addParity as a function of the source; its meaning is given by AddParityChunk (each group followed by its parity bit), AddParityGroupParity, AddParityLength and the inverse StripAddParity |
| `Parity.AddParityChunk` | client/cmdlfpyramid.c:62 | the g-th output group is the g-th group of pLen-1 source bits followed by its parity bit |
| `Parity.AddParityGroupParity` | client/cmdlfpyramid.c:62 | every output group has the requested parity |
| `Parity.AddParityLength` | client/cmdlfpyramid.c:62 | the output gains one bit per group of pLen-1 source bits |
| `Parity.AddParityAppend` | client/cmdlfpyramid.c:62 | addParity over two runs of whole groups is the two outputs one after the other |
| `Parity.StripAddParity` | client/cmdlfpyramid.c:62 | removing the parity bits from the output gives back the source |
| `Crc8.Crc8Maxim` | client/cmdlfpyramid.c:69 | CRC8Maxim byte at a time with the reflected polynomial 0x8C; Crc8MaximIsSerial proves it equal to the serial 1-Wire register, Crc8MaximResidue and Crc8MaximCheckValue state its catalogue properties |
| `Crc8.Crc8MaximIsSerial` | client/cmdlfpyramid.c:69 | the byte-at-a-time CRC equals the 1-Wire shift register clocked with every byte's bits, least significant first |
| `Crc8.UpdateByteIsSerial` | client/cmdlfpyramid.c:69 | one byte-at-a-time update equals eight clocks of the serial register |
| `Crc8.Crc8MaximResidue` | client/cmdlfpyramid.c:69-70 | a byte string followed by its CRC has CRC 0 |
| `Crc8.Crc8MaximCheckValue` | client/cmdlfpyramid.c:69 | the ASCII string "123456789" gives 0xA1, the catalogue check value of CRC-8/MAXIM |
| `BitBuffers.BytebitsToByte` | client/cmdlfpyramid.c:119-122 | shifting cells into a 32-bit register gives their value modulo 2^32 |
| `BitBuffers.NumToBits` | client/cmdlfpyramid.c:55-56 | num_to_bytebits: exactly `len` cells, most significant bit first; BitsToNumOfNumToBits and NumToBitsOfBitsToNum make it the inverse of reading the cells back (also used for the CRC store at line 70) |
| `BitBuffers.BitsToNumOfNumToBits` | client/cmdlfpyramid.c:55-56 | reading back the cells of num_to_bytebits gives the number reduced to len bits |
| `BitBuffers.NumToBitsOfBitsToNum` | client/cmdlfpyramid.c:119-122 | writing back the value that was read gives the same cells |
| `BitBuffers.WriteBits` | client/cmdlfpyramid.c:55-70 | a store changes only the cells in its range that lie inside the buffer, and those receive the given bits |
| `PyramidCmd.MaskFc` | client/cmdlfpyramid.c:108 | fc & 0xFF is fc modulo 256 |
| `PyramidCmd.MaskCn` | client/cmdlfpyramid.c:109 | cn & 0xFFFF is cn modulo 65536 |
| `PyramidCmd.MaskIdempotent` | client/cmdlfpyramid.c:108-109 | masking a masked value changes nothing |
| `PyramidCmd.MaskPeriod` | client/cmdlfpyramid.c:108-109 | fc and fc+256, and cn and cn+65536, mask alike |
| `PyramidCmd.PackBlocks` | client/cmdlfpyramid.c:101-122 | five words, block 0 the configuration word and blocks 1..4 the four 32-cell words; UnpackPack and PackUnpack make it a bijection with the frame |
| `PyramidCmd.FillDataBlocks` | client/cmdlfpyramid.c:119-122 | block 0 is kept and blocks 1..4 are the four 32-cell words of the buffer |
| `PyramidCmd.UnpackPack` | client/cmdlfpyramid.c:119-122 | the four data blocks unpack back to the 128-bit frame |
| `PyramidCmd.PackUnpack` | client/cmdlfpyramid.c:119-122 | packing the unpacked cells gives the same five words |
| `PyramidCmd.Acked` | client/cmdlfpyramid.c:138 | `WaitForResponseTimeout(CMD_ACK, ...)` after the i-th write: acks[i], and no acknowledgement past the end of acks; WriteOutcome and CloneWrites state what it decides |
| `PyramidCmd.WriteOutcome` | client/cmdlfpyramid.c:130-143 | block i is sent as block number i, in order; the result is 0 exactly when all five writes are acknowledged, and otherwise -1 right after the first write that is not |
| `PyramidCmd.WriteBlocks` | client/cmdlfpyramid.c:130-143 | the write loop returns what WriteOutcome states |
| `PyramidCmd.FirstParamIndex` | client/cmdlfpyramid.c:91 | the first parameter starts after the leading blanks |
| `PyramidCmd.FirstParamChar` | client/cmdlfpyramid.c:91 | param_getchar(Cmd, 0) is the first non-blank character of the line, or NUL when it has none |
| `PyramidCmd.IsUsageRequest` | client/cmdlfpyramid.c:92 | the usage guard: an empty line, or a first parameter that starts with `h` or `H`; CloneUsage and CmdPyramidSim state what it leads to |
| `PyramidCmd.ClonedBlocks` | client/cmdlfpyramid.c:101-122 | block 0 is the configuration word, and the data blocks hold the frame of the masked credential |
| `PyramidCmd.ClonedBlocksDetermined` | client/cmdlfpyramid.c:101-122 | two credentials give the same five blocks if and only if their masked values agree |
| `PyramidCmd.ConfigBlockFixed` | client/cmdlfpyramid.c:101 | block 0 does not depend on the credential |
| `PyramidCmd.CloneSpec` | client/cmdlfpyramid.c:89-144 | the clone command as a function of the line, the scan result, the configuration word and the acks; CloneUsage, CloneWrites and CloneTruncates state what it does |
| `PyramidCmd.CmdPyramidClone` | client/cmdlfpyramid.c:89-144 | the command's result is CloneSpec: usage on a help request or failed scan, otherwise the write loop over the cloned blocks |
| `PyramidCmd.CloneCredential` | client/cmdlfpyramid.c:94-143 | once both numbers are scanned: mask, encode into a cleared buffer, pack and write |
| `PyramidCmd.CloneUsage` | client/cmdlfpyramid.c:91-106 | an empty line, a help request or a line without two numbers prints the usage text, returns 0 and sends nothing |
| `PyramidCmd.CloneWrites` | client/cmdlfpyramid.c:101-143 | otherwise block 0 (the configuration word) is sent first; each block goes out under its own number, the data blocks carry the masked frame, and the result is 0 exactly when all five writes are acknowledged, else -1 after the first missing ack |
| `PyramidCmd.CloneTruncates` | client/cmdlfpyramid.c:108-109 | credentials that agree on the low 8 and 16 bits are cloned alike |
| `PyramidCmd.CmdPyramidSim` | client/cmdlfpyramid.c:146-171 | returns 0 and sends nothing; it prints the usage text exactly on an empty line or a help request |

## Left out

- The USB transport is left out. `SendCommand` is modelled as adding a
  `WriteBlock` to the list of sent commands, and `WaitForResponseTimeout` as
  the acknowledgement pattern `acks`. The 1000 ms timeout and
  `clearCommandBuffer` are not modelled.
- `CmdPyramidRead` samples the antenna and calls the FSK demodulator. Both are
  device I/O whose code is not part of this model.
- The text printed by `PrintAndLog` and the usage functions is left out. Only
  whether the usage text was printed is kept.
- `CommandTable`, `CmdHelp` and `CmdLFPyramid` are left out. They dispatch
  command names.
- `GetWiegandFromPyramid` is not modelled. It is a stub that returns 0, and
  nothing calls it.
- The commented-out code in `CmdPyramidSim` and `CmdPyramidClone` is not
  modelled.
- `sscanf(Cmd, "%u %u", ...)` is not modelled. Its result is a parameter:
  both numbers, or `None` when it did not convert two.
- `param_getchar` and the helpers `num_to_bytebits`, `bytebits_to_byte`,
  `wiegand_add_parity`, `addParity` and `CRC8Maxim` are modelled from how
  this file uses them. The files that define them are not part of this model.
- The configuration word `T55x7_MODULATION_FSK2a | T55x7_BITRATE_RF_50 | 4<<T55x7_MAXBLOCK_SHIFT`
  is a parameter. The macro values are not part of this model.
- The `return 1` after a failed `GetPyramidBits` is not modelled as a path
  (lines 114-117). `GetPyramidBits` is proved always to report success, so
  this path cannot be reached.
- `Pyramid.GetPyramidBits` does not model the 8-cell write past the end of the
  caller's buffer. Its store is clipped to the buffer (`WriteBits`), and
  `Pyramid.ParityPassOverrun` states the size of the overrun.
- `addParity` is modelled only for source lengths that are a multiple of the
  group's data width. This is the only case this file uses.
- Command lines are `seq<char>`, and `strlen(Cmd)` is their length.
- Blanks for `param_getchar` are space and tab.
- `PyramidCmd.FirstParamChar`: a command line may hold NUL characters in the
  model, which a C string cannot. On such a line the model keeps reading past
  the NUL, where `strlen` and `param_getchar` would stop.
- `Pyramid.FrameWith` takes the two unwritten `wiegand` cells to hold bits.
  The C buffer is `uint8_t`, so stale bytes other than 0 and 1 are possible;
  what `wiegand_add_parity` and `addParity` make of those is not modelled.

## Findings

| source | as written | input that shows it | evidently intended | confidence | as-written member | corrected member |
|---|---|---|---|---|---|---|
| client/cmdlfpyramid.c:54-59 | `wiegand[26]` is never cleared, and only cells 0..23 are assigned before `wiegand_add_parity(pre+71, wiegand, 26)` reads all 26 | any credential, e.g. fc 123, cn 11223: cells 24 and 25 hold whatever the stack held; for stale bits they become frame bits 108 and 109 (and change the parity bit and the CRC) | the frame depends only on the credential; the model fixes the two unwritten cells to 0 | not executed | `Pyramid.UnwrittenCellsChangeFrame` | `Pyramid.FrameDeterminedByCredential` |
| client/cmdlfpyramid.c:62 | `addParity(pre+8, pyramidBits+8, 112, 8, 1)` turns 112 source bits into 128 output bits at offset 8 of a 128-cell buffer | any credential: the last group lands in cells 128..135, past `bits[128]` in `CmdPyramidClone` | 105 source bits, giving 120 output bits that fill cells 8..127 | not executed | `Pyramid.ParityPassOverrun` | `Pyramid.ParityPass` |
