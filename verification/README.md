# Bluetooth voice: codec, concealment, HCI transport

A model, in Dafny, of the MediaTek Bluetooth code in this repository, with proofs of what it keeps:

- the SBC and mSBC codec of the voice daemon (`mediatek/bluetooth/btremoted/msbc.c`): bit allocation, bit writer,
  frame packer and unpacker, quantiser, CRC-8, synthesis filter memory, `sbc_decode`;
- the packet-loss concealment (`sbcplc.c`) and the daemon's path from voice packets to the client (`btremoted.c`);
- the H4 transport of the HAL (`interface/h4_protocol.cc`, `hci_packetizer.cc`, `hci_protocol.cc`), the wake control
  and internal commands of `interface/vendor_interface.cc`, and the firmware start-up handshake of
  `libbt-vendor/radiomod.c`.

Code that works in place is modelled by methods on arrays and by classes whose fields the methods update; each is
proved against a specification on values, and the properties are lemmas about the specification. The modules build on
each other:

| part | modules |
|---|---|
| bits and bytes | `Bits` |
| codec | `BitAllocation`, `SbcFrame`, `SbcFairness`, `BitWriter`, `Quantizer`, `Crc8`, `SbcStream`, `SbcPack`, `SbcUnpack`, `SbcRoundTrip`, `SbcGuarantees`, `Synthesis`, `SbcDecode`, `MsbcDecoder` |
| voice | `Plc`, `Pcm`, `FrameAlignment`, `MainBuffer`, `VoiceDaemon` |
| transport | `H4Stream`, `H4Protocol`, `HciProtocol` |
| vendor interface | `VendorInterface`, `InitHandshake`, `ExitNotification` |

`dafny verify dfyconfig.toml` checks everything. Bytes are integers 0 to 255; 32-bit and 64-bit wrap-around is written
out where the source's arithmetic is unsigned (quantiser, bit cache). Bit strings are `seq<bool>`, most significant bit
first.

## Findings

Properties that the code does not have as one would first state them, each with the exact condition under which it
does:

- The unpacker's length test (`msbc.c:510`) lets the reader take one bit more than `len` bytes hold. It is nevertheless
  exact, because every frame has an even number of bits (`SbcUnpack.TotalBitsEven`); one readable byte behind the input
  is enough, for this test and the trailing peek together.
- The slice loop of the bit allocation terminates if and only if the bitpool passes the guard
  (`BitAllocation.SliceLoopStopsIffGuard`).
- `sbc_get_frame_length` is right for DUAL_CHANNEL only if at most one bit of code per channel is spent on each quarter
  of the blocks (`SbcRoundTrip.FrameLengthAgrees`): its formula leaves out the second channel. `sbc_encode` moreover
  keeps it in eight bits, so its check of the output length protects the packer if and only if the frame is also
  shorter than 256 bytes (`SbcRoundTrip.OutputCheckSuffices`).
- Over 16-bit samples, `AmplitudeMatch` depends on the history alone if and only if the lag is at most 255 (`Plc.GainReadsPastHistory`). For
  larger lags it reads what lies behind the history. That is harmless in every run from `InitPLC`: `PLC_good_frame`
  leaves a copy of the last frame there, and before the first good frame the history is silent, so that every
  correlation is 0/0 and the lag stays at its smallest value (`Plc.GainIsModelled`).
- The daemon's stream stays aligned with the packets if and only if no gap exceeds three packets and every received
  frame decodes (`FrameAlignment.AlignedExactlyWhen`): a received frame that does not decode is not concealed.
- Packets with correct length fields are read back as sent if and only if no length is zero
  (`H4Stream.ReadBackExactlyWhen`): after a zero length the next byte aborts the reader
  (`H4Stream.EmptyPacketIsFatal`).
- The notification that asks the start-up worker to exit can be overwritten by a completion, even one that is judged
  only after it (`ExitNotification.NotificationLost`). It survives every continuation if and only if, when it is given,
  the worker is already leaving, or no completion is registered or under way and the worker is not about to register
  one (`ExitNotification.ObeyedExactlyWhen`). The worker is sure to stop if and only if it is already leaving or no
  successful completion of its command can still be reported (`ExitNotification.StopsExactlyWhen`).
- A completion may be accepted for a command that has not been sent yet, as the callback is registered first. An
  acknowledgement follows its own command if and only if its event was taken up when the worker was past sending
  (`InitHandshake.EventAfterCommand`); Internal_PTA_1 and Internal_PTA_2 share an opcode, so that one duplicate event is
  enough for an early one.
- A notification that the worker notices anywhere but while it waits stays in the shared status, and the next start-up
  then sends nothing and fails. A start-up that has a script is condemned like this if and only if it finds that status
  (`ExitNotification.StaleNotification`).
- The 7662 start-up script does not begin with Get_Local_BD_Addr, so the start index of combo chips skips
  Set_Local_BD_Addr there; a successful start-up sets the address in all other cases
  (`InitHandshake.AddressIsSetUnless7662`).

## Model

| member | source | states |
|---|---|---|
| BitAllocation.SliceLoopStopsIffGuard | mediatek/bluetooth/btremoted/msbc.c:203-213 | some slice demands the bitpool, so that the do-while can stop, if and only if the bitpool is at most 16 bits a lane |
| BitAllocation.Conservation | mediatek/bluetooth/btremoted/msbc.c:200-247 | after the slice loop and both passes every lane has 0 to 16 bits and they sum to exactly the bitpool; at one slice every lane lies between its share and its next, but for at most one extra bit |
| BitAllocation.CountSlice | mediatek/bluetooth/btremoted/msbc.c:206-212 | the slice count is what lowering the slice by one adds to the demand |
| BitAllocation.FindSlice | mediatek/bluetooth/btremoted/msbc.c:200-218 | the loop terminates under the guard, at the last slice whose demand the bitpool covers, with that demand counted |
| BitAllocation.TopUpPass | mediatek/bluetooth/btremoted/msbc.c:230-239 | the first in-place pass gives the specified distribution, early exit included |
| BitAllocation.FillPass | mediatek/bluetooth/btremoted/msbc.c:241-247 | the second in-place pass gives the specified distribution |
| BitAllocation.AllocateLanes | mediatek/bluetooth/btremoted/msbc.c:200-247 | the imperative allocation is the allocation that Conservation and AllocationServes are about |
| BitAllocation.AllocationServes | mediatek/bluetooth/btremoted/msbc.c:215-247 | at the slice of the waterline, lanes are served in visiting order: a bit is left over only when all growing lanes have been served and goes to the first lane that is not full; a growing lane is passed over only when nothing is left, a starting lane only when less than two bits are |
| SbcFairness.BitsFollowNeeds | mediatek/bluetooth/btremoted/msbc.c:164-356 | channel by channel and subband by subband: every subband that shares a bitpool gets the share of its own need at one slice or at the next, but for at most one that gets a bit more; served subband by subband, left before right |
| SbcFairness.LargerNeedFirst | mediatek/bluetooth/btremoted/msbc.c:164-356 | of two subbands that share a bitpool, the one with the larger need has at least as many bits as the other, but for the bit left over |
| SbcFrame.BlockSizeIsBudget | mediatek/bluetooth/btremoted/msbc.c:164-356 | for every header and all scale factors, one block takes bitpool bits, or twice that in DUAL_CHANNEL |
| SbcFrame.BitNeedMonotone | mediatek/bluetooth/btremoted/msbc.c:175-197 | a larger scale factor never needs fewer bits; all needs lie between -5 and 15, and for LOUDNESS -5 is the need of a zero scale factor alone |
| SbcFrame.NeedHalvesLoudness | mediatek/bluetooth/btremoted/msbc.c:182-194 | for LOUDNESS the need is the scale factor less the offset while that is not positive, and else half of it rounded down; the offset table follows a rule in frequency and subband |
| SbcFrame.MsbcNeeds | mediatek/bluetooth/btremoted/msbc.c:442-449 | the bit needs of an mSBC frame: -5 for silence; else half of the scale factor, two more for the lowest subband and one less for the highest |
| SbcFrame.BitNeeds | mediatek/bluetooth/btremoted/msbc.c:173-198 | all bit needs, and their maximum or 0 |
| SbcFrame.CalculateBits | mediatek/bluetooth/btremoted/msbc.c:164-356 | the bits array holds the distribution that BitsFollowNeeds is about: one allocation per channel, or one over both |
| SbcFrame.DistributeBits | mediatek/bluetooth/btremoted/msbc.c:358-364 | the same, as a value |
| BitWriter.Writer.StoreByte | mediatek/bluetooth/btremoted/msbc.c:739-740 | one byte more in the output, nothing before it changed |
| BitWriter.Writer.EmitByte | mediatek/bluetooth/btremoted/msbc.c:738-740 | eight live bits move from the cache to the output; output and pending bits together stay the same |
| BitWriter.Writer.PutBits | mediatek/bluetooth/btremoted/msbc.c:733-745 | output and pending bits are extended by exactly the field; at most 15 bits stay pending; the 32-bit cache loses no live bit |
| BitWriter.Writer.FlushBits | mediatek/bluetooth/btremoted/msbc.c:747-757 | the output becomes all bits written, completed to a byte with zeros |
| Crc8.TableIsSteps | mediatek/bluetooth/btremoted/msbc.c:103-136 | every entry of the 256-entry table is eight steps of the shift register with polynomial 0x1D |
| Crc8.TableLookup | mediatek/bluetooth/btremoted/msbc.c:144-145 | one look-up is the shift register on the eight bits of a byte |
| Crc8.LookUp | mediatek/bluetooth/btremoted/msbc.c:144-145 | one round of the byte loop |
| Crc8.CrcTail | mediatek/bluetooth/btremoted/msbc.c:147-154 | the bit loop is the shift register on the first bits of the last byte |
| Crc8.Crc | mediatek/bluetooth/btremoted/msbc.c:138-157 | for every bit length the result is the bit-serial CRC, initial value 0x0F |
| Crc8.BurstDetected | mediatek/bluetooth/btremoted/msbc.c:138-157 | two different bit strings of equal length that agree outside eight consecutive bits never have the same CRC |
| Quantizer.QuantiseExact | mediatek/bluetooth/btremoted/msbc.c:858-877 | no 32-bit or 64-bit overflow; the code is the exact rounded-down quotient |
| Quantizer.DequantiseExact | mediatek/bluetooth/btremoted/msbc.c:519-521 | the numerator fits in 32 bits, and the unsigned arithmetic gives the signed value |
| Quantizer.CodeRange | mediatek/bluetooth/btremoted/msbc.c:876-881 | the code of a covered sample is below the all-ones code |
| Quantizer.QuantiserError | mediatek/bluetooth/btremoted/msbc.c:876-881 | the reconstructed sample lies in the range of its scale factor and is off by less than a step plus one unit |
| Quantizer.MiddleCodeIsZero | mediatek/bluetooth/btremoted/msbc.c:519-521 | the middle code gives exactly 0 |
| Quantizer.QuantiseMonotone | mediatek/bluetooth/btremoted/msbc.c:876-877 | a larger sample never gets a smaller code |
| SbcStream.CodeAt | mediatek/bluetooth/btremoted/msbc.c:869-884 | each code stands at its offset in the serialised codes |
| SbcPack.PackedAsFunctional | mediatek/bluetooth/btremoted/msbc.c:774-889 | the packed form of a frame is unique, byte for byte |
| SbcPack.PushNibble | mediatek/bluetooth/btremoted/msbc.c:844-846 | the checksum copy is extended by a half byte |
| SbcPack.AlignCrc | mediatek/bluetooth/btremoted/msbc.c:850-852 | after alignment the copy holds exactly the covered bits |
| SbcPack.StoreJoint | mediatek/bluetooth/btremoted/msbc.c:836-837 | the joint mask enters the checksum copy |
| SbcPack.PackJoint | mediatek/bluetooth/btremoted/msbc.c:833-838 | the joint mask enters stream and checksum copy in the joint mode, and only then |
| SbcPack.PackFactors | mediatek/bluetooth/btremoted/msbc.c:841-847 | one channel's scale factors enter stream and checksum copy alike |
| SbcPack.PackScales | mediatek/bluetooth/btremoted/msbc.c:840-848 | all channels' scale factors do |
| SbcPack.PackSide | mediatek/bluetooth/btremoted/msbc.c:833-848 | stream and checksum copy both hold joint mask and scale factors |
| SbcPack.PackLevels | mediatek/bluetooth/btremoted/msbc.c:858-867 | the scaled levels, with 32-bit wrap, and the half ranges of a channel; the other channel is untouched |
| SbcPack.Tables | mediatek/bluetooth/btremoted/msbc.c:856-867 | distribution, levels and half ranges of the frame |
| SbcPack.PackRow | mediatek/bluetooth/btremoted/msbc.c:871-882 | the stream is extended by the quantised codes of one channel of one block, each in its bits |
| SbcPack.PackBlock | mediatek/bluetooth/btremoted/msbc.c:870-883 | the same for one block |
| SbcPack.PackCodes | mediatek/bluetooth/btremoted/msbc.c:869-884 | the same for all blocks |
| SbcPack.PackStart | mediatek/bluetooth/btremoted/msbc.c:829-854 | header bytes, the checksum of the covered bits in data[3], side information in the stream |
| SbcPack.PackFrame | mediatek/bluetooth/btremoted/msbc.c:774-889 | -5 exactly when the bitpool guard fails; otherwise the packed form and its length |
| SbcUnpack.TotalBitsEven | mediatek/bluetooth/btremoted/msbc.c:510 | every frame has an even number of bits, so the test that is off by one bit is exact |
| SbcUnpack.NibbleAt | mediatek/bluetooth/btremoted/msbc.c:484-485 | the shift and mask read four bits of the stream |
| SbcUnpack.StoreNibble | mediatek/bluetooth/btremoted/msbc.c:486-487 | the checksum copy is extended by a half byte |
| SbcUnpack.StoreJoint | mediatek/bluetooth/btremoted/msbc.c:469-472 | the joint bits enter the checksum copy, the other half byte staying zero for four subbands |
| SbcUnpack.ReadJoint | mediatek/bluetooth/btremoted/msbc.c:466-468 | bit sb of the mask is stream bit sb, but none for the last subband |
| SbcUnpack.ReadRow | mediatek/bluetooth/btremoted/msbc.c:482-491 | one channel's scale factors, read and added to the checksum copy |
| SbcUnpack.ReadScales | mediatek/bluetooth/btremoted/msbc.c:481-492 | all scale factors; the copy then holds exactly the covered bits |
| SbcUnpack.ReadSideStart | mediatek/bluetooth/btremoted/msbc.c:456-476 | the joint mask and the position behind it |
| SbcUnpack.ReadSide | mediatek/bluetooth/btremoted/msbc.c:456-495 | side information, and whether the checksum matches |
| SbcUnpack.ReadCode | mediatek/bluetooth/btremoted/msbc.c:508-517 | a code is its bits read most significant first; fails exactly when it ends beyond the bit after len bytes |
| SbcUnpack.ReadSamples | mediatek/bluetooth/btremoted/msbc.c:506-524 | one channel of one block reconstructed, the earlier samples untouched |
| SbcUnpack.ReadBlock | mediatek/bluetooth/btremoted/msbc.c:505-525 | one block |
| SbcUnpack.ReadBlocks | mediatek/bluetooth/btremoted/msbc.c:504-526 | all blocks; fails exactly when they do not fit |
| SbcUnpack.UnmixBlock | mediatek/bluetooth/btremoted/msbc.c:530-539 | sum and difference of the old values where the joint bit is set, nothing else |
| SbcUnpack.Unmix | mediatek/bluetooth/btremoted/msbc.c:528-541 | the same for all blocks |
| SbcUnpack.UnpackSamples | mediatek/bluetooth/btremoted/msbc.c:497-550 | -1 exactly when the codes do not fit in len bytes; otherwise all samples and the returned length, one more when the next byte is 0 |
| SbcUnpack.UnpackFrame | mediatek/bluetooth/btremoted/msbc.c:377-551 | error codes in the order of the source's tests; otherwise length, header, scale factors, joint mask, samples |
| SbcRoundTrip.HeaderRecovered | mediatek/bluetooth/btremoted/msbc.c:797-817 | the header bytes determine the header |
| SbcPack.HeaderBits | mediatek/bluetooth/btremoted/msbc.c:797-815 | the second byte holds, from the top: two bits each of frequency, blocks and mode, one bit for SNR, one for eight subbands |
| SbcRoundTrip.FactorStands | mediatek/bluetooth/btremoted/msbc.c:833-848 | each scale factor stands at its place behind header and joint mask, four bits each, channel by channel |
| SbcRoundTrip.CodesFollow | mediatek/bluetooth/btremoted/msbc.c:869-884 | the codes follow each other without gaps, blocks before channels before subbands |
| SbcRoundTrip.UnmixInverts | mediatek/bluetooth/btremoted/msbc.c:528-541 | half sum and half difference of left and right are delivered as left and right |
| SbcUnpack.UnpackErrors | mediatek/bluetooth/btremoted/msbc.c:393-495 | -1 below four bytes, -2 exactly for a wrong sync byte, -4 exactly for a bitpool above the limit of the mode bits, -3 only for a differing checksum, and no other code |
| SbcRoundTrip.SizesAgree | mediatek/bluetooth/btremoted/msbc.c:886-888 | packer and unpacker agree on where the codes start and on the length |
| SbcRoundTrip.FrameLengthAgrees | mediatek/bluetooth/btremoted/msbc.c:1147-1160 | the announced length is the packed length; in DUAL_CHANNEL if and only if a quarter of the blocks times the bitpool is at most 1 |
| SbcRoundTrip.OutputCheckSuffices | mediatek/bluetooth/btremoted/msbc.c:1081 | the room that the check asks for is enough for the packed frame if and only if that is shorter than 256 bytes and, in DUAL_CHANNEL, rightly announced |
| SbcRoundTrip.JointRecovered | mediatek/bluetooth/btremoted/msbc.c:467-468 | the joint mask comes back bit-reversed, without the last subband's bit |
| SbcRoundTrip.SampleRecovered | mediatek/bluetooth/btremoted/msbc.c:519-521 | every sample read is the reconstruction of the code that was packed |
| SbcRoundTrip.RoundTrip | mediatek/bluetooth/btremoted/msbc.c:377-551 | unpacking the packed bytes of any well-formed frame succeeds whatever follows, returns the packed length (one more if the next byte is 0), and recovers header, scale factors, joint mask and every code |
| SbcRoundTrip.FinalDelivered | mediatek/bluetooth/btremoted/msbc.c:528-541 | after un-mixing, each sample is that of its code, or the sum or difference of both channels' where the encoder's joint bit was set |
| SbcRoundTrip.PackThenUnpack | mediatek/bluetooth/btremoted/msbc.c:377-551 | packer and unpacker run one after the other on any well-formed frame within the guard deliver its header, scale factors and samples |
| SbcGuarantees.CodecError | mediatek/bluetooth/btremoted/msbc.c:876-881 | end to end, a sample that was given bits comes back within one step plus one unit |
| SbcGuarantees.MsbcConsumption | mediatek/bluetooth/btremoted/msbc.c:442-449 | every 0xAD frame with a matching checksum has 454 bits and is 57 bytes, or 58 if the next is 0; it fails exactly when there are fewer than 57 bytes or the checksum differs |
| SbcGuarantees.BurstRejected | mediatek/bluetooth/btremoted/msbc.c:494-495 | a burst within eight covered bits that leaves the parsed header alone makes unpacking fail with -3 |
| SbcGuarantees.MsbcBurstRejected | mediatek/bluetooth/btremoted/msbc.c:494-495 | for mSBC every such burst does |
| Synthesis.Channel.constructor | mediatek/bluetooth/btremoted/msbc.c:553-564 | the initial ring is the zero register |
| Synthesis.Channel.CopyMirror | mediatek/bluetooth/btremoted/msbc.c:628-631 | the first nine entries appear again behind the ring, nothing else changes |
| Synthesis.Channel.MoveDown | mediatek/bluetooth/btremoted/msbc.c:624-634 | one row's offset moves down the ring and its new value is stored there |
| Synthesis.MoveRow | mediatek/bluetooth/btremoted/msbc.c:624-643 | moving one row extends its own window and keeps the windows of all others |
| Synthesis.Channel.ShiftIn | mediatek/bluetooth/btremoted/msbc.c:624-643 | all windows then show the shifted register, every index within the array |
| Synthesis.Channel.Sums | mediatek/bluetooth/btremoted/msbc.c:645-661 | the outputs are those of the ten taps of the shift register |
| Synthesis.Channel.SynthesizeBlock | mediatek/bluetooth/btremoted/msbc.c:618-662 | one block is one step of the shift register |
| Synthesis.Channel.Synthesize | mediatek/bluetooth/btremoted/msbc.c:664-687 | for any sequence of blocks, the ring puts out what the shift register of A2DP Appendix B, section 12.6 puts out |
| Synthesis.DecodedConcat | mediatek/bluetooth/btremoted/msbc.c:664-687 | blocks split over several calls give the same output as in one |
| Synthesis.WindowsDisjoint | mediatek/bluetooth/btremoted/msbc.c:561-563 | no two rows' windows ever share a ring entry, and every index is below 170 |
| Synthesis.OutputAt | mediatek/bluetooth/btremoted/msbc.c:618-662 | from the start, output i of block b is the clipped window sum of ten row values: row i of this and every other block before it, the row half way up of the blocks between, zero before the start |
| Synthesis.TapsAreStandard | mediatek/bluetooth/btremoted/msbc.c:650-660 | the ten taps are the entries of the vector V that A2DP Appendix B, section 12.6 takes into U, for eight and for four subbands |
| Synthesis.Clip16Nearest | mediatek/bluetooth/btremoted/msbc.c:566-574 | clipping gives the nearest 16-bit value |
| SbcDecode.SbcDecoder.SynthesizeAudio | mediatek/bluetooth/btremoted/msbc.c:664-687 | each channel's output and filter memory follow from the unpacked samples and its own memory |
| SbcDecode.Write | mediatek/bluetooth/btremoted/msbc.c:1017-1030 | the output loops write the bytes that InterleavedBytes is about |
| SbcDecode.InterleavedBytes | mediatek/bluetooth/btremoted/msbc.c:1017-1030 | sample i of channel ch stands at position channels * i + ch, high byte first exactly in big-endian order |
| SbcDecode.SamplesComeBack | mediatek/bluetooth/btremoted/msbc.c:1017-1030 | in either byte order the samples are read back from the bytes |
| SbcDecode.SbcDecoder.Decode | mediatek/bluetooth/btremoted/msbc.c:981-1035 | return value, bytes written and new filter memory; a failed unpack writes nothing and leaves the memory |
| MsbcDecoder.DecoderIsGood | mediatek/bluetooth/btremoted/msbc.c:1010-1033 | every accepted mSBC frame gives 240 bytes, FS samples, and the silent frame is always accepted |
| MsbcDecoder.SamplesDecoded | mediatek/bluetooth/btremoted/msbc.c:969-1036 | end to end: the samples the concealment gets from an accepted frame are the filter's output for its blocks, the memory carried over |
| Plc.WindowIsOutput | mediatek/bluetooth/btremoted/sbcplc.c:26-135 | over any run of good and bad frames the history is the last LHIST output samples, silence before the start |
| Plc.LossIsPeriodic | mediatek/bluetooth/btremoted/sbcplc.c:87-98 | from the second frame of a loss every output sample equals the one a period earlier, the period the same for the whole loss and between 56 and 311 |
| Plc.TailContinues | mediatek/bluetooth/btremoted/sbcplc.c:91-98 | the saved tail is the start of the next concealed frame; for the first frame from the end of its cross-fade on |
| Plc.FirstLostFrame | mediatek/bluetooth/btremoted/sbcplc.c:55-95 | every sample of the first concealed frame and its tail: a cross-fade from the decoder's response into the scaled pattern, the scaled pattern, a cross-fade into the pattern, the pattern; the pattern is what followed the best match |
| Plc.FadeRuns | mediatek/bluetooth/btremoted/sbcplc.c:14-17 | a cross-fade comes nearer to its new signal with every sample |
| Plc.FadeEnds | mediatek/bluetooth/btremoted/sbcplc.c:14-17 | it starts within a hundredth of the gap from the old signal and ends within one of the new |
| Plc.LossStartsOnDecoder | mediatek/bluetooth/btremoted/sbcplc.c:63-69 | the first concealed sample is that of the decoder's response, but for a hundredth of the gap and the cut to an integer |
| Plc.LossReachesPattern | mediatek/bluetooth/btremoted/sbcplc.c:63-69 | the sixteenth is that of the limited scaled pattern, likewise |
| Plc.FirstGoodFrame | mediatek/bluetooth/btremoted/sbcplc.c:119-127 | the first good frame starts with the saved tail, fades from it into the input, and then is the input |
| Plc.GainMatchesAmplitude | mediatek/bluetooth/btremoted/sbcplc.c:225-237 | the gain lies in 0.75 to 1.2 and, within these limits, brings the pattern to the amplitude of the last frame |
| Plc.BestMatchBeats | mediatek/bluetooth/btremoted/sbcplc.c:186-204 | no lag correlates better with the last M samples than the best match, and no earlier one as well |
| Plc.BlendBetween | mediatek/bluetooth/btremoted/sbcplc.c:123-124 | the cross-fade back to the decoder stays between the two signals, so the cast to short without a limiter is defined |
| Plc.RunStaysShort | mediatek/bluetooth/btremoted/sbcplc.c:47-135 | over any run of 16-bit frames history, tail and outputs stay 16-bit samples |
| Plc.SearchIsFirstBest | mediatek/bluetooth/btremoted/sbcplc.c:186-204 | the match is the first lag with the highest score; NaN never wins |
| Plc.SilentMatch | mediatek/bluetooth/btremoted/sbcplc.c:186-204 | a silent history matches at lag 0 |
| Plc.GainReadsPastHistory | mediatek/bluetooth/btremoted/sbcplc.c:219-238 | over 16-bit samples, the gain depends on the history alone if and only if the lag is at most LHIST - FS |
| Plc.GainIsModelled | mediatek/bluetooth/btremoted/sbcplc.c:55-61 | in reachable states the gain read from the array is that computed from the history |
| Plc.PlcState.constructor | mediatek/bluetooth/btremoted/sbcplc.c:26-33 | whatever was in memory, the state is the initial one |
| Plc.PlcState.PatternMatch | mediatek/bluetooth/btremoted/sbcplc.c:186-204 | the loop computes the specified match |
| Plc.PlcState.AmplitudeMatch | mediatek/bluetooth/btremoted/sbcplc.c:219-238 | the loop computes the specified gain |
| Plc.PlcState.ExtendFirst | mediatek/bluetooth/btremoted/sbcplc.c:63-85 | the four loops, which read samples they have just written, give the recursive extension of the history |
| Plc.PlcState.Repeat | mediatek/bluetooth/btremoted/sbcplc.c:84-93 | the copying loops do |
| Plc.PlcState.ShiftDown | mediatek/bluetooth/btremoted/sbcplc.c:97-98 | the in-place shift moves each entry down by FS |
| Plc.PlcState.BadFrame | mediatek/bluetooth/btremoted/sbcplc.c:47-99 | output and state are a function of history, lag, tail and zero-input response only: no stale entry is used |
| Plc.PlcState.GoodFrame | mediatek/bluetooth/btremoted/sbcplc.c:115-135 | likewise for a good frame |
| Plc.PlcState.Conceal | mediatek/bluetooth/btremoted/sbcplc.c:26-135 | any run on the array gives the outputs of the model |
| Pcm.SwappedTwice | mediatek/bluetooth/btremoted/btremoted.c:174-183 | exchanging the bytes twice changes nothing |
| Pcm.BytesOfShorts | mediatek/bluetooth/btremoted/btremoted.c:146-162 | bytes to samples and back is the identity |
| Pcm.ShortsOfBytes | mediatek/bluetooth/btremoted/btremoted.c:146-162 | samples to bytes and back is the identity on 16-bit values |
| Pcm.LittleEndian | mediatek/bluetooth/btremoted/btremoted.c:146-152 | byte 2i is the low and byte 2i + 1 the signed high byte of sample i |
| Pcm.BeToLe | mediatek/bluetooth/btremoted/btremoted.c:174-183 | the in-place loop exchanges each pair of bytes |
| Pcm.UcharToShort | mediatek/bluetooth/btremoted/btremoted.c:146-152 | the samples are the signed little-endian values; entries behind them stay |
| Pcm.ShortToUchar | mediatek/bluetooth/btremoted/btremoted.c:154-162 | the bytes are the low and high bytes of the samples |
| FrameAlignment.NumLost | mediatek/bluetooth/btremoted/btremoted.c:526 | 0 to 3 packets, the number that brings the sequence number from the last one to this |
| FrameAlignment.GapSeen | mediatek/bluetooth/btremoted/btremoted.c:526 | a gap of g packets is seen as g modulo 4 |
| FrameAlignment.EveryPacketAccounted | mediatek/bluetooth/btremoted/btremoted.c:514-541 | for any loss pattern, frames written, frames never made up for, and packets lost since the last received one add up to the packets sent |
| FrameAlignment.AlignedExactlyWhen | mediatek/bluetooth/btremoted/btremoted.c:514-541 | after a received packet i exactly i + 1 frames were written if and only if every received frame decoded and no gap was longer than three |
| FrameAlignment.AlignedModuloFour | mediatek/bluetooth/btremoted/btremoted.c:514-541 | for any loss pattern of decodable frames the counts agree modulo 4 |
| MainBuffer.ConservedByWrite | mediatek/bluetooth/btremoted/btremoted.c:412-416 | taking in bytes keeps: sent bytes followed by those between head and tail are the accepted stream without its trimmed start |
| MainBuffer.ConservedBySend | mediatek/bluetooth/btremoted/btremoted.c:604-618 | a partial send and the reset of an emptied buffer keep it |
| MainBuffer.MainBuffer.Clear | mediatek/bluetooth/btremoted/btremoted.c:361-377 | nothing accepted, nothing sent, the trim set |
| MainBuffer.MainBuffer.Write | mediatek/bluetooth/btremoted/btremoted.c:412-416 | a frame is taken in whole if and only if it fits, behind what is there; the stream is conserved |
| MainBuffer.MainBuffer.SendToClient | mediatek/bluetooth/btremoted/btremoted.c:588-625 | the bytes sent are the first pending ones, the rest stays pending; before ntrim bytes arrive nothing is sent |
| VoiceDaemon.SilentFrameUnpacks | mediatek/bluetooth/btremoted/btremoted.c:112-118 | the unpacker accepts the frame used for lost ones, as 58 bytes of mSBC |
| VoiceDaemon.SequenceCodes | mediatek/bluetooth/btremoted/btremoted.c:185-196 | number n has the code 3 * (n % 2) + 12 * (n / 2), and no other code stands for a number |
| VoiceDaemon.SequenceNumberOf | mediatek/bluetooth/btremoted/btremoted.c:495-524 | the number is read from the upper half of the second byte of a packet with the sync code |
| VoiceDaemon.HandledInOrder | mediatek/bluetooth/btremoted/btremoted.c:526-544 | in order: the decoder's response to one more silent frame for each lost packet, as a bad frame, then the packet's own frame as a good one; and the decoder's state behind them |
| VoiceDaemon.HandledCounts | mediatek/bluetooth/btremoted/btremoted.c:514-541 | a packet adds as many frames as the alignment model counts |
| VoiceDaemon.SessionCounts | mediatek/bluetooth/btremoted/btremoted.c:471-548 | so does a whole session, from last_seq_num 3 |
| VoiceDaemon.FittingNext | mediatek/bluetooth/btremoted/btremoted.c:412-416 | the next frame is kept if and only if the whole of it fits |
| VoiceDaemon.VoiceDaemon.WriteToMainBuf | mediatek/bluetooth/btremoted/btremoted.c:382-417 | one frame through byte order, concealment, byte order and buffer |
| VoiceDaemon.VoiceDaemon.HandleMsbcData | mediatek/bluetooth/btremoted/btremoted.c:471-548 | the concealment sees one bad frame for each lost packet, then the packet's own frame if it decodes; its output enters the buffer as far as whole frames fit; a bad packet changes nothing |
| VoiceDaemon.VoiceDaemon.Session | mediatek/bluetooth/btremoted/btremoted.c:471-580 | a whole session: the concealment's output over all frames, in the buffer as far as it fits |
| H4Stream.FeedConcat | mediatek/bluetooth/interface/hci_packetizer.cc:54-101 | reading a stream in two parts is reading it at once |
| H4Stream.SerializedIsRead | mediatek/bluetooth/interface/h4_protocol.cc:31-38 | well-formed ACL, SCO and event packets, serialised as Send does, are read back as the same packets in order with nothing left over |
| H4Stream.ReadIsSerialized | mediatek/bluetooth/interface/h4_protocol.cc:59-85 | whatever has been read without an abort is the serialisation of the packets delivered, all well-formed, and of a prefix of the next |
| H4Stream.ReadBackExactlyWhen | mediatek/bluetooth/interface/hci_packetizer.cc:54-101 | packets with correct length fields are read back as they were sent if and only if none of the lengths is zero |
| H4Stream.EmptyPacketIsFatal | mediatek/bluetooth/interface/hci_packetizer.cc:79-90 | a zero length field is read, and the next byte aborts |
| H4Stream.AclLayout | mediatek/bluetooth/interface/hci_packetizer.cc:37-41 | literal bytes: type 2, two handle bytes, the length low byte first, then that many bytes, are one ACL packet |
| H4Stream.ScoLayout | mediatek/bluetooth/interface/hci_packetizer.cc:37-41 | type 3, two handle bytes, one length byte, then that many bytes, are one SCO packet |
| H4Stream.EventLayout | mediatek/bluetooth/interface/hci_packetizer.cc:37-41 | type 4, the event code, one length byte, then that many bytes, are one event |
| H4Protocol.HciPacketizer.ReadPreamble | mediatek/bluetooth/interface/hci_packetizer.cc:56-77 | a short read extends the packet under way by the bytes read, never past the preamble |
| H4Protocol.HciPacketizer.StartPayload | mediatek/bluetooth/interface/hci_packetizer.cc:67-75 | the packet gets the size its length field announces and starts with the preamble |
| H4Protocol.HciPacketizer.ReadPayload | mediatek/bluetooth/interface/hci_packetizer.cc:79-99 | a short read extends the packet under way, never past its end; ready exactly when it is complete |
| H4Protocol.HciPacketizer.OnDataReady | mediatek/bluetooth/interface/hci_packetizer.cc:54-101 | whatever read returns, the state changes as in the byte-by-byte reader; aborts exactly on no bytes or an empty packet |
| H4Protocol.H4Protocol.OnPacketReady | mediatek/bluetooth/interface/h4_protocol.cc:40-57 | the packet goes to the callback of its type, and the type is reset |
| H4Protocol.H4Protocol.ReadType | mediatek/bluetooth/interface/h4_protocol.cc:60-81 | one type byte; aborts on any but ACL, SCO and event |
| H4Protocol.H4Protocol.ReadPacket | mediatek/bluetooth/interface/h4_protocol.cc:82-84 | goes on with the packet, delivering it when complete |
| H4Protocol.H4Protocol.OnDataReady | mediatek/bluetooth/interface/h4_protocol.cc:59-85 | packets delivered and packet under way are the byte-by-byte reader's on all bytes consumed; aborts exactly when that does or read returns nothing |
| H4Protocol.H4Protocol.Receive | mediatek/bluetooth/interface/h4_protocol.cc:59-85 | a stream read in any pieces has the outcome of the whole stream: chunking does not matter |
| H4Protocol.H4Protocol.DeliveredAsSent | mediatek/bluetooth/interface/h4_protocol.cc:31-85 | when the bytes of well-formed packets have been consumed, exactly these were delivered in order, and the parser is in its initial state |
| H4Protocol.Send | mediatek/bluetooth/interface/h4_protocol.cc:31-38 | on the wire is a prefix of type byte and packet, of the length returned |
| HciProtocol.WriteSafely | mediatek/bluetooth/interface/hci_protocol.cc:34-61 | the bytes on the wire are the first bytes of the buffer, none twice and none skipped, as many as the descriptor takes before it fails, or all; while it only retries the call goes on |
| VendorInterface.DeassertBetweenAsserts | mediatek/bluetooth/interface/vendor_interface.cc:304-319 | two ASSERTs always have a DEASSERT between them |
| VendorInterface.DeassertWhenIdle | mediatek/bluetooth/interface/vendor_interface.cc:345-356 | a DEASSERT directly follows a timeout, and any packet before it lies before the previous timeout |
| VendorInterface.VendorInterface.constructor | mediatek/bluetooth/interface/vendor_interface.cc:259-260 | a session starts asleep, with the activity flag left from before |
| VendorInterface.VendorInterface.Send | mediatek/bluetooth/interface/vendor_interface.cc:304-319 | exactly one packet leaves, awake: ASSERT comes first if and only if the last wake operation was not ASSERT |
| VendorInterface.VendorInterface.OnTimeout | mediatek/bluetooth/interface/vendor_interface.cc:345-356 | DEASSERT if and only if no packet was sent since the previous timeout, and the timer then stops |
| VendorInterface.VendorInterface.OnFirmwareConfigured | mediatek/bluetooth/interface/vendor_interface.cc:321-343 | the completion callback is called at most once, with success if and only if the result is 0 |
| VendorInterface.VendorInterface.Transmit | mediatek/bluetooth/interface/vendor_interface.cc:81-91 | the completion is registered for this opcode and the command leaves awake |
| VendorInterface.VendorInterface.HandleIncomingEvent | mediatek/bluetooth/interface/vendor_interface.cc:358-370 | the Command Complete event of the internal command goes to its callback, once; every other event to the stack; for packets of five bytes or more the choice depends on the packet alone |
| VendorInterface.CompletionLayout | mediatek/bluetooth/interface/vendor_interface.cc:65-79 | an event 0x0E, length, count, opcode low byte, opcode high byte completes that opcode; no other event completes a command |
| InitHandshake.RunKeepsInv | mediatek/bluetooth/libbt-vendor/radiomod.c:1018-1244 | the invariant of worker, event thread and history holds in every state of every interleaving |
| InitHandshake.OneAtATime | mediatek/bluetooth/libbt-vendor/radiomod.c:1138-1240 | commands go out in script order from the start index, only the two debug commands being left out; each after all earlier ones were acknowledged; the result is reported once, when the worker goes |
| InitHandshake.SuccessMeansAcknowledged | mediatek/bluetooth/libbt-vendor/radiomod.c:1018-1240 | SUCCESS is reported only if the whole script was sent and every command got Command Complete with its own opcode and status 0 (after it was sent under the condition of EventAfterCommand) |
| InitHandshake.WholeScriptSent | mediatek/bluetooth/libbt-vendor/radiomod.c:1152-1231 | a successful start-up that is refused nothing has sent exactly the script from the start index on |
| InitHandshake.ScriptOpcodes | mediatek/bluetooth/libbt-vendor/radiomod.c:132-180 | the opcodes of the 6630, 6632, 7662 and consys scripts, in order |
| InitHandshake.ScriptOpcodes6628 | mediatek/bluetooth/libbt-vendor/radiomod.c:106-130 | the opcodes of the 6628 script, in order |
| InitHandshake.EventAfterCommand | mediatek/bluetooth/interface/vendor_interface.cc:81-91 | a completion that is taken up counts for the command at which the worker is, and came after that command was sent if and only if the worker was past sending |
| InitHandshake.AcksFollowCommands | mediatek/bluetooth/libbt-vendor/radiomod.c:1152-1228 | in every run without an event taken up between registering and sending, every acknowledgement follows its own command |
| InitHandshake.EarlyEventAccepted | mediatek/bluetooth/libbt-vendor/radiomod.c:1018-1053 | an event that comes in between is accepted for the command not yet sent |
| InitHandshake.AddressIsSetUnless7662 | mediatek/bluetooth/libbt-vendor/radiomod.c:1098-1150 | a successful start-up sent Set_Local_BD_Addr if and only if it was not the 7662 script from index 1 |
| InitHandshake.WorkerIsNeverStuck | mediatek/bluetooth/libbt-vendor/radiomod.c:1152-1228 | the worker can always take a step but where it waits for a completion whose callback is registered or under way |
| InitHandshake.WorkIsBounded | mediatek/bluetooth/libbt-vendor/radiomod.c:1152-1244 | in every run the worker takes at most a number of steps fixed by the script |
| InitHandshake.GoneStays | mediatek/bluetooth/libbt-vendor/radiomod.c:1230-1244 | after fwcfg_cb nothing more is sent or reported |
| ExitNotification.ObeyedExactlyWhen | mediatek/bluetooth/libbt-vendor/radiomod.c:1048-1065 | in every reachable state: a notification survives every continuation if and only if the worker is leaving, or nothing is registered or under way and the worker is not between setting PENDING and registering |
| ExitNotification.StopsExactlyWhen | mediatek/bluetooth/libbt-vendor/radiomod.c:1058-1228 | in every reachable state: in every continuation the notified worker sends nothing but a command it was committed to and reports no unearned SUCCESS, if and only if it is leaving or no successful completion can still be reported |
| ExitNotification.NotificationObeyed | mediatek/bluetooth/libbt-vendor/radiomod.c:1207-1225 | from any reachable state the notification is obeyed for as long as no completion is reported |
| ExitNotification.NotificationLost | mediatek/bluetooth/libbt-vendor/radiomod.c:1048-1065 | a start-up notified while it waits, with nothing judged yet, goes on to its second command |
| ExitNotification.StaleNotification | mediatek/bluetooth/libbt-vendor/radiomod.c:1152-1231 | a start-up sends nothing, whatever happens, if and only if it has no script or finds the status of an earlier exit notification |

## Left out

- Encoder analysis filters and the calculation of scale factors: samples and scale factors are inputs, the scale
  factors covering the samples; the primitives file is not part of this model.
- Synthesis coefficients: matrix and window are functions of the row values and taps, so the 32-bit wrap of the sums is
  not modelled; the clipping to 16 bits is.
- SbcUnpack.UnpackFrame: the frame fields a failed call has already overwritten, and the unused read of the byte after
  the covered ones in `sbc_crc8` (`msbc.c:147`), are not modelled; the joint mask is a sequence of bits.
- SbcPack.PackFrame: assumes that the buffer holds the packed frame and that the joint mask fits in the subbands.
  `sbc_encode` checks the buffer only as far as SbcRoundTrip.OutputCheckSuffices says: it accepts too small a buffer for
  DUAL_CHANNEL frames and for frames of 256 bytes or more.
- SbcDecode.SbcDecoder.Decode: the number of subbands stays that of the first parsed frame, which is assumed to parse;
  the fields copied to the `sbc_t` and the call without an output buffer are left out.
- BitWriter.Writer.PutBits: the source's `|` into the bits freed by the shift is modelled as addition.
- Plc: floating-point rounding; arithmetic is real, the cross-correlation a parameter that is not a number for a silent
  template; `nbf` does not overflow.
- VoiceDaemon.VoiceDaemon.HandleMsbcData: only with decoding and concealment enabled; the raw and the unconcealed mode,
  sockets, the poll loop, metrics, logging and dumps are left out. A corrupted sequence code that is another valid code
  is not considered by the alignment lemmas.
- MainBuffer.MainBuffer.SendToClient: the descriptor check and the first-write log are left out; `ntrim` is assumed to
  lie within the buffer.
- H4Protocol.HciPacketizer.OnDataReady: an abort ends the process, so nothing is said of the state after it; contents of
  a resized packet before they are read are zero in the model.
- HciProtocol.WriteSafely: the results of write are a finite list given beforehand; a call that still retries at its end
  is reported as waiting. `WritevSafely` has no callers and is left out.
- InitHandshake and ExitNotification: a state machine on values, one function per atomic step, because the behaviour is
  an interleaving of threads; command parameters, NVRAM, address generation and buffers are left out. A run starts with
  no callback registered, and the callback's event is a Command Complete event.
- VendorInterface.VendorInterface.HandleIncomingEvent: an event shorter than five bytes, which the transport delivers,
  makes the source read the opcode behind the packet; the bytes found there are a parameter.
- VendorInterface: Send, OnTimeout and the other handlers are atomic; opening and closing the library is left out.
- `mct_protocol.cc`, `async_fd_watcher.cc`, `bluetooth_hci.cc`, the Wi-Fi HAL, lights, power and graphics: their own
  claims are easy or lie outside these files.
