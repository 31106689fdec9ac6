/** The decoder that the daemon uses: sbc_decode on mSBC frames. It is what VoiceDaemon asks of its
    decoder, so that the guarantees of the codec, the concealment and the buffer combine. */
module MsbcDecoder {
  import opened Bits
  import opened SbcFrame
  import opened SbcDecode
  import U = SbcUnpack
  import Synthesis
  import Pcm
  import Plc
  import SbcGuarantees
  import VoiceDaemon

  const ROWS := 16

  /** The filter memory of the one channel. */
  type Memory = reg: Synthesis.Register | Synthesis.RegisterFits(reg, ROWS) witness Synthesis.Zero(ROWS)

  const DECODE_BUF_SIZE := 256

  lemma UnpacksAsMsbc(data: seq<byte>, len: nat)
    requires len < |data| && data[0] == U.MSBC_SYNCWORD && U.Unpack(data, len).Unpacked?
    ensures U.Unpack(data, len).header == MSBC && MSBC.blocks * MSBC.subbands == 120 && MSBC.Channels() == 1
  {
    hide U.ScaleOf, U.CoveredRead, BytesBits;
    SbcGuarantees.MsbcConsumption(data, len);
  }

  /** sbc_decode of a frame that handle_msbc_data hands on: it starts with the sync code, and the
      packet array is zero behind it. */
  function DecodeMsbc(f: Synthesis.Filter, memory: Memory, data: seq<byte>): (r: (Memory, Plc.Option<seq<byte>>))
    requires f.rows == ROWS
    ensures r.1.Some? ==> |r.1.value| == VoiceDaemon.PCM_BYTES
  {
    hide U.Unpack;
    if data == [] || data[0] != U.MSBC_SYNCWORD then (memory, Plc.None)
    else
      assert U.Unpack(data + [0], |data|).Unpacked? ==> U.Unpack(data + [0], |data|).header == MSBC by {
        if U.Unpack(data + [0], |data|).Unpacked? {
          UnpacksAsMsbc(data + [0], |data|);
        }
      }
      var d := DecodeFrame(f, memory, Synthesis.Zero(ROWS), data + [0], |data|, DECODE_BUF_SIZE, true);
      (d.left, if d.framelen > 0 then Plc.Some(d.out) else Plc.None)
  }

  function Decoder(f: Synthesis.Filter): VoiceDaemon.Decoder<Memory>
    requires f.rows == ROWS
  {
    (memory: Memory, data: seq<byte>) => DecodeMsbc(f, memory, data)
  }

  /** Every accepted mSBC frame gives 240 bytes, which is FS samples, and the silent frame is always
      accepted: the daemon's assumptions about its decoder hold. */
  lemma DecoderIsGood(f: Synthesis.Filter)
    requires f.rows == ROWS
    ensures VoiceDaemon.DecodesMsbc(Decoder(f))
  {
    hide DecodeMsbc;
    forall memory: Memory ensures Decoder(f)(memory, VoiceDaemon.INDICES0).1.Some? {
      SilenceDecodes(f, memory);
    }
  }

  lemma SilenceDecodes(f: Synthesis.Filter, memory: Memory)
    requires f.rows == ROWS
    ensures DecodeMsbc(f, memory, VoiceDaemon.INDICES0).1.Some?
  {
    hide U.Unpack;
    var data := VoiceDaemon.INDICES0 + [0];
    assert data[..|VoiceDaemon.INDICES0|] == VoiceDaemon.INDICES0;
    VoiceDaemon.SilentFrameUnpacks(data);
  }

  /** End to end: the samples that the concealment gets from an accepted frame are the filter's output
      for the frame's blocks, and the filter keeps its memory from frame to frame. */
  lemma SamplesDecoded(f: Synthesis.Filter, memory: Memory, data: seq<byte>)
    requires f.rows == ROWS && DecodeMsbc(f, memory, data).1.Some?
    ensures var (after, pcm) := DecodeMsbc(f, memory, data);
      var r := U.Unpack(data + [0], |data|);
      && r.Unpacked? && r.header == MSBC
      && VoiceDaemon.Samples(pcm.value) == Synthesis.Decoded(f, memory, Blocks(data + [0], MSBC, r.scale, 0))
      && after == Synthesis.RegisterAfter(f, memory, Blocks(data + [0], MSBC, r.scale, 0))
  {
    hide U.Unpack, Interleaved, Blocks, Synthesis.Decoded, Synthesis.RegisterAfter, Pcm.Shorts, Pcm.Swapped;
    UnpacksAsMsbc(data + [0], |data|);
    var r := U.Unpack(data + [0], |data|);
    var samples := Pcm16(f, memory, data + [0], MSBC, r.scale, 0);
    DecodedIsShort(f, memory, Blocks(data + [0], MSBC, r.scale, 0));
    var out := Interleaved([samples], 120, true);
    assert Output(f, memory, Synthesis.Zero(ROWS), data + [0], MSBC, r.scale) == [samples];
    assert Room(DECODE_BUF_SIZE, 120, 1) == 120;
    assert DecodeMsbc(f, memory, data).1.value == out;
    forall i | 0 <= i < 120 ensures VoiceDaemon.Samples(out)[i] == samples[i] {
      SamplesComeBack([samples], 120, i, 0);
    }
  }
}
