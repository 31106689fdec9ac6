/** The path of a voice packet through the daemon, with decoding and concealment enabled: sequence
    numbers, decoder, byte order, concealment, PCM buffer. The SBC decoder is a parameter: a function
    from its state and a frame to its next state and the PCM, if the frame decodes. */
module VoiceDaemon {
  import opened Bits
  import opened Pcm
  import Plc
  import FrameAlignment
  import MainBuffer
  import Crc8
  import SbcFrame
  import SbcGuarantees
  import U = SbcUnpack

  const MSBC_SYNC_OFFSET := 2
  const MSBC_SYNC_CODE: byte := 0xAD
  const PCM_BYTES := 240

  /** The frame that is decoded in place of a lost one: header and scale factors, then codes. */
  const INDICES0 := SILENT_SIDE + SILENT_CODES
  const SILENT_SIDE: seq<byte> := [0xAD, 0x00, 0x00, 0xC5, 0x00, 0x00, 0x00, 0x00]
  const SILENT_CODES: seq<byte> := [
    0x77, 0x6D, 0xB6, 0xDD, 0xDB, 0x6D, 0xB7, 0x76, 0xDB, 0x6D,
    0xDD, 0xB6, 0xDB, 0x77, 0x6D, 0xB6, 0xDD, 0xDB, 0x6D, 0xB7,
    0x76, 0xDB, 0x6D, 0xDD, 0xB6, 0xDB, 0x77, 0x6D, 0xB6, 0xDD,
    0xDB, 0x6D, 0xB7, 0x76, 0xDB, 0x6D, 0xDD, 0xB6, 0xDB, 0x77,
    0x6D, 0xB6, 0xDD, 0xDB, 0x6D, 0xB7, 0x76, 0xDB, 0x6C, 0x00]

  type Decoder<!S> = (S, seq<byte>) -> (S, Plc.Option<seq<byte>>)

  /** Every decoded frame is FS samples long, and the silent frame always decodes. */
  ghost predicate DecodesMsbc<S(!new)>(decoder: Decoder<S>) {
    && (forall s: S, data :: decoder(s, data).1.Some? ==> |decoder(s, data).1.value| == PCM_BYTES)
    && (forall s: S :: decoder(s, INDICES0).1.Some?)
  }

  lemma ZeroByteBits(data: seq<byte>, i: nat, k: nat)
    requires i < |data| && data[i] == 0 && 8 * i <= k < 8 * i + 8
    ensures !BytesBits(data)[k]
  {
    hide Expand, BytesBits;
    BytesBitsByte(data, i);
    ExpandZero(8);
    assert BytesBits(data)[8 * i..8 * i + 8][k - 8 * i] == BytesBits(data)[k];
  }

  lemma SilentBits(data: seq<byte>)
    requires |data| > 8 && data[1] == data[2] == data[4] == data[5] == data[6] == data[7] == 0
    ensures forall k :: 8 <= k < 24 || 32 <= k < 64 ==> !BytesBits(data)[k]
  {
    hide BytesBits;
    forall k | 8 <= k < 24 || 32 <= k < 64 ensures !BytesBits(data)[k] {
      var i := k / 8;
      assert i == 1 || i == 2 || i == 4 || i == 5 || i == 6 || i == 7;
      ZeroByteBits(data, i, k);
    }
  }

  lemma SilentCovered(bits: seq<bool>)
    requires U.CodeStart(SbcFrame.MSBC) == 64 <= |bits|
    requires forall k :: 8 <= k < 24 || 32 <= k < 64 ==> !bits[k]
    ensures U.CoveredRead(SbcFrame.MSBC, bits) == Zeros(48)
  {
    hide U.CodeStart;
  }

  /** The unpacker accepts the silent frame, whatever lies behind it in memory. */
  lemma SilentFrameUnpacks(data: seq<byte>)
    requires |INDICES0| < |data| && data[..|INDICES0|] == INDICES0
    ensures var r := U.Unpack(data, |INDICES0|); r.Unpacked? && r.length == |INDICES0| && r.header == SbcFrame.MSBC
  {
    hide U.Unpack, U.CoveredRead, BytesBits, Crc8.Checksum, Zeros;
    assert forall k :: 0 <= k < |INDICES0| ==> data[k] == data[..|INDICES0|][k];
    assert forall k :: 0 <= k < |SILENT_SIDE| ==> data[k] == SILENT_SIDE[k];
    assert data[57] == INDICES0[57] == SILENT_CODES[49] == 0;
    SilentBits(data);
    SbcGuarantees.MsbcSizes();
    SilentCovered(BytesBits(data));
    Crc8.ChecksumOfSilence(U.CoveredRead(SbcFrame.MSBC, BytesBits(data)));
    SbcGuarantees.MsbcConsumption(data, |INDICES0|);
  }

  function SeqCodeToNum(code: nat): (r: int)
    ensures -1 <= r < FrameAlignment.NUM_SEQ_CODES
  {
    if code == 0x0 then 0 else if code == 0x3 then 1 else if code == 0xC then 2 else if code == 0xF then 3 else -1
  }

  /** The sequence number of a packet with a sync byte and a good code. */
  function SeqNum(packet: seq<byte>): (r: int)
    ensures -1 <= r < FrameAlignment.NUM_SEQ_CODES
  {
    if |packet| <= MSBC_SYNC_OFFSET || packet[MSBC_SYNC_OFFSET] != MSBC_SYNC_CODE then -1
    else SeqCodeToNum(packet[1] / 16)
  }

  /** The code of number n has both halves of its four bits set as the two bits of n; no other code
      stands for a number. */
  lemma SequenceCodes(n: nat)
    requires n < FrameAlignment.NUM_SEQ_CODES
    ensures SeqCodeToNum(3 * (n % 2) + 12 * (n / 2)) == n
    ensures forall code: nat :: SeqCodeToNum(code) == n ==> code == 3 * (n % 2) + 12 * (n / 2)
  {
  }

  /** A packet: a first byte, the sequence code in the upper half of the second, then the frame, which
      starts with the sync code. */
  lemma SequenceNumberOf(first: byte, n: nat, low: nat, frame: seq<byte>)
    requires n < FrameAlignment.NUM_SEQ_CODES && low < 16 && frame != []
    ensures var second: byte := 16 * (3 * (n % 2) + 12 * (n / 2)) + low;
      SeqNum([first, second] + frame) == if frame[0] == 0xAD then n else -1
  {
    var second: byte := 16 * (3 * (n % 2) + 12 * (n / 2)) + low;
    SequenceCodes(n);
    assert second / 16 == 3 * (n % 2) + 12 * (n / 2);
    var packet := [first, second] + frame;
    assert packet[1] == second && packet[2] == frame[0];
  }

  lemma ShortPacket(packet: seq<byte>)
    requires |packet| < MSBC_SYNC_OFFSET
    ensures SeqNum(packet) < 0
  {
  }

  function Samples(pcm: seq<byte>): (r: seq<int>)
    requires |pcm| == PCM_BYTES
    ensures |r| == Plc.FS
  {
    Shorts(Swapped(pcm))
  }

  /** The decoder's state, and the frames it hands on. */
  datatype Decoding<S> = Decoding(sbc: S, frames: seq<Plc.Frame>)

  ghost predicate AllValid(frames: seq<Plc.Frame>) {
    forall f :: f in frames ==> Plc.FrameValid(f)
  }

  /** n lost frames: the decoder's response to silence, each to be concealed. */
  ghost function Fill<S(!new)>(decoder: Decoder<S>, sbc: S, n: nat): (r: Decoding<S>)
    requires DecodesMsbc(decoder)
    ensures |r.frames| == n && AllValid(r.frames)
    ensures forall f :: f in r.frames ==> f.Bad?
  {
    if n == 0 then Decoding(sbc, [])
    else
      var before := Fill(decoder, sbc, n - 1);
      var (next, pcm) := decoder(before.sbc, INDICES0);
      Decoding(next, before.frames + [Plc.Bad(Samples(pcm.value))])
  }

  /** What a packet with a sequence number adds: a concealed frame for each lost one, then its own
      frame if it decodes. */
  ghost function Handled<S(!new)>(decoder: Decoder<S>, last: nat, sbc: S, packet: seq<byte>): (r: Decoding<S>)
    requires DecodesMsbc(decoder) && SeqNum(packet) >= 0 && last < FrameAlignment.NUM_SEQ_CODES
    ensures AllValid(r.frames)
  {
    var lost := Fill(decoder, sbc, FrameAlignment.NumLost(SeqNum(packet), last));
    var (next, pcm) := decoder(lost.sbc, packet[MSBC_SYNC_OFFSET..]);
    Decoding(next, if pcm.Some? then lost.frames + [Plc.Good(Samples(pcm.value))] else lost.frames)
  }

  /** The decoder's state after n silent frames. */
  ghost function AfterSilence<S(!new)>(decoder: Decoder<S>, sbc: S, n: nat): S {
    if n == 0 then sbc else decoder(AfterSilence(decoder, sbc, n - 1), INDICES0).0
  }

  lemma {:induction false} FillAt<S(!new)>(decoder: Decoder<S>, sbc: S, n: nat, k: nat)
    requires DecodesMsbc(decoder) && k < n
    ensures Fill(decoder, sbc, n).sbc == AfterSilence(decoder, sbc, n)
    ensures Fill(decoder, sbc, n).frames[k] == Plc.Bad(Samples(decoder(AfterSilence(decoder, sbc, k), INDICES0).1.value))
  {
    hide Samples;
    if n > 1 {
      FillAt(decoder, sbc, n - 1, if k < n - 1 then k else 0);
    }
  }

  /** What the concealment sees of a packet, in order: for each lost packet the decoder's response to one
      more silent frame, as a bad frame; then, if it decodes, the packet's frame as a good one. */
  lemma HandledInOrder<S(!new)>(decoder: Decoder<S>, last: nat, sbc: S, packet: seq<byte>, k: nat)
    requires DecodesMsbc(decoder) && SeqNum(packet) >= 0 && last < FrameAlignment.NUM_SEQ_CODES
    requires k < |Handled(decoder, last, sbc, packet).frames|
    ensures var handled := Handled(decoder, last, sbc, packet);
      var lost := FrameAlignment.NumLost(SeqNum(packet), last);
      var (next, pcm) := decoder(AfterSilence(decoder, sbc, lost), packet[MSBC_SYNC_OFFSET..]);
      && handled.sbc == next && |handled.frames| == lost + (if pcm.Some? then 1 else 0)
      && handled.frames[k] ==
        if k < lost then Plc.Bad(Samples(decoder(AfterSilence(decoder, sbc, k), INDICES0).1.value)) else Plc.Good(Samples(pcm.value))
  {
    hide FrameAlignment.NumLost, Samples, SeqNum;
    var lost := FrameAlignment.NumLost(SeqNum(packet), last);
    if lost > 0 {
      FillAt(decoder, sbc, lost, if k < lost then k else 0);
    }
  }

  /** How a packet counts for the alignment of the stream. */
  ghost function ArrivalOf<S(!new)>(decoder: Decoder<S>, last: nat, sbc: S, packet: seq<byte>): FrameAlignment.Arrival
    requires DecodesMsbc(decoder) && last < FrameAlignment.NUM_SEQ_CODES
  {
    if SeqNum(packet) < 0 then FrameAlignment.Lost
    else
      var lost := Fill(decoder, sbc, FrameAlignment.NumLost(SeqNum(packet), last));
      if decoder(lost.sbc, packet[MSBC_SYNC_OFFSET..]).1.Some? then FrameAlignment.Decoded else FrameAlignment.Undecodable
  }

  /** The frames a packet adds are the frames the alignment counts. */
  lemma HandledCounts<S(!new)>(decoder: Decoder<S>, last: nat, sbc: S, packet: seq<byte>, frames: nat)
    requires DecodesMsbc(decoder) && last < FrameAlignment.NUM_SEQ_CODES && SeqNum(packet) >= 0
    ensures FrameAlignment.Handle(FrameAlignment.Count(last, frames), SeqNum(packet), ArrivalOf(decoder, last, sbc, packet)) ==
            FrameAlignment.Count(SeqNum(packet), frames + |Handled(decoder, last, sbc, packet).frames|)
  {
    hide DecodesMsbc, FrameAlignment.NumLost, Samples;
  }

  /** last_seq_num, decoder and frames after a session; packets[i] is what arrived of packet i. */
  ghost function Heard<S(!new)>(decoder: Decoder<S>, sbc: S, packets: seq<seq<byte>>): (r: (nat, Decoding<S>))
    requires DecodesMsbc(decoder)
    ensures r.0 < FrameAlignment.NUM_SEQ_CODES && AllValid(r.1.frames)
  {
    if packets == [] then (FrameAlignment.Session([]).last, Decoding(sbc, []))
    else
      var before := Heard(decoder, sbc, packets[..|packets| - 1]);
      var packet := packets[|packets| - 1];
      if SeqNum(packet) < 0 then before
      else
        var more := Handled(decoder, before.0, before.1.sbc, packet);
        (SeqNum(packet), Decoding(more.sbc, before.1.frames + more.frames))
  }

  ghost function Arrivals<S(!new)>(decoder: Decoder<S>, sbc: S, packets: seq<seq<byte>>): (r: seq<FrameAlignment.Arrival>)
    requires DecodesMsbc(decoder)
    ensures |r| == |packets|
  {
    if packets == [] then []
    else
      var first := packets[..|packets| - 1];
      var before := Heard(decoder, sbc, first);
      Arrivals(decoder, sbc, first) + [ArrivalOf(decoder, before.0, before.1.sbc, packets[|packets| - 1])]
  }

  /** Packet i, if it arrives well, carries the sequence number i modulo 4. */
  ghost predicate Numbered(packets: seq<seq<byte>>) {
    forall i :: 0 <= i < |packets| ==> SeqNum(packets[i]) < 0 || SeqNum(packets[i]) == i % FrameAlignment.NUM_SEQ_CODES
  }

  /** The daemon makes as many frames as the alignment model counts, so what is proved of the model
      holds of every session. */
  lemma {:induction false} SessionCounts<S(!new)>(decoder: Decoder<S>, sbc: S, packets: seq<seq<byte>>)
    requires DecodesMsbc(decoder) && Numbered(packets)
    ensures var (last, heard) := Heard(decoder, sbc, packets);
      FrameAlignment.Session(Arrivals(decoder, sbc, packets)) == FrameAlignment.Count(last, |heard.frames|)
  {
    hide Handled, DecodesMsbc, FrameAlignment.Handle, ArrivalOf, SeqNum;
    if packets != [] {
      var n := |packets| - 1;
      var first := packets[..n];
      assert forall i :: 0 <= i < n ==> first[i] == packets[i];
      SessionCounts(decoder, sbc, first);
      var (last, heard) := Heard(decoder, sbc, first);
      var arrivals := Arrivals(decoder, sbc, packets);
      assert arrivals[..n] == Arrivals(decoder, sbc, first);
      SessionStep(decoder, last, heard.sbc, packets[n], n, |heard.frames|);
    }
  }

  lemma SessionStep<S(!new)>(decoder: Decoder<S>, last: nat, sbc: S, packet: seq<byte>, n: nat, frames: nat)
    requires DecodesMsbc(decoder) && last < FrameAlignment.NUM_SEQ_CODES
    requires SeqNum(packet) < 0 || SeqNum(packet) == n % FrameAlignment.NUM_SEQ_CODES
    ensures FrameAlignment.Handle(FrameAlignment.Count(last, frames), n % FrameAlignment.NUM_SEQ_CODES, ArrivalOf(decoder, last, sbc, packet)) ==
            if SeqNum(packet) < 0 then FrameAlignment.Count(last, frames)
            else FrameAlignment.Count(SeqNum(packet), frames + |Handled(decoder, last, sbc, packet).frames|)
  {
    hide Handled, DecodesMsbc, SeqNum;
    if SeqNum(packet) >= 0 {
      HandledCounts(decoder, last, sbc, packet, frames);
    }
  }

  /** The bytes of whole frames that fit into the given space. */
  function Room(space: nat): (r: nat)
    ensures r <= space < r + PCM_BYTES && r % PCM_BYTES == 0
  {
    space / PCM_BYTES * PCM_BYTES
  }

  /** What still fits behind tail of a stream of whole frames. */
  function Fitting(tail: nat, stream: seq<byte>): (r: seq<byte>)
    requires tail <= MainBuffer.BUFFER_SIZE
    ensures r <= stream && tail + |r| <= MainBuffer.BUFFER_SIZE
  {
    var room := Room(MainBuffer.BUFFER_SIZE - tail);
    if |stream| <= room then stream else stream[..room]
  }

  lemma RoomLeft(space: nat, used: nat)
    requires used <= space && used % PCM_BYTES == 0
    ensures Room(space - used) == Room(space) - used
  {
  }

  lemma FittingConcat(tail: nat, a: seq<byte>, b: seq<byte>)
    requires tail <= MainBuffer.BUFFER_SIZE && |a| % PCM_BYTES == |b| % PCM_BYTES == 0
    ensures Fitting(tail, a + b) == Fitting(tail, a) + Fitting(tail + |Fitting(tail, a)|, b)
    ensures |Fitting(tail, a + b)| % PCM_BYTES == 0
  {
    hide Room;
    var space := MainBuffer.BUFFER_SIZE - tail;
    var room := Room(space);
    RoomLeft(space, |Fitting(tail, a)|);
    if |a| <= room {
      assert |a + b| > room ==> (a + b)[..room] == a + b[..room - |a|];
    } else {
      assert (a + b)[..room] == a[..room];
    }
  }

  lemma FittingBoth(tail: nat, stream: seq<byte>, a: seq<byte>, b: seq<byte>)
    requires tail <= MainBuffer.BUFFER_SIZE && |a| % PCM_BYTES == |b| % PCM_BYTES == 0
    ensures stream + Fitting(tail, a) + Fitting(tail + |Fitting(tail, a)|, b) == stream + Fitting(tail, a + b)
    ensures |Fitting(tail, a)| + |Fitting(tail + |Fitting(tail, a)|, b)| == |Fitting(tail, a + b)|
  {
    hide Fitting;
    FittingConcat(tail, a, b);
  }

  /** One frame fits if and only if the whole of it does. */
  lemma FittingNext(tail: nat, stream: seq<byte>, frame: seq<byte>)
    requires tail <= MainBuffer.BUFFER_SIZE && |frame| == PCM_BYTES && |stream| % PCM_BYTES == 0
    ensures Fitting(tail, stream + frame) == Fitting(tail, stream) +
              if tail + |Fitting(tail, stream)| + PCM_BYTES <= MainBuffer.BUFFER_SIZE then frame else []
  {
    hide Room;
    FittingConcat(tail, stream, frame);
    var space := MainBuffer.BUFFER_SIZE - tail - |Fitting(tail, stream)|;
    SpaceForOne(space);
    if space < PCM_BYTES {
      assert frame[..0] == [];
    }
  }

  lemma SpaceForOne(space: nat)
    ensures Room(space) == 0 <==> space < PCM_BYTES
    ensures space >= PCM_BYTES ==> Room(space) >= PCM_BYTES
  {
  }

  lemma BytesAppend(a: seq<int>, b: seq<int>)
    ensures Bytes(a + b) == Bytes(a) + Bytes(b)
  {
    forall i | 0 <= i < 2 * |a + b| ensures Bytes(a + b)[i] == (Bytes(a) + Bytes(b))[i] {
      if i >= 2 * |a| {
        assert (i - 2 * |a|) / 2 == i / 2 - |a|;
      }
    }
  }

  class VoiceDaemon<S(!new)> {
    const decoder: Decoder<S>
    const plc: Plc.PlcState
    const buffer: MainBuffer.MainBuffer
    var sbc: S
    var lastSeqNum: nat

    ghost predicate Valid()
      reads this, plc, plc.hist, buffer, buffer.mainBuf
    {
      DecodesMsbc(decoder) && plc.Valid() && buffer.Valid() && lastSeqNum < FrameAlignment.NUM_SEQ_CODES
    }

    /** A new session. */
    constructor (decoder: Decoder<S>, sbc: S, plc: Plc.PlcState, buffer: MainBuffer.MainBuffer)
      requires DecodesMsbc(decoder) && plc.Valid() && buffer.Valid()
      ensures Valid() && this.decoder == decoder && this.plc == plc && this.buffer == buffer
      ensures this.sbc == sbc && lastSeqNum == FrameAlignment.Session([]).last
    {
      this.decoder, this.plc, this.buffer, this.sbc, lastSeqNum := decoder, plc, buffer, sbc, 3;
    }

    /** write_to_main_buf: the converted, concealed frame is taken in whole or dropped whole. */
    method WriteToMainBuf(pcm: seq<byte>, good: bool) returns (out: seq<int>)
      requires Valid() && |pcm| == PCM_BYTES
      modifies plc`bestlag, plc`nbf, plc.hist, buffer`tail, buffer`accepted, buffer.mainBuf
      ensures Valid() && |out| == Plc.FS
      ensures Plc.Step(plc.Model(), out) ==
              Plc.Next(plc.correlation, old(plc.Model()), if good then Plc.Good(Samples(pcm)) else Plc.Bad(Samples(pcm)))
      ensures buffer.accepted == old(buffer.accepted) +
              if old(buffer.tail) + PCM_BYTES <= MainBuffer.BUFFER_SIZE then Bytes(out) else []
      ensures buffer.tail == old(buffer.tail) + |buffer.accepted| - |old(buffer.accepted)|
    {
      hide DecodesMsbc, Plc.GoodStep, Plc.BadStep, MainBuffer.Conserved, Bytes, Shorts, Swapped;
      var buf := new byte[PCM_BYTES](i requires 0 <= i < PCM_BYTES => pcm[i]);
      assert buf[..] == pcm;
      BeToLe(buf);
      var plcIn := new int[Plc.FS];
      UcharToShort(buf, plcIn);
      assert plcIn[..] == Samples(pcm);
      if good {
        out := plc.GoodFrame(plcIn[..]);
      } else {
        out := plc.BadFrame(plcIn[..]);
      }
      ShortToUchar(out, buf);
      var taken := buffer.Write(buf[..]);
    }

    /** `out` is what the concealment has made of `frames` since the state `from`, and the buffer has
        taken in what fits of it, since its tail was `tail` and it had accepted `stream`. */
    ghost predicate Written(from: Plc.State, tail: nat, stream: seq<byte>, frames: seq<Plc.Frame>, out: seq<int>)
      requires Valid() && Plc.StateValid(from) && AllValid(frames) && tail <= MainBuffer.BUFFER_SIZE
      reads this, plc, plc.hist, buffer, buffer.mainBuf
    {
      && Plc.Step(plc.Model(), out) == Plc.Run(plc.correlation, from, frames)
      && buffer.accepted == stream + Fitting(tail, Bytes(out))
      && buffer.tail == tail + |Fitting(tail, Bytes(out))|
    }

    /** One more frame written. */
    method WriteNext(pcm: seq<byte>, good: bool, ghost from: Plc.State, ghost tail: nat, ghost stream: seq<byte>,
                     ghost frames: seq<Plc.Frame>, soFar: seq<int>)
      returns (out: seq<int>)
      requires Valid() && |pcm| == PCM_BYTES && Plc.StateValid(from) && AllValid(frames) && tail <= MainBuffer.BUFFER_SIZE
      requires Written(from, tail, stream, frames, soFar)
      modifies plc`bestlag, plc`nbf, plc.hist, buffer`tail, buffer`accepted, buffer.mainBuf
      ensures Valid() && AllValid(frames + [if good then Plc.Good(Samples(pcm)) else Plc.Bad(Samples(pcm))])
      ensures Written(from, tail, stream, frames + [if good then Plc.Good(Samples(pcm)) else Plc.Bad(Samples(pcm))], out)
    {
      hide DecodesMsbc, MainBuffer.Conserved, Bytes, Shorts, Swapped, Fitting, Plc.Next;
      ghost var frame := if good then Plc.Good(Samples(pcm)) else Plc.Bad(Samples(pcm));
      assert (frames + [frame])[..|frames|] == frames;
      var more := WriteToMainBuf(pcm, good);
      out := soFar + more;
      BytesAppend(soFar, more);
      FittingNext(tail, Bytes(soFar), Bytes(more));
      assert stream + (Fitting(tail, Bytes(soFar)) + Bytes(more)) == stream + Fitting(tail, Bytes(soFar)) + Bytes(more);
    }

    /** handle_msbc_data. The concealment sees the frames the packet adds, in order; its output goes
        into the buffer as far as whole frames fit. A packet with no sync byte or a bad sequence
        code changes nothing. */
    method HandleMsbcData(packet: seq<byte>) returns (ok: bool, out: seq<int>)
      requires Valid() && |packet| >= MSBC_SYNC_OFFSET
      modifies this`sbc, this`lastSeqNum, plc`bestlag, plc`nbf, plc.hist, buffer`tail, buffer`accepted, buffer.mainBuf
      ensures Valid()
      ensures ok <==> ArrivalOf(decoder, old(lastSeqNum), old(sbc), packet) == FrameAlignment.Decoded
      ensures SeqNum(packet) < 0 ==> lastSeqNum == old(lastSeqNum) && sbc == old(sbc)
      ensures SeqNum(packet) < 0 ==> Written(old(plc.Model()), old(buffer.tail), old(buffer.accepted), [], out)
      ensures SeqNum(packet) >= 0 ==> (var handled := Handled(decoder, old(lastSeqNum), old(sbc), packet);
        && lastSeqNum == SeqNum(packet) && sbc == handled.sbc
        && Written(old(plc.Model()), old(buffer.tail), old(buffer.accepted), handled.frames, out))
    {
      hide Plc.Next, Plc.Run, MainBuffer.Conserved, Bytes, Shorts, Swapped, Fitting, FrameAlignment.NumLost;
      ok, out := false, [];
      ghost var (from, tail, stream) := (plc.Model(), buffer.tail, buffer.accepted);
      NothingWritten();
      if |packet| == MSBC_SYNC_OFFSET || packet[MSBC_SYNC_OFFSET] != MSBC_SYNC_CODE {
        return;
      }
      var seqNum := SeqCodeToNum(packet[1] / 16);
      if seqNum < 0 {
        return;
      }
      ghost var frames: seq<Plc.Frame> := [];
      var numLost := FrameAlignment.NumLost(seqNum, lastSeqNum);
      for i := 0 to numLost
        invariant Valid() && lastSeqNum == old(lastSeqNum)
        invariant Decoding(sbc, frames) == Fill(decoder, old(sbc), i)
        invariant Written(from, tail, stream, frames, out)
      {
        var (next, pcm) := decoder(sbc, INDICES0);
        sbc := next;
        out := WriteNext(pcm.value, false, from, tail, stream, frames, out);
        frames := frames + [Plc.Bad(Samples(pcm.value))];
      }
      lastSeqNum := seqNum;
      var (next, pcm) := decoder(sbc, packet[MSBC_SYNC_OFFSET..]);
      sbc := next;
      if pcm.Some? {
        out := WriteNext(pcm.value, true, from, tail, stream, frames, out);
        ok := true;
      }
    }

    lemma NothingWritten()
      requires Valid()
      ensures Written(plc.Model(), buffer.tail, buffer.accepted, [], [])
    {
    }

    /** What was written for one stretch of frames, then for the next, is written for both. */
    lemma WrittenOn(from: Plc.State, tail: nat, stream: seq<byte>, frames: seq<Plc.Frame>, out: seq<int>,
                    middle: Plc.State, more: seq<Plc.Frame>, out': seq<int>)
      requires Valid() && Plc.StateValid(from) && Plc.StateValid(middle) && AllValid(frames) && AllValid(more)
      requires tail <= MainBuffer.BUFFER_SIZE && Plc.Step(middle, out) == Plc.Run(plc.correlation, from, frames)
      requires Written(middle, tail + |Fitting(tail, Bytes(out))|, stream + Fitting(tail, Bytes(out)), more, out')
      ensures AllValid(frames + more) && Written(from, tail, stream, frames + more, out + out')
    {
      hide Plc.Next, Plc.Run, MainBuffer.Conserved, Bytes, Fitting, Plc.PlcState.Valid, Plc.PlcState.Model, AllValid;
      RunConcat(plc.correlation, from, frames, more);
      BytesAppend(out, out');
      FittingBoth(tail, stream, Bytes(out), Bytes(out'));
    }

    /** A session: handle_sco_packet for each packet, too short ones being dropped at once. */
    method Session(packets: seq<seq<byte>>) returns (out: seq<int>)
      requires Valid() && lastSeqNum == FrameAlignment.Session([]).last
      modifies this`sbc, this`lastSeqNum, plc`bestlag, plc`nbf, plc.hist, buffer`tail, buffer`accepted, buffer.mainBuf
      ensures Valid()
      ensures var (last, heard) := Heard(decoder, old(sbc), packets);
        && lastSeqNum == last && sbc == heard.sbc
        && Written(old(plc.Model()), old(buffer.tail), old(buffer.accepted), heard.frames, out)
    {
      hide Plc.Next, Plc.Run, MainBuffer.Conserved, Bytes, Fitting, Handled, SeqNum, ArrivalOf, DecodesMsbc;
      out := [];
      ghost var (from, tail, stream) := (plc.Model(), buffer.tail, buffer.accepted);
      NothingWritten();
      for i := 0 to |packets|
        invariant Valid()
        invariant (lastSeqNum, sbc) == (Heard(decoder, old(sbc), packets[..i]).0, Heard(decoder, old(sbc), packets[..i]).1.sbc)
        invariant Written(from, tail, stream, Heard(decoder, old(sbc), packets[..i]).1.frames, out)
      {
        assert packets[..i + 1][..i] == packets[..i];
        ghost var frames := Heard(decoder, old(sbc), packets[..i]).1.frames;
        if |packets[i]| >= MSBC_SYNC_OFFSET {
          ghost var middle := plc.Model();
          ghost var more := if SeqNum(packets[i]) < 0 then [] else Handled(decoder, lastSeqNum, sbc, packets[i]).frames;
          var ok, out' := HandleMsbcData(packets[i]);
          WrittenOn(from, tail, stream, frames, out, middle, more, out');
          assert frames + [] == frames;
          out := out + out';
        } else {
          assert SeqNum(packets[i]) < 0 by { ShortPacket(packets[i]); }
        }
      }
      assert packets[..|packets|] == packets;
    }
  }

  lemma {:induction false} RunConcat(corr: Plc.Correlation, s: Plc.State, a: seq<Plc.Frame>, b: seq<Plc.Frame>)
    requires Plc.StateValid(s) && AllValid(a) && AllValid(b)
    ensures AllValid(a + b)
    ensures var p := Plc.Run(corr, s, a); var q := Plc.Run(corr, p.next, b);
      Plc.Run(corr, s, a + b) == Plc.Step(q.next, p.out + q.out)
    decreases |b|
  {
    hide Plc.Next;
    if b == [] {
      assert a + b == a;
    } else {
      var n := |b| - 1;
      RunConcat(corr, s, a, b[..n]);
      assert (a + b)[..|a| + n] == a + b[..n];
    }
  }
}
