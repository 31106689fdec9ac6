/** The daemon's PCM buffer: frames are appended at tail, the client is sent what lies between head
    and tail, and the start of a session is trimmed by starting head at `ntrim`. */
module MainBuffer {
  import opened Bits

  const BUFFER_SIZE := 320000

  /** A stream without its first n bytes. */
  function Trimmed(stream: seq<byte>, n: nat): seq<byte> {
    if |stream| <= n then [] else stream[n..]
  }

  /** What lies between head and tail. */
  function Between(written: seq<byte>, head: nat): seq<byte> {
    if |written| < head then [] else written[head..]
  }

  /** The bytes sent, followed by the bytes between head and tail, are the accepted stream without
      its first `trim` bytes; before `trim` bytes have come in, nothing has left the buffer. */
  ghost predicate Conserved(written: seq<byte>, head: nat, trim: nat, accepted: seq<byte>, sent: seq<byte>) {
    && sent + Between(written, head) == Trimmed(accepted, trim)
    && (|written| < head ==> head == trim && sent == [] && accepted == written)
    && (|written| >= head ==> trim <= |accepted|)
  }

  lemma ConservedByWrite(written: seq<byte>, buf: seq<byte>, head: nat, trim: nat, accepted: seq<byte>, sent: seq<byte>)
    requires Conserved(written, head, trim, accepted, sent)
    ensures Conserved(written + buf, head, trim, accepted + buf, sent)
  {
    if |written| >= head {
      assert (written + buf)[head..] == written[head..] + buf;
      assert (accepted + buf)[trim..] == accepted[trim..] + buf;
      assert sent + (written[head..] + buf) == (sent + written[head..]) + buf;
    } else if |written + buf| >= head {
      assert (written + buf)[head..] == (accepted + buf)[trim..];
    }
  }

  lemma ConservedBySend(written: seq<byte>, n: nat, head: nat, trim: nat, accepted: seq<byte>, sent: seq<byte>)
    requires Conserved(written, head, trim, accepted, sent) && head + n <= |written|
    ensures Conserved(written, head + n, trim, accepted, sent + written[head..head + n])
    ensures head + n == |written| ==> Conserved([], 0, trim, accepted, sent + written[head..head + n])
  {
    assert written[head..] == written[head..head + n] + written[head + n..];
    assert (sent + written[head..head + n]) + written[head + n..] == sent + written[head..];
  }

  class MainBuffer {
    const mainBuf: array<byte>
    var head: nat
    var tail: nat

    /** Since the last clear: where head started, the bytes taken in, and the bytes sent. */
    ghost var trim: nat
    ghost var accepted: seq<byte>
    ghost var sent: seq<byte>

    ghost predicate Valid()
      reads this, mainBuf
    {
      && mainBuf.Length == BUFFER_SIZE && tail <= BUFFER_SIZE && head <= BUFFER_SIZE
      && Conserved(mainBuf[..tail], head, trim, accepted, sent)
    }

    /** What the client will be sent next. */
    ghost function Pending(): seq<byte>
      requires tail <= mainBuf.Length
      reads this, mainBuf
    {
      Between(mainBuf[..tail], head)
    }

    constructor (ntrim: nat)
      requires ntrim <= BUFFER_SIZE
      ensures Valid() && accepted == [] && sent == [] && trim == ntrim && fresh(mainBuf)
    {
      mainBuf := new byte[BUFFER_SIZE](_ => 0);
      head, tail := ntrim, 0;
      trim, accepted, sent := ntrim, [], [];
    }

    /** clear_main_buf; ntrim is 0 when decoding is off. */
    method Clear(ntrim: nat)
      requires Valid() && ntrim <= BUFFER_SIZE
      modifies this`head, this`tail, this`trim, this`accepted, this`sent
      ensures Valid() && accepted == [] && sent == [] && trim == ntrim
    {
      head := ntrim;
      tail := 0;
      trim, accepted, sent := ntrim, [], [];
    }

    /** The frame is copied behind what is already there. */
    method CopyIn(buf: seq<byte>)
      requires tail + |buf| <= mainBuf.Length
      modifies mainBuf
      ensures mainBuf[..tail + |buf|] == old(mainBuf[..tail]) + buf
    {
      ghost var before := mainBuf[..tail];
      for i := 0 to |buf|
        invariant mainBuf[..tail + i] == before + buf[..i]
      {
        ghost var done := mainBuf[..tail + i];
        mainBuf[tail + i] := buf[i];
        assert mainBuf[..tail + i] == done;
        assert mainBuf[..tail + i + 1] == done + [buf[i]];
      }
    }

    /** The end of write_to_main_buf: a frame is taken in whole or not at all. */
    method Write(buf: seq<byte>) returns (taken: bool)
      requires Valid()
      modifies this`tail, this`accepted, mainBuf
      ensures Valid()
      ensures taken <==> old(tail) + |buf| <= BUFFER_SIZE
      ensures mainBuf[..tail] == old(mainBuf[..tail]) + if taken then buf else []
      ensures accepted == old(accepted) + if taken then buf else []
    {
      hide Conserved;
      taken := false;
      if tail + |buf| <= mainBuf.Length {
        ConservedByWrite(mainBuf[..tail], buf, head, trim, accepted, sent);
        CopyIn(buf);
        accepted := accepted + buf;
        tail := tail + |buf|;
        taken := true;
      }
    }

    /** write_to_client, where send() took `written` bytes, or failed when it is negative. */
    method SendToClient(written: int) returns (out: seq<byte>)
      requires Valid() && (tail >= head ==> written <= tail - head)
      modifies this`head, this`tail, this`sent
      ensures Valid()
      ensures sent == old(sent) + out && out <= old(Pending())
      ensures |out| == if old(tail) < old(head) || written < 0 then 0 else written
      ensures Pending() == old(Pending())[|out|..]
    {
      hide Conserved;
      out := [];
      if tail < head {
        return;
      }
      if written >= 0 {
        ghost var before := mainBuf[..tail];
        out := mainBuf[head..head + written];
        assert out == before[head..head + written];
        assert before[head..][written..] == before[head + written..];
        ConservedBySend(before, written, head, trim, accepted, sent);
        sent := sent + out;
        head := head + written;
        if head >= tail {
          head, tail := 0, 0;
          assert mainBuf[..0] == [];
        }
      }
    }
  }
}
