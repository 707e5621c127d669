/** The receiving side of socketserver.h and socketserver.cpp: the read
    buffer filled from the connection, the output buffer a compressed
    packet inflates into, and the loop that turns packets into queued
    frames and answers each one. */
module SocketServer {
  import opened Wrappers
  import opened Globals
  import opened LedBuffer
  import opened Packet
  import opened Socket

  /** The reply to an accepted packet, taken after the frame was queued.
      The queue's capacity and size travel as 32-bit words. */
  function ResponseFor(manager: LedBufferManager, now: nat): (r: SocketResponse)
    reads manager
    ensures r.currentClock == now
    ensures r.bufferPos == |manager.buffers| % 0x1_0000_0000
    ensures manager.buffers == [] <==> r.oldestPacket == MaxAge
  {
    SocketResponse(64, 0, now, manager.AgeOfOldestBuffer(now), manager.AgeOfNewestBuffer(now), 100, 99,
                   manager.Capacity() % 0x1_0000_0000, manager.Size() % 0x1_0000_0000, 0, 0)
  }

  /** The reply announces its own size, the 64 bytes SocketResponse occupies. */
  lemma ResponseAnnouncesItsSize(manager: LedBufferManager, now: nat)
    ensures ResponseFor(manager, now).size == StructSize(SocketResponseFieldSizes)
  {
    SocketResponseIs64Bytes();
  }

  class SocketServer {
    const numLeds: nat
    /** _pBuffer: the bytes of the packet being read. */
    const buffer: array<Byte>
    /** _abOutputBuffer: where a compressed packet is inflated. */
    const outputBuffer: array<Byte>
    /** _cbReceived: how many bytes of `buffer` hold received data. */
    var cbReceived: nat

    /** Both buffers are MAXIMUM_PACKET_SIZE long and everything past the
        received bytes is zero. */
    ghost predicate Valid()
      reads this, buffer
    {
      && buffer.Length == MaximumPacketSize(numLeds)
      && outputBuffer.Length == MaximumPacketSize(numLeds)
      && buffer != outputBuffer
      && cbReceived <= buffer.Length
      && forall i :: cbReceived <= i < buffer.Length ==> buffer[i] == 0
    }

    constructor (numLeds: nat)
      ensures Valid() && this.numLeds == numLeds && cbReceived == 0
      ensures fresh(buffer) && fresh(outputBuffer)
      ensures forall i :: 0 <= i < buffer.Length ==> buffer[i] == 0
      ensures forall i :: 0 <= i < outputBuffer.Length ==> outputBuffer[i] == 0
    {
      this.numLeds := numLeds;
      buffer := new Byte[MaximumPacketSize(numLeds)](_ => 0);
      outputBuffer := new Byte[MaximumPacketSize(numLeds)](_ => 0);
      cbReceived := 0;
    }

    method ResetReadBuffer()
      requires Valid()
      modifies this`cbReceived, buffer
      ensures Valid() && cbReceived == 0
      ensures forall i :: 0 <= i < buffer.Length ==> buffer[i] == 0
    {
      cbReceived := 0;
      forall i | 0 <= i < buffer.Length {
        buffer[i] := 0;
      }
    }

    /** Reads until the buffer holds `cbNeeded` bytes, never asking for more
        than that, retrying reads interrupted by a signal. It fails when
        more than the buffer holds is needed or the connection ends first;
        the bytes read up to then stay in the buffer. */
    method ReadUntilNBytesReceived(conn: Connection, cbNeeded: nat) returns (ok: bool)
      requires Valid()
      modifies this`cbReceived, buffer, conn`events
      ensures Valid()
      ensures old(cbReceived) <= cbReceived
      ensures forall i :: 0 <= i < old(cbReceived) ==> buffer[i] == old(buffer[i])
      ensures cbNeeded <= old(cbReceived) ==>
                ok && cbReceived == old(cbReceived) && conn.events == old(conn.events)
      ensures old(cbReceived) < cbNeeded && cbNeeded > buffer.Length ==>
                !ok && cbReceived == old(cbReceived) && conn.events == old(conn.events)
      ensures old(cbReceived) < cbNeeded <= buffer.Length ==>
                var s := old(StreamBytes(conn.events));
                var want := cbNeeded - old(cbReceived);
                && ok == (want <= |s|)
                && cbReceived == old(cbReceived) + (if ok then want else |s|)
                && (forall i :: old(cbReceived) <= i < cbReceived ==> buffer[i] == s[i - old(cbReceived)])
                && StreamBytes(conn.events) == s[cbReceived - old(cbReceived)..]
    {
      if cbNeeded <= cbReceived {
        return true;
      }
      if cbNeeded > buffer.Length {
        return false;
      }
      ghost var s := StreamBytes(conn.events);
      ghost var c0 := cbReceived;
      while cbReceived < cbNeeded
        invariant Valid()
        invariant c0 <= cbReceived <= cbNeeded && cbReceived - c0 <= |s|
        invariant forall i :: 0 <= i < c0 ==> buffer[i] == old(buffer[i])
        invariant forall i :: c0 <= i < cbReceived ==> buffer[i] == s[i - c0]
        invariant StreamBytes(conn.events) == s[cbReceived - c0..]
        decreases cbNeeded - cbReceived
      {
        var cbRead := conn.ReadRetrying(buffer, cbReceived, cbNeeded - cbReceived);
        if cbRead > 0 {
          cbReceived := cbReceived + cbRead;
        } else {
          return false;
        }
      }
      return true;
    }

    /** What ProcessIncomingData does with the first `length` bytes of a
        payload buffer; its outcome is returned as a `Dispatch` (true for a
        push or a packet it does not handle, false for a channel mismatch,
        or the exception). */
    method ProcessIncomingData(manager: LedBufferManager, payload: array<Byte>, length: nat) returns (d: Dispatch)
      requires manager.Valid() && 4 <= payload.Length && length <= payload.Length
      modifies manager
      ensures manager.Valid()
      ensures d == DispatchPayload(payload[..], length)
      ensures manager.buffers == if d.Push? then Pushed(old(manager.buffers), manager.maxBuffers, d.frame)
                                 else old(manager.buffers)
    {
      var command16 := payload[1] as int * 0x100 + payload[0];
      if command16 == WifiCommandPixelData64 {
        var channel16 := WordFromMemory(payload[2..]);
        if channel16 != 0 && channel16 % 2 == 0 {
          return ChannelMismatch;
        }
        var r := CreateFromWire(payload[..length]);
        if r.Failure? {
          return Throw(r.error);
        }
        manager.PushNewBuffer(r.value);
        return Push(r.value);
      }
      return Ignore;
    }

    /** Inflates `cBuffer` bytes of `source` from `offset` into the front of
        `output`; succeeds only when the stream is complete and expands to
        exactly `expected` bytes. */
    method DecompressBuffer(inflate: Inflate, source: array<Byte>, offset: nat, cBuffer: nat,
                            output: array<Byte>, expected: nat) returns (ok: bool)
      requires offset + cBuffer <= source.Length && expected <= output.Length && source != output
      modifies output
      ensures var r := inflate(source[offset..offset + cBuffer]);
              ok <==> r.Some? && |r.value| == expected
      ensures ok ==> output[..] == inflate(source[offset..offset + cBuffer]).value + old(output[..])[expected..]
      ensures !ok ==> output[..] == old(output[..])
    {
      var input := source[offset..offset + cBuffer];
      var r := inflate(input);
      if r.None? || |r.value| != expected {
        return false;
      }
      forall i | 0 <= i < expected {
        output[i] := r.value[i];
      }
      assert output[..] == r.value + old(output[..])[expected..];
      assert source[offset..offset + cBuffer] == input;
      return true;
    }

    /** One turn of the connection loop, from an empty read buffer: read a
        packet, queue its frame and answer it. */
    method ProcessPacket(conn: Connection, manager: LedBufferManager, inflate: Inflate, now: nat) returns (step: Step)
      requires Valid() && manager.Valid() && cbReceived == 0
      modifies this`cbReceived, buffer, outputBuffer, conn, manager
      ensures Valid() && manager.Valid()
      ensures step == PacketSpec(old(StreamBytes(conn.events)), old(outputBuffer[..]), numLeds, inflate)
      ensures step.Accepted? ==>
                && cbReceived == 0
                && step.consumed <= old(|StreamBytes(conn.events)|)
                && StreamBytes(conn.events) == old(StreamBytes(conn.events))[step.consumed..]
                && outputBuffer[..] == OutputAfter(old(StreamBytes(conn.events)), old(outputBuffer[..]), numLeds, inflate)
                && manager.buffers == (if step.pushed.Some? then Pushed(old(manager.buffers), manager.maxBuffers, step.pushed.value)
                                       else old(manager.buffers))
                && conn.sent == old(conn.sent) + [ResponseFor(manager, now)]
      ensures !step.Accepted? ==> manager.buffers == old(manager.buffers) && conn.sent == old(conn.sent)
    {
      ghost var s := StreamBytes(conn.events);
      ghost var q := manager.buffers;
      var ok := ReadUntilNBytesReceived(conn, StandardDataHeaderSize);
      if !ok {
        return Dropped(HeaderReadFailed);
      }
      var header := DWordFromMemory(buffer[..]);
      assert header == DWordFromMemory(s);
      if header == CompressedHeader {
        step := ReceiveCompressed(conn, manager, inflate, s);
      } else {
        step := ReceiveStandard(conn, manager, s);
      }
      if step.Accepted? {
        ResetReadBuffer();
        conn.Write(ResponseFor(manager, now));
      } else {
        assert manager.buffers == q;
      }
    }

    /** The rest of a turn once the 24 header bytes are in and carry the
        compressed magic. */
    method ReceiveCompressed(conn: Connection, manager: LedBufferManager, inflate: Inflate, ghost s: seq<Byte>)
      returns (step: Step)
      requires Valid() && manager.Valid() && cbReceived == StandardDataHeaderSize <= |s|
      requires forall i :: 0 <= i < StandardDataHeaderSize ==> buffer[i] == s[i]
      requires StreamBytes(conn.events) == s[StandardDataHeaderSize..]
      requires DWordFromMemory(s) == CompressedHeader
      modifies this`cbReceived, buffer, outputBuffer, conn`events, manager
      ensures Valid() && manager.Valid()
      ensures step == CompressedSpec(s, old(outputBuffer[..]), numLeds, inflate)
      ensures step.Accepted? ==>
                && cbReceived == 0 && step.consumed <= |s|
                && StreamBytes(conn.events) == s[step.consumed..]
                && outputBuffer[..] == InflatedOver(s, old(outputBuffer[..]), numLeds, inflate)
      ensures manager.buffers == if step.Accepted? && step.pushed.Some?
                                 then Pushed(old(manager.buffers), manager.maxBuffers, step.pushed.value)
                                 else old(manager.buffers)
    {
      ghost var stale := outputBuffer[..];
      var expandedSize, failure := InflateCompressedPacket(conn, inflate, s);
      if failure.Some? {
        return Dropped(failure.value);
      }
      var consumed := cbReceived;
      CompressedSpecDelivers(s, stale, numLeds, inflate, outputBuffer[..expandedSize]);
      assert outputBuffer[..] == outputBuffer[..expandedSize] + stale[expandedSize..];
      var d := ProcessIncomingData(manager, outputBuffer, expandedSize);
      step := Deliver(d, consumed);
      if step.Accepted? {
        ResetReadBuffer();
      }
    }

    /** The compressed sizes from the header, the read of the compressed
        bytes and their inflation into the output buffer; `failure` names
        the check that ended the turn. */
    method InflateCompressedPacket(conn: Connection, inflate: Inflate, ghost s: seq<Byte>)
      returns (expandedSize: nat, failure: Option<DropReason>)
      requires Valid() && cbReceived == StandardDataHeaderSize <= |s|
      requires forall i :: 0 <= i < StandardDataHeaderSize ==> buffer[i] == s[i]
      requires StreamBytes(conn.events) == s[StandardDataHeaderSize..]
      modifies this`cbReceived, buffer, outputBuffer, conn`events
      ensures Valid()
      ensures expandedSize == DWordFromMemory(s[8..])
      ensures failure.Some? ==> CompressedSpec(s, old(outputBuffer[..]), numLeds, inflate) == Dropped(failure.value)
      ensures failure.None? ==>
                var need := CompressedNeed(DWordFromMemory(s[4..]));
                && expandedSize <= outputBuffer.Length
                && (need <= StandardDataHeaderSize || (need <= outputBuffer.Length && need <= |s|))
                && inflate(s[CompressedHeaderSize..need]) == Some(outputBuffer[..expandedSize])
                && outputBuffer[expandedSize..] == old(outputBuffer[..])[expandedSize..]
                && cbReceived == Max(StandardDataHeaderSize, need)
                && StreamBytes(conn.events) == s[cbReceived..]
    {
      var compressedSize := DWordFromMemory(buffer[4..]);
      expandedSize := DWordFromMemory(buffer[8..]);
      assert compressedSize == DWordFromMemory(s[4..]);
      assert expandedSize == DWordFromMemory(s[8..]);
      if expandedSize > buffer.Length {
        return expandedSize, Some(ExpandedTooLarge);
      }
      var need := CompressedNeed(compressedSize);
      var ok := ReadCompressedBytes(conn, need, s);
      if !ok {
        return expandedSize, Some(CompressedReadFailed);
      }
      ok := DecompressBuffer(inflate, buffer, CompressedHeaderSize, compressedSize, outputBuffer, expandedSize);
      if !ok {
        return expandedSize, Some(DecompressFailed);
      }
      failure := None;
    }

    /** Completes the read buffer to the `need` bytes a compressed packet
        occupies; the 24 header bytes already read may cover it. */
    method ReadCompressedBytes(conn: Connection, need: nat, ghost s: seq<Byte>) returns (ok: bool)
      requires Valid() && cbReceived == StandardDataHeaderSize <= |s| && CompressedHeaderSize <= need
      requires forall i :: 0 <= i < StandardDataHeaderSize ==> buffer[i] == s[i]
      requires StreamBytes(conn.events) == s[StandardDataHeaderSize..]
      modifies this`cbReceived, buffer, conn`events
      ensures Valid()
      ensures ok <==> need <= StandardDataHeaderSize || (need <= buffer.Length && need <= |s|)
      ensures ok ==> && cbReceived == Max(StandardDataHeaderSize, need)
                     && buffer[CompressedHeaderSize..need] == s[CompressedHeaderSize..need]
                     && StreamBytes(conn.events) == s[cbReceived..]
    {
      ok := ReadUntilNBytesReceived(conn, need);
      if ok {
        assert buffer[CompressedHeaderSize..need] == s[CompressedHeaderSize..need];
      }
    }

    /** The rest of a turn once the 24 header bytes are in and do not carry
        the compressed magic. */
    method ReceiveStandard(conn: Connection, manager: LedBufferManager, ghost s: seq<Byte>) returns (step: Step)
      requires Valid() && manager.Valid() && cbReceived == StandardDataHeaderSize <= |s|
      requires forall i :: 0 <= i < StandardDataHeaderSize ==> buffer[i] == s[i]
      requires StreamBytes(conn.events) == s[StandardDataHeaderSize..]
      modifies this`cbReceived, buffer, conn`events, manager
      ensures Valid() && manager.Valid()
      ensures step == StandardSpec(s, numLeds)
      ensures step.Accepted? ==>
                && cbReceived == 0 && step.consumed <= |s|
                && StreamBytes(conn.events) == s[step.consumed..]
      ensures manager.buffers == if step.Accepted? && step.pushed.Some?
                                 then Pushed(old(manager.buffers), manager.maxBuffers, step.pushed.value)
                                 else old(manager.buffers)
    {
      var command16 := WordFromMemory(buffer[..]);
      assert command16 == WordFromMemory(s);
      if command16 != WifiCommandPixelData64 {
        return Dropped(UnknownCommand);
      }
      var length32 := DWordFromMemory(buffer[4..]);
      assert length32 == DWordFromMemory(s[4..]);
      var totalExpected := StandardDataHeaderSize + length32 * LedDataSize;
      if totalExpected > buffer.Length {
        return Dropped(PayloadTooLarge);
      }
      var ok := ReadUntilNBytesReceived(conn, totalExpected);
      if !ok {
        return Dropped(PayloadReadFailed);
      }
      var consumed := cbReceived;
      DispatchUsesPrefix(buffer[..], s[..totalExpected], totalExpected);
      StandardSpecDelivers(s, numLeds, totalExpected);
      var d := ProcessIncomingData(manager, buffer, totalExpected);
      step := Deliver(d, consumed);
      if step.Accepted? {
        ResetReadBuffer();
      }
    }

    /** The per-connection loop: turns follow each other until a packet is
        not accepted; then the read buffer is cleared and the connection
        given up. An exception from CreateFromWire leaves the loop as it is
        (the read buffer is not cleared). */
    method ProcessIncomingConnectionsLoop(conn: Connection, manager: LedBufferManager, inflate: Inflate, now: nat)
      returns (r: Result<bool, WireError>)
      requires Valid() && manager.Valid() && cbReceived == 0
      modifies this`cbReceived, buffer, outputBuffer, conn, manager
      ensures Valid() && manager.Valid()
      ensures var session := ConnectionSpec(old(StreamBytes(conn.events)), old(outputBuffer[..]), numLeds, inflate);
              && manager.buffers == PushAll(old(manager.buffers), manager.maxBuffers, session.frames)
              && |conn.sent| == old(|conn.sent|) + session.accepted
              && r == (if session.end.Threw? then Failure(session.end.error) else Success(false))
              && (r.Success? ==> cbReceived == 0)
    {
      ghost var session := ConnectionSpec(StreamBytes(conn.events), outputBuffer[..], numLeds, inflate);
      while true
        invariant Valid() && manager.Valid() && cbReceived == 0
        invariant var rest := ConnectionSpec(StreamBytes(conn.events), outputBuffer[..], numLeds, inflate);
                  && PushAll(manager.buffers, manager.maxBuffers, rest.frames)
                       == PushAll(old(manager.buffers), manager.maxBuffers, session.frames)
                  && |conn.sent| + rest.accepted == old(|conn.sent|) + session.accepted
                  && rest.end == session.end
        decreases |StreamBytes(conn.events)|
      {
        ghost var s := StreamBytes(conn.events);
        ghost var stale := outputBuffer[..];
        ghost var q := manager.buffers;
        var step := ProcessPacket(conn, manager, inflate, now);
        ConnectionStep(s, stale, numLeds, inflate);
        match step {
          case Accepted(pushed, _) =>
            ghost var rest := ConnectionSpec(StreamBytes(conn.events), outputBuffer[..], numLeds, inflate);
            if pushed.Some? {
              PushAllCons(q, manager.maxBuffers, pushed.value, rest.frames);
            } else {
              assert PushedFrames(step) + rest.frames == rest.frames;
            }
          case Dropped(_) =>
            ResetReadBuffer();
            return Success(false);
          case Threw(e) =>
            return Failure(e);
        }
      }
    }
  }
}
