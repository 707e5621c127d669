/** The wire framing of socketserver.h and socketserver.cpp as pure
    definitions: the constants, the reply layout, what ProcessIncomingData
    does with a payload, and what one turn of the connection loop does with
    the bytes the peer sends. */
module Packet {
  import opened Wrappers
  import opened Globals
  import opened LedBuffer

  const StandardDataHeaderSize: nat := 24
  const CompressedHeaderSize: nat := 16
  /** sizeof(CRGB) */
  const LedDataSize: nat := 3
  /** ASCII "DAVE" read as a little-endian 32-bit word. */
  const CompressedHeader: U32 := 0x44415645

  /** MAXIMUM_PACKET_SIZE: a header plus one colour per LED of the display. */
  function MaximumPacketSize(numLeds: nat): (n: nat)
    ensures n >= StandardDataHeaderSize
  {
    StandardDataHeaderSize + LedDataSize * numLeds
  }

  // ---------------------------------------------------------------------
  // The reply sent after each accepted packet
  // ---------------------------------------------------------------------

  /** SocketResponse. The five `double` fields are kept as integers
      (microseconds for the clock and the ages). */
  datatype SocketResponse = SocketResponse(
    size: U32, flashVersion: U32,
    currentClock: int, oldestPacket: int, newestPacket: int, brightness: int, wifiSignal: int,
    bufferSize: U32, bufferPos: U32, fpsDrawing: U32, watts: U32)

  /** Field widths of SocketResponse in declaration order. */
  const SocketResponseFieldSizes: seq<nat> := [4, 4, 8, 8, 8, 8, 8, 4, 4, 4, 4]

  /** `offset` rounded up to a multiple of `align`. */
  function AlignUp(offset: nat, align: nat): nat
  {
    if align == 0 then offset else (offset + align - 1) / align * align
  }

  /** Where the last field ends when each field is placed at the next offset
      aligned to its own size (the C layout rule for scalar fields). */
  function FieldsEnd(sizes: seq<nat>, offset: nat): nat
  {
    if sizes == [] then offset else FieldsEnd(sizes[1..], AlignUp(offset, sizes[0]) + sizes[0])
  }

  function Largest(sizes: seq<nat>): nat
  {
    if sizes == [] then 0 else if sizes[0] > Largest(sizes[1..]) then sizes[0] else Largest(sizes[1..])
  }

  function Sum(sizes: seq<nat>): nat
  {
    if sizes == [] then 0 else sizes[0] + Sum(sizes[1..])
  }

  /** sizeof a struct of scalar fields: the end of the last field rounded up
      to the largest alignment. */
  function StructSize(sizes: seq<nat>): nat
  {
    AlignUp(FieldsEnd(sizes, 0), Largest(sizes))
  }

  /** SocketResponse occupies exactly 64 bytes and no padding is inserted:
      the laid-out size equals the plain sum of the field widths. */
  lemma SocketResponseIs64Bytes()
    ensures StructSize(SocketResponseFieldSizes) == 64
    ensures Sum(SocketResponseFieldSizes) == 64
  {
    SocketResponseFieldsEnd();
    SocketResponseLargest();
    SocketResponseSum();
  }

  /** Every field lands on a multiple of its width, the last one ending at 64. */
  lemma SocketResponseFieldsEnd()
    ensures FieldsEnd(SocketResponseFieldSizes, 0) == 64
  {
    var f := SocketResponseFieldSizes;
    SocketResponseTrailingFieldsEnd();
    assert FieldsEnd(f[5..], 32) == 64;
    assert FieldsEnd(f[4..], 24) == 64;
    assert FieldsEnd(f[3..], 16) == 64;
    assert FieldsEnd(f[2..], 8) == 64;
    assert FieldsEnd(f[1..], 4) == 64;
  }

  /** The four trailing 32-bit words fill bytes 48 to 64. */
  lemma SocketResponseTrailingFieldsEnd()
    ensures FieldsEnd(SocketResponseFieldSizes[6..], 40) == 64
  {
    var f := SocketResponseFieldSizes;
    assert FieldsEnd(f[11..], 64) == 64;
    assert FieldsEnd(f[10..], 60) == 64;
    assert FieldsEnd(f[9..], 56) == 64;
    assert FieldsEnd(f[8..], 52) == 64;
    assert FieldsEnd(f[7..], 48) == 64;
  }

  /** The widest field, and so the struct's alignment, is the 8-byte double. */
  lemma SocketResponseLargest()
    ensures Largest(SocketResponseFieldSizes) == 8
  {
    var f := SocketResponseFieldSizes;
    assert Largest(f[11..]) == 0;
    assert Largest(f[10..]) == 4;
    assert Largest(f[9..]) == 4;
    assert Largest(f[8..]) == 4;
    assert Largest(f[7..]) == 4;
    assert Largest(f[6..]) == 8;
    assert Largest(f[5..]) == 8;
    assert Largest(f[4..]) == 8;
    assert Largest(f[3..]) == 8;
    assert Largest(f[2..]) == 8;
  }

  lemma SocketResponseSum()
    ensures Sum(SocketResponseFieldSizes) == 64
  {
    var f := SocketResponseFieldSizes;
    assert Sum(f[11..]) == 0;
    assert Sum(f[10..]) == 4;
    assert Sum(f[9..]) == 8;
    assert Sum(f[8..]) == 12;
    assert Sum(f[7..]) == 16;
    assert Sum(f[6..]) == 24;
    assert Sum(f[5..]) == 32;
    assert Sum(f[4..]) == 40;
    assert Sum(f[3..]) == 48;
    assert Sum(f[2..]) == 56;
  }

  // ---------------------------------------------------------------------
  // ProcessIncomingData
  // ---------------------------------------------------------------------

  /** What ProcessIncomingData does with a payload: push a frame, do nothing
      (not a pixel packet), refuse it (pixel packet for another channel) or
      throw (CreateFromWire's exception). */
  datatype Dispatch = Push(frame: Frame) | Ignore | ChannelMismatch | Throw(error: WireError)

  /** Only pixel packets are looked at. One whose channel is nonzero and even
      is meant for another receiver; the others are parsed from the first
      `length` bytes. The command and channel are read from the buffer
      whatever `length` is. */
  function DispatchPayload(payload: seq<Byte>, length: nat): (d: Dispatch)
    requires 4 <= |payload| && length <= |payload|
    ensures d == Ignore <==> WordFromMemory(payload) != WifiCommandPixelData64
    ensures d == ChannelMismatch <==>
              && WordFromMemory(payload) == WifiCommandPixelData64
              && WordFromMemory(payload[2..]) != 0
              && WordFromMemory(payload[2..]) % 2 == 0
    ensures d.Push? || d.Throw? ==>
              && (d.Push? <==> CreateFromWire(payload[..length]).Success?)
              && (d.Push? ==> d.frame == CreateFromWire(payload[..length]).value)
              && (d.Throw? ==> d.error == CreateFromWire(payload[..length]).error)
    ensures d.Push? ==> HeaderSize + LedDataSize * |d.frame.pixels| <= length
  {
    if WordFromMemory(payload) != WifiCommandPixelData64 then Ignore
    else
      var channel := WordFromMemory(payload[2..]);
      if channel != 0 && channel % 2 == 0 then ChannelMismatch
      else
        match CreateFromWire(payload[..length])
        case Success(f) => Push(f)
        case Failure(e) => Throw(e)
  }

  /** Only the first `length` bytes matter once they cover the command and channel. */
  lemma DispatchUsesPrefix(p: seq<Byte>, q: seq<Byte>, length: nat)
    requires 4 <= length <= |p| && length <= |q|
    requires forall i :: 0 <= i < length ==> p[i] == q[i]
    ensures DispatchPayload(p, length) == DispatchPayload(q, length)
  {
    assert p[..length] == q[..length];
    assert WordFromMemory(p) == WordFromMemory(q);
    assert WordFromMemory(p[2..]) == WordFromMemory(q[2..]);
  }

  /** An encoded pixel packet is pushed as exactly the frame it carries,
      unless its channel is nonzero and even; a packet of any other command
      pushes nothing. */
  lemma DispatchEncodedPacket(command: U16, channel: U16, f: Frame, tail: seq<Byte>)
    requires |f.pixels| < 0x1_0000_0000
    ensures var p := EncodePacket(command, channel, f);
            DispatchPayload(p + tail, |p|) ==
              if command != WifiCommandPixelData64 then Ignore
              else if channel != 0 && channel % 2 == 0 then ChannelMismatch
              else Push(f)
  {
    var p := EncodePacket(command, channel, f);
    EncodedHeader(command, channel, f, tail);
    CreateFromWireRoundTrip(command, channel, f, []);
    assert (p + tail)[..|p|] == p + [];
  }

  // ---------------------------------------------------------------------
  // One turn of the connection loop
  // ---------------------------------------------------------------------

  /** Why a turn of the loop leaves it (each `break`). */
  datatype DropReason =
    | HeaderReadFailed | ExpandedTooLarge | CompressedReadFailed | DecompressFailed
    | ChannelRejected | UnknownCommand | PayloadTooLarge | PayloadReadFailed

  /** A turn accepts a packet (pushing a frame or not) after consuming
      `consumed` bytes of the stream, leaves the loop, or throws. */
  datatype Step = Accepted(pushed: Option<Frame>, consumed: nat) | Dropped(reason: DropReason) | Threw(error: WireError)

  /** A raw DEFLATE decoder (RFC 1951): the bytes the first complete stream
      in the input expands to, or None for a truncated or corrupt stream. */
  type Inflate = seq<Byte> -> Option<seq<Byte>>

  /** Bytes a compressed packet occupies: its header and its compressed data. */
  function CompressedNeed(compressedSize: U32): nat
  {
    CompressedHeaderSize + compressedSize
  }

  /** The same count as socketserver.cpp:94 computes it, in 32-bit unsigned
      arithmetic. */
  function CompressedNeedAsWritten(compressedSize: U32): (n: U32)
    ensures n == CompressedNeed(compressedSize) <==> compressedSize < 0x1_0000_0000 - CompressedHeaderSize
    ensures n != CompressedNeed(compressedSize) ==> n == CompressedNeed(compressedSize) - 0x1_0000_0000
  {
    (CompressedHeaderSize + compressedSize) % 0x1_0000_0000
  }

  function Max(a: nat, b: nat): nat { if a < b then b else a }

  function Deliver(d: Dispatch, consumed: nat): Step
  {
    match d
    case Push(f) => Accepted(Some(f), consumed)
    case Ignore => Accepted(None, consumed)
    case ChannelMismatch => Dropped(ChannelRejected)
    case Throw(e) => Threw(e)
  }

  /** One turn of the loop, on `s`, the bytes the peer delivers before the
      connection fails (the read buffer starts empty), with `stale` the
      previous content of the output buffer. */
  function PacketSpec(s: seq<Byte>, stale: seq<Byte>, numLeds: nat, inflate: Inflate): (r: Step)
    requires |stale| == MaximumPacketSize(numLeds)
    ensures |s| < StandardDataHeaderSize ==> r == Dropped(HeaderReadFailed)
    ensures r.Accepted? ==>
              && StandardDataHeaderSize <= r.consumed <= |s|
              && r.consumed <= MaximumPacketSize(numLeds)
              && (DWordFromMemory(s) == CompressedHeader || WordFromMemory(s) == WifiCommandPixelData64)
  {
    if |s| < StandardDataHeaderSize then Dropped(HeaderReadFailed)
    else if DWordFromMemory(s) == CompressedHeader then CompressedSpec(s, stale, numLeds, inflate)
    else StandardSpec(s, numLeds)
  }

  /** A turn whose header carries the compressed magic: the expanded size
      must fit the buffer, the compressed bytes must arrive, and the stream
      must inflate to exactly the expanded size; the inflated bytes, over
      what the output buffer held before, go to ProcessIncomingData. */
  function CompressedSpec(s: seq<Byte>, stale: seq<Byte>, numLeds: nat, inflate: Inflate): (r: Step)
    requires |s| >= StandardDataHeaderSize && |stale| == MaximumPacketSize(numLeds)
    ensures r.Accepted? ==>
              var need := CompressedNeed(DWordFromMemory(s[4..]));
              && DWordFromMemory(s[8..]) <= MaximumPacketSize(numLeds)
              && r.consumed == Max(StandardDataHeaderSize, need)
              && r.consumed <= |s| && r.consumed <= MaximumPacketSize(numLeds)
              && inflate(s[CompressedHeaderSize..need]).Some?
              && |inflate(s[CompressedHeaderSize..need]).value| == DWordFromMemory(s[8..])
  {
    var maxSize := MaximumPacketSize(numLeds);
    var expandedSize := DWordFromMemory(s[8..]);
    var need := CompressedNeed(DWordFromMemory(s[4..]));
    if expandedSize > maxSize then Dropped(ExpandedTooLarge)
    else if need > StandardDataHeaderSize && (need > maxSize || |s| < need) then Dropped(CompressedReadFailed)
    else
      match inflate(s[CompressedHeaderSize..need])
      case None => Dropped(DecompressFailed)
      case Some(out) =>
        if |out| != expandedSize then Dropped(DecompressFailed)
        else Deliver(DispatchPayload(out + stale[expandedSize..], expandedSize),
                     Max(StandardDataHeaderSize, need))
  }

  /** A turn on any other header: only pixel packets are taken, and all the
      pixels the header announces must fit the buffer and arrive. */
  function StandardSpec(s: seq<Byte>, numLeds: nat): (r: Step)
    requires |s| >= StandardDataHeaderSize
    ensures r.Accepted? ==>
              && WordFromMemory(s) == WifiCommandPixelData64
              && r.consumed == StandardDataHeaderSize + LedDataSize * DWordFromMemory(s[4..])
              && r.consumed <= |s| && r.consumed <= MaximumPacketSize(numLeds)
    ensures r.Accepted? && r.pushed.Some? ==> |r.pushed.value.pixels| == DWordFromMemory(s[4..])
  {
    if WordFromMemory(s) != WifiCommandPixelData64 then Dropped(UnknownCommand)
    else
      var total := StandardDataHeaderSize + LedDataSize * DWordFromMemory(s[4..]);
      if total > MaximumPacketSize(numLeds) then Dropped(PayloadTooLarge)
      else if |s| < total then Dropped(PayloadReadFailed)
      else Deliver(DispatchPayload(s[..total], total), total)
  }

  /** The standard branch once every announced byte has arrived. */
  lemma StandardSpecDelivers(s: seq<Byte>, numLeds: nat, total: nat)
    requires |s| >= StandardDataHeaderSize && WordFromMemory(s) == WifiCommandPixelData64
    requires total == StandardDataHeaderSize + LedDataSize * DWordFromMemory(s[4..])
    requires total <= MaximumPacketSize(numLeds) && total <= |s|
    ensures StandardSpec(s, numLeds) == Deliver(DispatchPayload(s[..total], total), total)
  {
  }

  /** The compressed branch once the stream has inflated to the announced size. */
  lemma CompressedSpecDelivers(s: seq<Byte>, stale: seq<Byte>, numLeds: nat, inflate: Inflate, out: seq<Byte>)
    requires |s| >= StandardDataHeaderSize && |stale| == MaximumPacketSize(numLeds)
    requires DWordFromMemory(s[8..]) <= MaximumPacketSize(numLeds)
    requires var need := CompressedNeed(DWordFromMemory(s[4..]));
             && (need <= StandardDataHeaderSize || (need <= MaximumPacketSize(numLeds) && need <= |s|))
             && inflate(s[CompressedHeaderSize..need]) == Some(out)
    requires |out| == DWordFromMemory(s[8..])
    ensures var need := CompressedNeed(DWordFromMemory(s[4..]));
            && CompressedSpec(s, stale, numLeds, inflate)
                 == Deliver(DispatchPayload(out + stale[|out|..], |out|), Max(StandardDataHeaderSize, need))
            && (CompressedSpec(s, stale, numLeds, inflate).Accepted? ==>
                  InflatedOver(s, stale, numLeds, inflate) == out + stale[|out|..])
  {
  }

  /** A pixel packet (command 3) is never taken for a compressed one: the
      magic's first byte is 0x45. */
  lemma PixelPacketIsNotCompressed(s: seq<Byte>)
    requires |s| >= 4 && WordFromMemory(s) == WifiCommandPixelData64
    ensures DWordFromMemory(s) != CompressedHeader
  {
    assert s[0] == 3;
  }

  /** With the sum taken without wrap-around, the compressed input handed to
      the decoder lies within the bytes received and within the read buffer. */
  lemma CompressedInputInBounds(s: seq<Byte>, stale: seq<Byte>, numLeds: nat, inflate: Inflate)
    requires |stale| == MaximumPacketSize(numLeds)
    requires |s| >= StandardDataHeaderSize && DWordFromMemory(s) == CompressedHeader
    ensures var step := PacketSpec(s, stale, numLeds, inflate);
            var need := CompressedNeed(DWordFromMemory(s[4..]));
            step != Dropped(ExpandedTooLarge) && step != Dropped(CompressedReadFailed) ==>
              need <= |s| && need <= MaximumPacketSize(numLeds)
  {
  }

  /** As written, a compressed size of 0xFFFFFFF0 makes the byte count wrap to
      0, which the 24 header bytes already satisfy, so no read fails and the
      decoder is told to consume 0xFFFFFFF0 bytes from offset 16 of a read
      buffer far smaller than that. */
  lemma CompressedNeedWraps(numLeds: nat)
    requires LedDataSize * numLeds < 0xFFFF_FFE8
    ensures CompressedNeedAsWritten(0xFFFF_FFF0) == 0
    ensures CompressedNeedAsWritten(0xFFFF_FFF0) <= StandardDataHeaderSize
    ensures CompressedHeaderSize + 0xFFFF_FFF0 > MaximumPacketSize(numLeds)
  {
  }

  /** Round trip through a whole turn of the loop: a standard pixel packet
      for this receiver that fits the buffer is accepted, consuming exactly
      its own bytes, and pushes exactly the frame that was encoded; one for
      another channel leaves the loop. */
  lemma StandardPacketRoundTrip(channel: U16, f: Frame, rest: seq<Byte>,
                                stale: seq<Byte>, numLeds: nat, inflate: Inflate)
    requires |f.pixels| <= numLeds && |f.pixels| < 0x1_0000_0000
    requires |stale| == MaximumPacketSize(numLeds)
    ensures var p := EncodePacket(WifiCommandPixelData64, channel, f);
            PacketSpec(p + rest, stale, numLeds, inflate) ==
              if channel != 0 && channel % 2 == 0 then Dropped(ChannelRejected)
              else Accepted(Some(f), |p|)
  {
    var p := EncodePacket(WifiCommandPixelData64, channel, f);
    var s := p + rest;
    EncodedHeader(WifiCommandPixelData64, channel, f, rest);
    PixelPacketIsNotCompressed(s);
    assert s[..|p|] == p + [];
    DispatchEncodedPacket(WifiCommandPixelData64, channel, f, []);
  }

  /** The compressed header a sender writes. */
  function EncodeCompressedHeader(compressedSize: U32, expandedSize: U32, reserved: U32): (s: seq<Byte>)
    ensures |s| == CompressedHeaderSize
  {
    ToLittleEndian(CompressedHeader, 4) + ToLittleEndian(compressedSize, 4)
      + ToLittleEndian(expandedSize, 4) + ToLittleEndian(reserved, 4)
  }

  /** The compressed header's fields read back as written. */
  lemma CompressedHeaderReadsBack(compressedSize: U32, expandedSize: U32, reserved: U32, tail: seq<Byte>)
    ensures var s := EncodeCompressedHeader(compressedSize, expandedSize, reserved) + tail;
            && DWordFromMemory(s) == CompressedHeader
            && DWordFromMemory(s[4..]) == compressedSize
            && DWordFromMemory(s[8..]) == expandedSize
  {
    var h := EncodeCompressedHeader(compressedSize, expandedSize, reserved);
    var s := h + tail;
    assert s[..4] == h[..4] == ToLittleEndian(CompressedHeader, 4);
    assert s[4..][..4] == h[4..8] == ToLittleEndian(compressedSize, 4);
    assert s[8..][..4] == h[8..12] == ToLittleEndian(expandedSize, 4);
    DecodeEncode(CompressedHeader, 4);
    DecodeEncode(compressedSize, 4);
    DecodeEncode(expandedSize, 4);
  }

  /** A compressed packet whose stream inflates to exactly the announced
      size hands the inflated bytes to ProcessIncomingData. */
  lemma CompressedPacketDelivered(compressed: seq<Byte>, expanded: seq<Byte>, reserved: U32,
                                  rest: seq<Byte>, stale: seq<Byte>, numLeds: nat, inflate: Inflate)
    requires |stale| == MaximumPacketSize(numLeds) < 0x1_0000_0000
    requires |expanded| <= MaximumPacketSize(numLeds)
    requires CompressedHeaderSize + |compressed| <= MaximumPacketSize(numLeds)
    requires CompressedHeaderSize + |compressed| + |rest| >= StandardDataHeaderSize
    requires inflate(compressed) == Some(expanded)
    ensures var h := EncodeCompressedHeader(|compressed|, |expanded|, reserved);
            PacketSpec(h + compressed + rest, stale, numLeds, inflate) ==
              Deliver(DispatchPayload(expanded + stale[|expanded|..], |expanded|),
                      Max(StandardDataHeaderSize, CompressedHeaderSize + |compressed|))
  {
    var h := EncodeCompressedHeader(|compressed|, |expanded|, reserved);
    var s := h + compressed + rest;
    assert s == h + (compressed + rest);
    CompressedHeaderReadsBack(|compressed|, |expanded|, reserved, compressed + rest);
    assert s[CompressedHeaderSize..CompressedHeaderSize + |compressed|] == compressed;
  }

  /** Compressed round trip: wrapping a standard packet's DEFLATE stream in
      the compressed framing gives the same frame as sending the packet
      itself; the reserved word plays no part. */
  lemma CompressedPacketRoundTrip(channel: U16, f: Frame, compressed: seq<Byte>, reserved: U32,
                                  rest: seq<Byte>, stale: seq<Byte>, numLeds: nat, inflate: Inflate)
    requires |f.pixels| <= numLeds && MaximumPacketSize(numLeds) < 0x1_0000_0000
    requires |stale| == MaximumPacketSize(numLeds)
    requires CompressedHeaderSize + |compressed| <= MaximumPacketSize(numLeds)
    requires CompressedHeaderSize + |compressed| + |rest| >= StandardDataHeaderSize
    requires channel == 0 || channel % 2 == 1
    requires inflate(compressed) == Some(EncodePacket(WifiCommandPixelData64, channel, f))
    ensures var p := EncodePacket(WifiCommandPixelData64, channel, f);
            var h := EncodeCompressedHeader(|compressed|, |p|, reserved);
            && PacketSpec(h + compressed + rest, stale, numLeds, inflate) ==
                 Accepted(Some(f), Max(StandardDataHeaderSize, CompressedHeaderSize + |compressed|))
            && PacketSpec(p + rest, stale, numLeds, inflate) == Accepted(Some(f), |p|)
  {
    var p := EncodePacket(WifiCommandPixelData64, channel, f);
    var h := EncodeCompressedHeader(|compressed|, |p|, reserved);
    var consumed := Max(StandardDataHeaderSize, CompressedHeaderSize + |compressed|);
    assert DispatchPayload(p + stale[|p|..], |p|) == Push(f) by {
      DispatchEncodedPacket(WifiCommandPixelData64, channel, f, stale[|p|..]);
    }
    assert PacketSpec(h + compressed + rest, stale, numLeds, inflate) == Accepted(Some(f), consumed) by {
      CompressedPacketDelivered(compressed, p, reserved, rest, stale, numLeds, inflate);
    }
    assert PacketSpec(p + rest, stale, numLeds, inflate) == Accepted(Some(f), |p|) by {
      StandardPacketRoundTrip(channel, f, rest, stale, numLeds, inflate);
    }
  }

  // ---------------------------------------------------------------------
  // A whole connection
  // ---------------------------------------------------------------------

  /** The output buffer after a turn that accepted a packet: a compressed
      packet leaves its inflated bytes at the front, a standard one leaves
      the buffer alone. */
  function OutputAfter(s: seq<Byte>, stale: seq<Byte>, numLeds: nat, inflate: Inflate): (o: seq<Byte>)
    requires |stale| == MaximumPacketSize(numLeds)
    requires PacketSpec(s, stale, numLeds, inflate).Accepted?
    ensures |o| == |stale|
  {
    if DWordFromMemory(s) == CompressedHeader then InflatedOver(s, stale, numLeds, inflate)
    else stale
  }

  /** The output buffer after an accepted compressed packet. */
  function InflatedOver(s: seq<Byte>, stale: seq<Byte>, numLeds: nat, inflate: Inflate): (o: seq<Byte>)
    requires |s| >= StandardDataHeaderSize && |stale| == MaximumPacketSize(numLeds)
    requires CompressedSpec(s, stale, numLeds, inflate).Accepted?
    ensures |o| == |stale|
  {
    var need := CompressedNeed(DWordFromMemory(s[4..]));
    inflate(s[CompressedHeaderSize..need]).value + stale[DWordFromMemory(s[8..])..]
  }

  /** What a connection amounts to: the frames pushed, in order, the number
      of packets answered, and the turn that ended it. */
  datatype Session = Session(frames: seq<Frame>, accepted: nat, end: Step)

  /** The connection loop run on the bytes the peer delivers: turns follow
      each other until one does not accept its packet. Each answered packet
      takes at least a header's worth of the stream, so a peer sending `n`
      bytes is answered at most n / 24 times. */
  function ConnectionSpec(s: seq<Byte>, stale: seq<Byte>, numLeds: nat, inflate: Inflate): (r: Session)
    requires |stale| == MaximumPacketSize(numLeds)
    ensures !r.end.Accepted?
    ensures |r.frames| <= r.accepted
    ensures r.accepted * StandardDataHeaderSize <= |s|
    decreases |s|
  {
    var step := PacketSpec(s, stale, numLeds, inflate);
    if step.Accepted? then
      var rest := ConnectionSpec(s[step.consumed..], OutputAfter(s, stale, numLeds, inflate), numLeds, inflate);
      Session(PushedFrames(step) + rest.frames, rest.accepted + 1, rest.end)
    else Session([], 0, step)
  }

  /** The frames a turn pushes: none or one. */
  function PushedFrames(step: Step): (fs: seq<Frame>)
    ensures |fs| <= 1
  {
    if step.Accepted? && step.pushed.Some? then [step.pushed.value] else []
  }

  /** A connection is its first turn followed by the connection on what is
      left of the stream. */
  lemma ConnectionStep(s: seq<Byte>, stale: seq<Byte>, numLeds: nat, inflate: Inflate)
    requires |stale| == MaximumPacketSize(numLeds)
    ensures var step := PacketSpec(s, stale, numLeds, inflate);
            var r := ConnectionSpec(s, stale, numLeds, inflate);
            && (!step.Accepted? ==> r == Session([], 0, step))
            && (step.Accepted? ==>
                  && StandardDataHeaderSize <= step.consumed <= |s|
                  && var rest := ConnectionSpec(s[step.consumed..], OutputAfter(s, stale, numLeds, inflate), numLeds, inflate);
                     r == Session(PushedFrames(step) + rest.frames, rest.accepted + 1, rest.end))
  {
  }

  /** The bytes of a stream of standard pixel packets on one channel. */
  function EncodeStream(channel: U16, fs: seq<Frame>): (s: seq<Byte>)
    requires forall i :: 0 <= i < |fs| ==> |fs[i].pixels| < 0x1_0000_0000
    ensures fs == [] <==> s == []
  {
    if fs == [] then [] else EncodePacket(WifiCommandPixelData64, channel, fs[0]) + EncodeStream(channel, fs[1..])
  }

  /** Round trip through a whole connection: a peer that sends a stream of
      standard pixel packets for this receiver, each fitting the buffer, and
      then closes, has every frame pushed in the order sent and every packet
      answered; the connection ends on the failed read of the next header. */
  lemma {:induction false} StreamRoundTrip(channel: U16, fs: seq<Frame>,
                                           stale: seq<Byte>, numLeds: nat, inflate: Inflate)
    requires forall i :: 0 <= i < |fs| ==> |fs[i].pixels| <= numLeds && |fs[i].pixels| < 0x1_0000_0000
    requires channel == 0 || channel % 2 == 1
    requires |stale| == MaximumPacketSize(numLeds)
    ensures ConnectionSpec(EncodeStream(channel, fs), stale, numLeds, inflate)
              == Session(fs, |fs|, Dropped(HeaderReadFailed))
    decreases |fs|
  {
    if fs != [] {
      StreamRoundTrip(channel, fs[1..], stale, numLeds, inflate);
      StreamStep(channel, fs, stale, numLeds, inflate);
    }
  }

  /** The inductive step of the stream round trip: one more packet in front
      of a stream that round-trips. */
  lemma StreamStep(channel: U16, fs: seq<Frame>, stale: seq<Byte>, numLeds: nat, inflate: Inflate)
    requires fs != []
    requires forall i :: 0 <= i < |fs| ==> |fs[i].pixels| <= numLeds && |fs[i].pixels| < 0x1_0000_0000
    requires channel == 0 || channel % 2 == 1
    requires |stale| == MaximumPacketSize(numLeds)
    requires ConnectionSpec(EncodeStream(channel, fs[1..]), stale, numLeds, inflate)
               == Session(fs[1..], |fs| - 1, Dropped(HeaderReadFailed))
    ensures ConnectionSpec(EncodeStream(channel, fs), stale, numLeds, inflate)
              == Session(fs, |fs|, Dropped(HeaderReadFailed))
  {
    StandardPacketThenRest(channel, fs[0], EncodeStream(channel, fs[1..]), stale, numLeds, inflate);
    HeadTail(fs);
  }

  /** A standard pixel packet for this receiver puts its frame in front of
      what the rest of the connection pushes. */
  lemma StandardPacketThenRest(channel: U16, f: Frame, rest: seq<Byte>,
                               stale: seq<Byte>, numLeds: nat, inflate: Inflate)
    requires |f.pixels| <= numLeds && |f.pixels| < 0x1_0000_0000
    requires channel == 0 || channel % 2 == 1
    requires |stale| == MaximumPacketSize(numLeds)
    ensures var r := ConnectionSpec(rest, stale, numLeds, inflate);
            ConnectionSpec(EncodePacket(WifiCommandPixelData64, channel, f) + rest, stale, numLeds, inflate)
              == Session([f] + r.frames, r.accepted + 1, r.end)
  {
    var p := EncodePacket(WifiCommandPixelData64, channel, f);
    var s := p + rest;
    StandardPacketRoundTrip(channel, f, rest, stale, numLeds, inflate);
    StandardPacketKeepsOutput(s, stale, numLeds, inflate);
    ConnectionAfterPush(s, stale, numLeds, inflate, f, |p|);
    assert s[|p|..] == rest;
  }

  /** A standard pixel packet leaves the output buffer as it was. */
  lemma StandardPacketKeepsOutput(s: seq<Byte>, stale: seq<Byte>, numLeds: nat, inflate: Inflate)
    requires |stale| == MaximumPacketSize(numLeds)
    requires PacketSpec(s, stale, numLeds, inflate).Accepted?
    requires WordFromMemory(s) == WifiCommandPixelData64
    ensures OutputAfter(s, stale, numLeds, inflate) == stale
  {
    PixelPacketIsNotCompressed(s);
  }

  /** A turn that pushes `f` and leaves the output buffer alone puts `f` in
      front of what the rest of the connection pushes. */
  lemma ConnectionAfterPush(s: seq<Byte>, stale: seq<Byte>, numLeds: nat, inflate: Inflate, f: Frame, n: nat)
    requires |stale| == MaximumPacketSize(numLeds)
    requires PacketSpec(s, stale, numLeds, inflate) == Accepted(Some(f), n)
    requires OutputAfter(s, stale, numLeds, inflate) == stale
    ensures n <= |s|
    ensures var r := ConnectionSpec(s[n..], stale, numLeds, inflate);
            ConnectionSpec(s, stale, numLeds, inflate) == Session([f] + r.frames, r.accepted + 1, r.end)
  {
  }
}
