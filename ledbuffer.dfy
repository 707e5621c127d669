/** Timestamped frames of colour data (LEDBuffer), their parser from the
    wire, and the bounded arrival-ordered queue of frames (LEDBufferManager). */
module LedBuffer {
  import opened Wrappers
  import opened Globals

  /** One CRGB colour: three bytes, red first. */
  datatype Rgb = Rgb(r: Byte, g: Byte, b: Byte)

  /** An LEDBuffer. It is immutable: the colours are copied in at
      construction and both timestamp fields are `const`. */
  datatype Frame = Frame(pixels: seq<Rgb>, seconds: U64, micros: U64)

  /** The two LEDBufferException messages of CreateFromWire. */
  datatype WireError = NotEnoughData | DataSizeMismatch

  /** Size of the standard header: command, channel, pixel count, seconds, microseconds. */
  const HeaderSize: nat := 2 + 2 + 4 + 8 + 8

  const MicrosPerSecond: nat := 1_000_000

  /** The instant a frame becomes due, in microseconds since the epoch. */
  function Timestamp(f: Frame): (t: nat)
    ensures f.micros < MicrosPerSecond ==> t / MicrosPerSecond == f.seconds && t % MicrosPerSecond == f.micros
  {
    f.seconds * MicrosPerSecond + f.micros
  }

  /** The pixel count a standard header announces (LE32 at offset 4). */
  function PixelCount(payload: seq<Byte>): U32
    requires |payload| >= HeaderSize
  {
    DWordFromMemory(payload[4..])
  }

  /** Bytes a payload must hold for the pixels its header announces. */
  function RequiredLength(payload: seq<Byte>): nat
    requires |payload| >= HeaderSize
  {
    HeaderSize + 3 * PixelCount(payload)
  }

  /** CreateFromWire: validate a standard packet and build its frame. */
  function CreateFromWire(payload: seq<Byte>): (r: Result<Frame, WireError>)
    ensures r == Failure(NotEnoughData) <==> |payload| < HeaderSize
    ensures r == Failure(DataSizeMismatch) <==>
              |payload| >= HeaderSize && |payload| < RequiredLength(payload)
    ensures r.Success? ==>
              && |payload| >= RequiredLength(payload)
              && |r.value.pixels| == PixelCount(payload)
              && (forall i :: 0 <= i < |r.value.pixels| ==>
                    r.value.pixels[i] == Rgb(payload[HeaderSize + 3 * i],
                                             payload[HeaderSize + 3 * i + 1],
                                             payload[HeaderSize + 3 * i + 2]))
              && r.value.seconds == ULongFromMemory(payload[8..])
              && r.value.micros == ULongFromMemory(payload[16..])
  {
    if |payload| < HeaderSize then
      Failure(NotEnoughData)
    else
      var count := PixelCount(payload);
      if |payload| < RequiredLength(payload) then
        Failure(DataSizeMismatch)
      else
        var pixels := seq(count, i requires 0 <= i < count =>
                            Rgb(payload[HeaderSize + 3 * i],
                                payload[HeaderSize + 3 * i + 1],
                                payload[HeaderSize + 3 * i + 2]));
        Success(Frame(pixels, ULongFromMemory(payload[8..]), ULongFromMemory(payload[16..])))
  }

  /** The colour bytes of a frame as they travel, three per pixel. */
  function EncodePixels(ps: seq<Rgb>): (s: seq<Byte>)
    ensures |s| == 3 * |ps|
    ensures forall i :: 0 <= i < |ps| ==>
              s[3 * i] == ps[i].r && s[3 * i + 1] == ps[i].g && s[3 * i + 2] == ps[i].b
  {
    if ps == [] then [] else [ps[0].r, ps[0].g, ps[0].b] + EncodePixels(ps[1..])
  }

  /** The 24 header bytes a sender writes. */
  function EncodeHeader(command: U16, channel: U16, count: U32, seconds: U64, micros: U64): (s: seq<Byte>)
    ensures |s| == HeaderSize
  {
    ToLittleEndian(command, 2) + ToLittleEndian(channel, 2) + ToLittleEndian(count, 4)
      + ToLittleEndian(seconds, 8) + ToLittleEndian(micros, 8)
  }

  /** A standard packet as a sender lays it out. */
  function EncodePacket(command: U16, channel: U16, f: Frame): (s: seq<Byte>)
    requires |f.pixels| < 0x1_0000_0000
    ensures |s| == HeaderSize + 3 * |f.pixels|
  {
    EncodeHeader(command, channel, |f.pixels|, f.seconds, f.micros) + EncodePixels(f.pixels)
  }

  /** A field of `n` bytes at offset `at` reads back as the value written there. */
  lemma FieldReadsBack(p: seq<Byte>, at: nat, v: nat, n: nat)
    requires at + n <= |p| && v < Pow256(n)
    requires p[at..at + n] == ToLittleEndian(v, n)
    ensures LittleEndian(p[at..][..n]) == v
  {
    assert p[at..][..n] == p[at..at + n];
    DecodeEncode(v, n);
  }

  /** The two 16-bit fields and the pixel count of a header read back as written. */
  lemma HeaderWordsReadBack(command: U16, channel: U16, count: U32, seconds: U64, micros: U64, tail: seq<Byte>)
    ensures var p := EncodeHeader(command, channel, count, seconds, micros) + tail;
      && WordFromMemory(p) == command
      && WordFromMemory(p[2..]) == channel
      && PixelCount(p) == count
  {
    var p := EncodeHeader(command, channel, count, seconds, micros) + tail;
    assert p[0..2] == ToLittleEndian(command, 2);
    assert p[2..4] == ToLittleEndian(channel, 2);
    assert p[4..8] == ToLittleEndian(count, 4);
    FieldReadsBack(p, 0, command, 2);
    FieldReadsBack(p, 2, channel, 2);
    FieldReadsBack(p, 4, count, 4);
    assert p[0..] == p;
  }

  /** The two timestamp fields of a header read back as written. */
  lemma HeaderTimesReadBack(command: U16, channel: U16, count: U32, seconds: U64, micros: U64, tail: seq<Byte>)
    ensures var p := EncodeHeader(command, channel, count, seconds, micros) + tail;
      && ULongFromMemory(p[8..]) == seconds
      && ULongFromMemory(p[16..]) == micros
  {
    var p := EncodeHeader(command, channel, count, seconds, micros) + tail;
    assert p[8..16] == ToLittleEndian(seconds, 8);
    assert p[16..24] == ToLittleEndian(micros, 8);
    FieldReadsBack(p, 8, seconds, 8);
    FieldReadsBack(p, 16, micros, 8);
  }

  /** The header fields of an encoded packet read back as written. */
  lemma EncodedHeader(command: U16, channel: U16, f: Frame, tail: seq<Byte>)
    requires |f.pixels| < 0x1_0000_0000
    ensures var p := EncodePacket(command, channel, f) + tail;
      && WordFromMemory(p) == command
      && WordFromMemory(p[2..]) == channel
      && PixelCount(p) == |f.pixels|
      && ULongFromMemory(p[8..]) == f.seconds
      && ULongFromMemory(p[16..]) == f.micros
  {
    var header := EncodeHeader(command, channel, |f.pixels|, f.seconds, f.micros);
    var p := EncodePacket(command, channel, f) + tail;
    assert p == header + (EncodePixels(f.pixels) + tail);
    HeaderWordsReadBack(command, channel, |f.pixels|, f.seconds, f.micros, EncodePixels(f.pixels) + tail);
    HeaderTimesReadBack(command, channel, |f.pixels|, f.seconds, f.micros, EncodePixels(f.pixels) + tail);
  }

  /** The colour bytes of an encoded packet follow its header. */
  lemma EncodedPixels(command: U16, channel: U16, f: Frame, tail: seq<Byte>)
    requires |f.pixels| < 0x1_0000_0000
    ensures var p := EncodePacket(command, channel, f) + tail;
            p[HeaderSize..HeaderSize + 3 * |f.pixels|] == EncodePixels(f.pixels)
  {
  }

  /** Round trip: parsing an encoded packet gives back the frame, whatever
      command and channel it carries and whatever bytes follow it. */
  lemma CreateFromWireRoundTrip(command: U16, channel: U16, f: Frame, tail: seq<Byte>)
    requires |f.pixels| < 0x1_0000_0000
    ensures CreateFromWire(EncodePacket(command, channel, f) + tail) == Success(f)
  {
    var p := EncodePacket(command, channel, f) + tail;
    EncodedHeader(command, channel, f, tail);
    EncodedPixels(command, channel, f, tail);
    var r := CreateFromWire(p);
    assert r.Success?;
    forall i | 0 <= i < |f.pixels|
      ensures r.value.pixels[i] == f.pixels[i]
    {
      assert p[HeaderSize + 3 * i] == EncodePixels(f.pixels)[3 * i];
      assert p[HeaderSize + 3 * i + 1] == EncodePixels(f.pixels)[3 * i + 1];
      assert p[HeaderSize + 3 * i + 2] == EncodePixels(f.pixels)[3 * i + 2];
    }
    assert r.value.pixels == f.pixels;
  }

  /** The command and channel fields, and every byte after the announced
      pixels, have no influence on the parsed frame. */
  lemma CreateFromWireIgnoresCommandChannelAndTail(p: seq<Byte>, q: seq<Byte>)
    requires |p| >= HeaderSize && |q| >= HeaderSize
    requires |p| >= RequiredLength(p) && |q| >= RequiredLength(p)
    requires forall i :: 4 <= i < RequiredLength(p) ==> p[i] == q[i]
    ensures CreateFromWire(p) == CreateFromWire(q)
  {
    assert PixelCount(p) == PixelCount(q);
    assert ULongFromMemory(p[8..]) == ULongFromMemory(q[8..]);
    assert ULongFromMemory(p[16..]) == ULongFromMemory(q[16..]);
    var a, b := CreateFromWire(p), CreateFromWire(q);
    assert a.value.pixels == b.value.pixels;
  }

  // ---------------------------------------------------------------------
  // The queue (LEDBufferManager)
  // ---------------------------------------------------------------------

  /** The value the age queries give for an empty queue (MAXDOUBLE in the
      C++). It exceeds every age a queued frame can have, since both
      timestamp fields are 64-bit and the clock is not negative. */
  const MaxAge: int := 0x1_0000_0000_0000_0000 * 0x10_0000

  /** The queue after PushNewBuffer: when full, the front is dropped first. */
  function Pushed(q: seq<Frame>, capacity: nat, f: Frame): (r: seq<Frame>)
    requires |q| <= capacity
    ensures 1 <= capacity ==> |r| <= capacity
    ensures |r| > 0 && r[|r| - 1] == f
  {
    if |q| == capacity && q != [] then q[1..] + [f] else q + [f]
  }

  /** The queue after pushing `fs` one by one. */
  function PushAll(q: seq<Frame>, capacity: nat, fs: seq<Frame>): seq<Frame>
    requires 1 <= capacity && |q| <= capacity
    decreases |fs|
  {
    if fs == [] then q
    else
      PushedBounded(q, capacity, fs[0]);
      PushAll(Pushed(q, capacity, fs[0]), capacity, fs[1..])
  }

  /** Pushing a sequence starts with pushing its first frame. */
  lemma PushAllCons(q: seq<Frame>, capacity: nat, f: Frame, fs: seq<Frame>)
    requires 1 <= capacity && |q| <= capacity
    ensures PushAll(q, capacity, [f] + fs) == PushAll(Pushed(q, capacity, f), capacity, fs)
  {
    assert ([f] + fs)[1..] == fs;
  }

  /** Pushing never lets the size exceed the capacity, and when the queue
      was full exactly its front is removed before the new frame is
      appended at the back. */
  lemma PushedBounded(q: seq<Frame>, capacity: nat, f: Frame)
    requires 1 <= capacity && |q| <= capacity
    ensures |Pushed(q, capacity, f)| == if |q| == capacity then capacity else |q| + 1
    ensures |Pushed(q, capacity, f)| <= capacity
    ensures |q| == capacity ==> Pushed(q, capacity, f) == q[1..] + [f]
    ensures |q| < capacity ==> Pushed(q, capacity, f) == q + [f]
  {
  }

  /** The last `n` elements of `s`, or all of them when there are fewer. */
  function Newest(s: seq<Frame>, n: nat): (r: seq<Frame>)
    ensures |r| == if |s| < n then |s| else n
  {
    if |s| > n then s[|s| - n..] else s
  }

  /** Pushing k frames into a queue of capacity N keeps the last N of the
      old contents followed by the pushed frames, in arrival order. */
  lemma {:induction false} PushAllKeepsNewest(q: seq<Frame>, capacity: nat, fs: seq<Frame>)
    requires 1 <= capacity && |q| <= capacity
    ensures PushAll(q, capacity, fs) == Newest(q + fs, capacity)
    decreases |fs|
  {
    if fs == [] {
      assert q + fs == q;
    } else {
      PushedBounded(q, capacity, fs[0]);
      PushAllKeepsNewest(Pushed(q, capacity, fs[0]), capacity, fs[1..]);
      NewestAfterPush(q, capacity, fs[0], fs[1..]);
      HeadTail(fs);
    }
  }

  /** Dropping the front of a full queue does not change its newest elements. */
  lemma NewestAfterPush(q: seq<Frame>, capacity: nat, f: Frame, rest: seq<Frame>)
    requires 1 <= capacity && |q| <= capacity
    ensures Newest(Pushed(q, capacity, f) + rest, capacity) == Newest(q + ([f] + rest), capacity)
  {
    var all := q + ([f] + rest);
    PushedBounded(q, capacity, f);
    if |q| == capacity {
      assert q[1..] + [f] + rest == all[1..];
    } else {
      assert q + [f] + rest == all;
    }
  }

  /** From an empty queue: after k pushes the queue holds the last min(k, N)
      pushed frames, in the order they arrived. */
  lemma LastPushedFramesKept(capacity: nat, fs: seq<Frame>)
    requires 1 <= capacity
    ensures PushAll([], capacity, fs) == Newest(fs, capacity)
  {
    PushAllKeepsNewest([], capacity, fs);
    assert [] + fs == fs;
  }

  /** The bounded deque of frames shared by the network and draw loops. */
  class LedBufferManager {
    /** Oldest frame first (the deque's front). */
    var buffers: seq<Frame>
    const maxBuffers: nat

    ghost predicate Valid()
      reads this
    {
      1 <= maxBuffers && |buffers| <= maxBuffers
    }

    /** A capacity of 0 would make the first push pop an empty deque. */
    constructor (cBuffers: nat)
      requires 1 <= cBuffers
      ensures Valid() && buffers == [] && maxBuffers == cBuffers
    {
      buffers := [];
      maxBuffers := cBuffers;
    }

    /** At least one frame fits, and a valid queue never holds more. */
    function Capacity(): (n: nat)
      reads this
      ensures Valid() ==> 1 <= n && |buffers| <= n
    {
      maxBuffers
    }

    function Size(): (n: nat)
      reads this
      ensures Valid() ==> n <= Capacity()
    {
      |buffers|
    }

    /** Time until the oldest frame is due (negative once overdue), or the
        sentinel when there is none. */
    function AgeOfOldestBuffer(now: nat): (age: int)
      reads this
      ensures buffers == [] <==> age == MaxAge
      ensures buffers != [] ==> age == Timestamp(buffers[0]) - now
      ensures age <= 0 ==> buffers != []
    {
      if buffers != [] then Timestamp(buffers[0]) - now else MaxAge
    }

    /** Time until the newest frame is due, or the sentinel when there is none. */
    function AgeOfNewestBuffer(now: nat): (age: int)
      reads this
      ensures buffers == [] <==> age == MaxAge
      ensures buffers != [] ==> age == Timestamp(buffers[|buffers| - 1]) - now
    {
      if buffers != [] then Timestamp(buffers[|buffers| - 1]) - now else MaxAge
    }

    method PopOldestBuffer() returns (r: Option<Frame>)
      requires Valid()
      modifies this
      ensures Valid()
      ensures old(buffers) == [] ==> r == None && buffers == []
      ensures old(buffers) != [] ==> r == Some(old(buffers[0])) && buffers == old(buffers[1..])
    {
      if buffers == [] {
        return None;
      }
      r := Some(buffers[0]);
      buffers := buffers[1..];
    }

    method PushNewBuffer(f: Frame)
      requires Valid()
      modifies this
      ensures Valid()
      ensures buffers == Pushed(old(buffers), maxBuffers, f)
    {
      if |buffers| == maxBuffers {
        buffers := buffers[1..];
      }
      buffers := buffers + [f];
    }
  }
}
