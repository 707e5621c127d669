/** The connected socket as the server sees it through read() and write():
    what the peer and the kernel will deliver, one event per read() call. */
module Socket {
  import opened Globals
  import opened Packet

  /** What a read() call meets next: bytes (of which it takes as many as it
      asked for, leaving the rest for the next call), an interruption by a
      signal (EINTR), the peer closing (0), or an error or the receive
      timeout (-1). An empty `Data` reads as the peer closing. */
  datatype ReadEvent = Data(bytes: seq<Byte>) | Interrupted | Closed | Failed

  /** Every byte read() will deliver before the first close or error. */
  function StreamBytes(events: seq<ReadEvent>): seq<Byte>
  {
    if events == [] then []
    else match events[0]
      case Data(d) => if d == [] then [] else d + StreamBytes(events[1..])
      case Interrupted => StreamBytes(events[1..])
      case Closed => []
      case Failed => []
  }

  /** Decreases with every read() that delivers bytes or is interrupted. */
  function Measure(events: seq<ReadEvent>): nat
  {
    if events == [] then 0
    else (if events[0].Data? then |events[0].bytes| else 0) + 1 + Measure(events[1..])
  }

  class Connection {
    /** What the peer and the kernel have in store for the next reads. */
    var events: seq<ReadEvent>
    /** Replies written back to the peer. */
    var sent: seq<SocketResponse>

    constructor (events: seq<ReadEvent>)
      ensures this.events == events && sent == []
    {
      this.events := events;
      sent := [];
    }

    /** read(fd, buf + offset, count): the number of bytes stored (> 0), 0 when
        the peer closed, or -1 with `interrupted` telling EINTR apart. */
    method Read(buf: array<Byte>, offset: nat, count: nat) returns (n: int, interrupted: bool)
      requires 0 < count && offset + count <= buf.Length
      modifies this`events, buf
      ensures n > 0 ==>
                && !interrupted && n <= count && n <= |old(StreamBytes(events))|
                && (forall i :: 0 <= i < n ==> buf[offset + i] == old(StreamBytes(events))[i])
                && StreamBytes(events) == old(StreamBytes(events))[n..]
                && Measure(events) + n <= old(Measure(events))
      ensures interrupted ==>
                && n < 0
                && StreamBytes(events) == old(StreamBytes(events))
                && Measure(events) < old(Measure(events))
      ensures n <= 0 && !interrupted ==> old(StreamBytes(events)) == [] && events == old(events)
      ensures forall i :: 0 <= i < buf.Length && !(offset <= i < offset + n) ==> buf[i] == old(buf[i])
    {
      if events == [] {
        return -1, false;
      }
      match events[0]
      case Interrupted =>
        events := events[1..];
        return -1, true;
      case Closed =>
        return 0, false;
      case Failed =>
        return -1, false;
      case Data(d) =>
        if d == [] {
          return 0, false;
        }
        n := if count < |d| then count else |d|;
        forall i | 0 <= i < n {
          buf[offset + i] := d[i];
        }
        if n < |d| {
          events := [Data(d[n..])] + events[1..];
          assert events[1..] == old(events)[1..];
        } else {
          events := events[1..];
        }
        interrupted := false;
    }

    /** read() repeated for as long as it fails because a signal
        interrupted it: the bytes stored (> 0), or 0 or -1 once the stream
        has ended. */
    method ReadRetrying(buf: array<Byte>, offset: nat, count: nat) returns (n: int)
      requires 0 < count && offset + count <= buf.Length
      modifies this`events, buf
      ensures n > 0 ==>
                && n <= count && n <= |old(StreamBytes(events))|
                && (forall i :: 0 <= i < n ==> buf[offset + i] == old(StreamBytes(events))[i])
                && StreamBytes(events) == old(StreamBytes(events))[n..]
      ensures n <= 0 ==> old(StreamBytes(events)) == [] && StreamBytes(events) == []
      ensures forall i :: 0 <= i < buf.Length && !(offset <= i < offset + n) ==> buf[i] == old(buf[i])
    {
      var interrupted: bool;
      n, interrupted := Read(buf, offset, count);
      while n < 0 && interrupted
        invariant interrupted ==> n < 0
        invariant n < 0 && interrupted ==>
                    buf[..] == old(buf[..]) && StreamBytes(events) == old(StreamBytes(events))
        invariant n > 0 ==>
                    && n <= count && n <= |old(StreamBytes(events))|
                    && (forall i :: 0 <= i < n ==> buf[offset + i] == old(StreamBytes(events))[i])
                    && StreamBytes(events) == old(StreamBytes(events))[n..]
        invariant n <= 0 && !interrupted ==> old(StreamBytes(events)) == [] && StreamBytes(events) == []
        invariant forall i :: 0 <= i < buf.Length && !(offset <= i < offset + n) ==> buf[i] == old(buf[i])
        decreases Measure(events) + if n < 0 && interrupted then 1 else 0
      {
        n, interrupted := Read(buf, offset, count);
      }
    }

    /** write(fd, &response, sizeof(response)); its outcome changes nothing. */
    method Write(response: SocketResponse)
      modifies this`sent
      ensures sent == old(sent) + [response]
    {
      sent := sent + [response];
    }
  }
}
