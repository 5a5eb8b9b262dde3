/** Frames over a byte stream that the network cuts into segments as it likes. */
module Transport {
  import opened Wrappers
  import opened Words
  import opened Crc32
  import opened Wire

  function Flatten(segments: seq<seq<Byte>>): seq<Byte> {
    if segments == [] then [] else segments[0] + Flatten(segments[1..])
  }

  function Cut(bytes: seq<Byte>, n: nat): seq<Byte> {
    if |bytes| <= n then bytes else bytes[..n]
  }

  /** One end of a connection: segments that will still arrive before the peer closes, what was written,
      and how many more bytes can be written before the connection breaks. */
  class TcpStream {
    var incoming: seq<seq<Byte>>
    var outgoing: seq<Byte>
    var room: nat

    constructor (segments: seq<seq<Byte>>, room: nat)
      ensures incoming == segments && outgoing == [] && this.room == room
    {
      incoming, outgoing, this.room := segments, [], room;
    }

    function Unread(): seq<Byte>
      reads this
    {
      Flatten(incoming)
    }

    /** Fill a buffer of n bytes from as many segments as it takes. */
    method ReadExact(n: nat) returns (r: Result<seq<Byte>, BinaryError>)
      modifies this`incoming
      ensures if |old(Unread())| < n then r == Err(IoError(StreamEnded))
              else r == Ok(old(Unread())[..n]) && Unread() == old(Unread())[n..]
    {
      var buf: seq<Byte> := [];
      while |buf| < n
        invariant |buf| <= n
        invariant old(Unread()) == buf + Unread()
        decreases |incoming|, n - |buf|
      {
        if incoming == [] {
          return Err(IoError(StreamEnded));
        }
        var segment := incoming[0];
        var k := if |segment| <= n - |buf| then |segment| else n - |buf|;
        ghost var before := Unread();
        buf := buf + segment[..k];
        incoming := if k == |segment| then incoming[1..] else [segment[k..]] + incoming[1..];
        assert before == segment[..k] + Unread();
      }
      r := Ok(buf);
    }

    /** A write that breaks may have sent a part. */
    method WriteAll(bytes: seq<Byte>) returns (r: Result<(), BinaryError>)
      modifies this`outgoing, this`room
      ensures outgoing == old(outgoing) + Cut(bytes, old(room))
      ensures if |bytes| <= old(room) then r == Ok(()) && room == old(room) - |bytes|
              else r == Err(IoError(WriteBroken)) && room == 0
    {
      if |bytes| > room {
        outgoing := outgoing + bytes[..room];
        room := 0;
        return Err(IoError(WriteBroken));
      }
      outgoing := outgoing + bytes;
      room := room - |bytes|;
      r := Ok(());
    }
  }

  /** Reading a frame depends only on the bytes, not on how they were cut into segments. The source
      checks the magic and the version once more after from_bytes, which has accepted them already. */
  method ReadFrame(stream: TcpStream, maxSize: nat) returns (r: Result<RawFrame, BinaryError>)
    modifies stream`incoming
    ensures match ParseFrame(old(stream.Unread()), maxSize)
      case Frame(f, rest) => r == Ok(f) && stream.Unread() == rest
      case Failed(e) => r == Err(e)
  {
    hide Checksum, FromBytes, FromBigEndian32;
    ghost var all := stream.Unread();
    var headerBuf := stream.ReadExact(HEADER_SIZE);
    if headerBuf.Err? {
      return Err(headerBuf.error);
    }
    var header := FromBytes(headerBuf.value);
    if header.Err? {
      return Err(header.error);
    }
    if header.value.length > maxSize {
      return Err(PayloadTooLarge(header.value.length));
    }
    var len: nat := header.value.length;
    var payload: Result<seq<Byte>, BinaryError> := Ok([]);
    if len > 0 {
      payload := stream.ReadExact(len);
      if payload.Err? {
        return Err(payload.error);
      }
    }
    assert payload.value == all[HEADER_SIZE..HEADER_SIZE + len];
    assert stream.Unread() == all[HEADER_SIZE + len..];
    var crcBuf := stream.ReadExact(4);
    if crcBuf.Err? {
      return Err(crcBuf.error);
    }
    assert crcBuf.value == all[HEADER_SIZE + len..HEADER_SIZE + len + 4];
    var received := FromBigEndian32(crcBuf.value);
    var computed := CalculateChecksum(payload.value);
    if received != computed {
      return Err(ChecksumMismatch(received, computed));
    }
    r := Ok(RawFrame(header.value.payloadType, payload.value));
    assert stream.Unread() == all[HEADER_SIZE + len + 4..];
  }

  method WriteFrame(stream: TcpStream, payloadType: Byte, payload: seq<Byte>) returns (r: Result<(), BinaryError>)
    modifies stream`outgoing, stream`room
    ensures var bytes, room := FrameBytes(RawFrame(payloadType, payload)), old(stream.room);
      && stream.outgoing == old(stream.outgoing) + Cut(bytes, room)
      && if |bytes| <= room then r == Ok(()) && stream.room == room - |bytes|
         else r == Err(IoError(WriteBroken)) && stream.room == 0
  {
    hide FrameBytes, Cut;
    var buf := Serialize(payloadType, payload);
    r := stream.WriteAll(buf);
  }
}
