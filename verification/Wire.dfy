/** The binary wire format: header codec, frames and one-shot deserialization. */
module Wire {
  import opened Wrappers
  import opened Words
  import opened Crc32

  /** What a call does that may also slice out of bounds. */
  datatype Outcome<+T> = Returned(result: Result<T, BinaryError>) | Panicked

  datatype IoCause = StreamEnded | WriteBroken | ResolverRefused(message: string)

  datatype BinaryError =
    | InvalidMagic
    | UnsupportedVersion(version: Half)
    | InvalidType(payloadType: Byte)
    | PayloadTooLarge(size: nat)
    | ChecksumMismatch(expected: Word, actual: Word)
    | DeserializationError(reason: string)
    | IoError(cause: IoCause)

  const RFO_MAGIC: seq<Byte> := [0x52, 0x46, 0x4F, 0x00]
  const PROTOCOL_VERSION: Half := 0x0001
  const TYPE_MDOC: Byte := 0x01
  const TYPE_DOC: Byte := 0x02
  const TYPE_BATCH: Byte := 0x03
  const TYPE_HANDSHAKE: Byte := 0x10
  const TYPE_RESOLVE_OPT: Byte := 0x11
  const TYPE_CORE_FILE: Byte := 0x12
  const TYPE_ERROR: Byte := 0xFF
  const MAX_PAYLOAD_SIZE: nat := 10 * 1024 * 1024

  predicate KnownType(t: Byte) {
    t == TYPE_MDOC || t == TYPE_DOC || t == TYPE_BATCH || t == TYPE_HANDSHAKE
    || t == TYPE_RESOLVE_OPT || t == TYPE_CORE_FILE || t == TYPE_ERROR
  }

  // ---- big-endian numbers ----

  function BigEndian16(h: Half): (b: seq<Byte>)
    ensures |b| == 2
  {
    var high: Byte, low: Byte := h / 0x100, h % 0x100;
    [high, low]
  }

  function BigEndian32(w: Word): (b: seq<Byte>)
    ensures |b| == 4
  {
    BigEndian16(w / 0x1_0000) + BigEndian16(w % 0x1_0000)
  }

  function FromBigEndian16(b: seq<Byte>): Half
    requires |b| == 2
  {
    var high: nat := b[0];
    high * 0x100 + b[1]
  }

  function FromBigEndian32(b: seq<Byte>): Word
    requires |b| == 4
  {
    FromBigEndian16(b[..2]) * 0x1_0000 + FromBigEndian16(b[2..])
  }

  lemma BigEndian16RoundTrip(h: Half, b: seq<Byte>)
    requires |b| == 2
    ensures FromBigEndian16(b) == h <==> b == BigEndian16(h)
  {}

  lemma BigEndian32RoundTrip(w: Word, b: seq<Byte>)
    requires |b| == 4
    ensures FromBigEndian32(b) == w <==> b == BigEndian32(w)
  {}

  /** The first byte weighs most. */
  lemma BigEndianValue(w: Word, h: Half)
    ensures var b := BigEndian16(h); b[0] as int * 0x100 + b[1] == h
    ensures var b := BigEndian32(w); b[0] as int * 0x100_0000 + b[1] as int * 0x1_0000 + b[2] as int * 0x100 + b[3] == w
  {}

  // ---- the header ----

  datatype BinaryHeader = BinaryHeader(magic: seq<Byte>, version: Half, payloadType: Byte, length: Word)

  const HEADER_SIZE: nat := 11

  function NewHeader(payloadType: Byte, length: Word): BinaryHeader {
    BinaryHeader(RFO_MAGIC, PROTOCOL_VERSION, payloadType, length)
  }

  function HeaderBytes(h: BinaryHeader): (b: seq<Byte>)
    requires |h.magic| == 4
    ensures |b| == HEADER_SIZE
  {
    h.magic + BigEndian16(h.version) + [h.payloadType] + BigEndian32(h.length)
  }

  /** Fill an 11-byte buffer piece by piece. */
  method ToBytes(h: BinaryHeader) returns (buf: array<Byte>)
    requires |h.magic| == 4
    ensures fresh(buf) && buf[..] == HeaderBytes(h)
    ensures buf[..4] == h.magic && buf[4] as int * 0x100 + buf[5] == h.version && buf[6] == h.payloadType
    ensures buf[7] as int * 0x100_0000 + buf[8] as int * 0x1_0000 + buf[9] as int * 0x100 + buf[10] == h.length
  {
    buf := new Byte[11](_ => 0);
    var version, length := BigEndian16(h.version), BigEndian32(h.length);
    forall i | 0 <= i < 4 { buf[i] := h.magic[i]; }
    forall i | 4 <= i < 6 { buf[i] := version[i - 4]; }
    buf[6] := h.payloadType;
    forall i | 7 <= i < 11 { buf[i] := length[i - 7]; }
  }

  function FromBytes(b: seq<Byte>): Result<BinaryHeader, BinaryError>
    requires |b| == HEADER_SIZE
  {
    var version := FromBigEndian16(b[4..6]);
    var length := FromBigEndian32(b[7..11]);
    if b[..4] != RFO_MAGIC then Err(InvalidMagic)
    else if version != PROTOCOL_VERSION then Err(UnsupportedVersion(version))
    else if !KnownType(b[6]) then Err(InvalidType(b[6]))
    else if length > MAX_PAYLOAD_SIZE then Err(PayloadTooLarge(length))
    else Ok(BinaryHeader(b[..4], version, b[6], length))
  }

  predicate Accepted(h: BinaryHeader) {
    h.magic == RFO_MAGIC && h.version == PROTOCOL_VERSION && KnownType(h.payloadType)
    && h.length <= MAX_PAYLOAD_SIZE
  }

  /** Reading and writing headers are inverse to each other on the headers that are accepted. */
  lemma HeaderCodec(b: seq<Byte>, h: BinaryHeader)
    requires |b| == HEADER_SIZE
    ensures FromBytes(b) == Ok(h) <==> Accepted(h) && b == HeaderBytes(h)
  {
    BigEndian16RoundTrip(h.version, b[4..6]);
    BigEndian32RoundTrip(h.length, b[7..11]);
    assert b == b[..4] + b[4..6] + [b[6]] + b[7..11];
    if Accepted(h) && b == HeaderBytes(h) {
      assert b[..4] == h.magic && b[4..6] == BigEndian16(h.version) && b[7..11] == BigEndian32(h.length);
    }
  }

  /** A header is what its bytes say, the first byte of a number weighing most, and these are accepted: the
      letters RFO and a zero, version 1, seven types, and lengths up to 10 MiB. */
  lemma HeaderFields(b: seq<Byte>)
    requires |b| == 11
    ensures FromBytes(b).Ok? <==>
      && b[0] == 0x52 && b[1] == 0x46 && b[2] == 0x4F && b[3] == 0x00 && b[4] == 0 && b[5] == 1
      && b[6] in {1, 2, 3, 0x10, 0x11, 0x12, 0xFF}
      && b[7] as int * 0x100_0000 + b[8] as int * 0x1_0000 + b[9] as int * 0x100 + b[10] <= 10_485_760
    ensures FromBytes(b).Ok? ==>
      var h := FromBytes(b).value;
      && h.magic == b[..4] && h.version == b[4] as int * 0x100 + b[5] && h.payloadType == b[6]
      && h.length == b[7] as int * 0x100_0000 + b[8] as int * 0x1_0000 + b[9] as int * 0x100 + b[10]
    ensures FromBytes(b).Err? && FromBytes(b).error.UnsupportedVersion? ==>
      FromBytes(b).error.version == b[4] as int * 0x100 + b[5]
    ensures FromBytes(b).Err? && FromBytes(b).error.PayloadTooLarge? ==>
      FromBytes(b).error.size == b[7] as int * 0x100_0000 + b[8] as int * 0x1_0000 + b[9] as int * 0x100 + b[10]
  {}

  /** The first failing check decides the error. */
  lemma HeaderErrors(h: BinaryHeader)
    requires |h.magic| == 4
    ensures FromBytes(HeaderBytes(h)) ==
      if h.magic != RFO_MAGIC then Err(InvalidMagic)
      else if h.version != PROTOCOL_VERSION then Err(UnsupportedVersion(h.version))
      else if !KnownType(h.payloadType) then Err(InvalidType(h.payloadType))
      else if h.length > MAX_PAYLOAD_SIZE then Err(PayloadTooLarge(h.length))
      else Ok(h)
  {}

  // ---- frames ----

  datatype RawFrame = RawFrame(payloadType: Byte, payload: seq<Byte>)

  /** The length field is the payload length cast to 32 bits. */
  function FrameBytes(f: RawFrame): (b: seq<Byte>)
    ensures |b| == HEADER_SIZE + |f.payload| + 4
  {
    HeaderBytes(NewHeader(f.payloadType, |f.payload| % 0x1_0000_0000)) + f.payload
      + BigEndian32(Checksum(f.payload))
  }

  /** A frame byte by byte: the letters RFO and a zero, version 1, the type, the length, the payload and
      its checksum, the first byte of a number weighing most. */
  lemma FrameFields(f: RawFrame)
    ensures var b, n := FrameBytes(f), |f.payload|;
      && |b| == n + 15 && b[..7] == [0x52, 0x46, 0x4F, 0x00, 0, 1, f.payloadType]
      && b[7] as int * 0x100_0000 + b[8] as int * 0x1_0000 + b[9] as int * 0x100 + b[10] == n % 0x1_0000_0000
      && b[11..n + 11] == f.payload
      && b[n + 11] as int * 0x100_0000 + b[n + 12] as int * 0x1_0000 + b[n + 13] as int * 0x100 + b[n + 14]
           == Checksum(f.payload)
  {
    hide Checksum, BigEndian32, BigEndian16;
    var b, n := FrameBytes(f), |f.payload|;
    BigEndianValue(n % 0x1_0000_0000, PROTOCOL_VERSION);
    BigEndianValue(Checksum(f.payload), PROTOCOL_VERSION);
    assert BigEndian16(PROTOCOL_VERSION) == [0, 1] by { BigEndian16RoundTrip(PROTOCOL_VERSION, [0, 1]); }
    assert b[7..11] == BigEndian32(n % 0x1_0000_0000) && b[n + 11..n + 15] == BigEndian32(Checksum(f.payload));
  }

  predicate Sendable(f: RawFrame, maxSize: nat) {
    KnownType(f.payloadType) && |f.payload| <= MAX_PAYLOAD_SIZE && |f.payload| <= maxSize
  }

  /** Build a frame the way serialize_mdoc, serialize_doc, serialize_batch and write_frame do. */
  method Serialize(payloadType: Byte, payload: seq<Byte>) returns (buf: seq<Byte>)
    ensures buf == FrameBytes(RawFrame(payloadType, payload))
  {
    var header := ToBytes(NewHeader(payloadType, |payload| % 0x1_0000_0000));
    var checksum := CalculateChecksum(payload);
    buf := header[..];
    buf := buf + payload;
    buf := buf + BigEndian32(checksum);
  }

  datatype Parsed = Frame(frame: RawFrame, rest: seq<Byte>) | Failed(error: BinaryError)

  /** What read_frame makes of the bytes that are still to come. */
  function ParseFrame(s: seq<Byte>, maxSize: nat): Parsed {
    if |s| < HEADER_SIZE then Failed(IoError(StreamEnded))
    else match FromBytes(s[..HEADER_SIZE])
      case Err(e) => Failed(e)
      case Ok(h) =>
        var end := HEADER_SIZE + h.length;
        if h.length > maxSize then Failed(PayloadTooLarge(h.length))
        else if |s| < end + 4 then Failed(IoError(StreamEnded))
        else
          var payload, received := s[HEADER_SIZE..end], FromBigEndian32(s[end..end + 4]);
          if received != Checksum(payload) then Failed(ChecksumMismatch(received, Checksum(payload)))
          else Frame(RawFrame(h.payloadType, payload), s[end + 4..])
  }

  /** A frame followed by anything, taken apart. */
  lemma FrameLayout(f: RawFrame, rest: seq<Byte>)
    ensures var s, end := FrameBytes(f) + rest, HEADER_SIZE + |f.payload|;
      && s[..HEADER_SIZE] == HeaderBytes(NewHeader(f.payloadType, |f.payload| % 0x1_0000_0000))
      && s[HEADER_SIZE..end] == f.payload
      && s[end..end + 4] == BigEndian32(Checksum(f.payload))
      && s[end + 4..] == rest
  {}

  /** With an accepted header in front, only the length and the trailer can still be wrong. */
  lemma ParseAfterHeader(s: seq<Byte>, maxSize: nat, t: Byte, n: nat)
    requires KnownType(t) && n <= MAX_PAYLOAD_SIZE && n <= maxSize && |s| >= HEADER_SIZE
    requires s[..HEADER_SIZE] == HeaderBytes(NewHeader(t, n))
    ensures ParseFrame(s, maxSize) ==
      var end := HEADER_SIZE + n;
      if |s| < end + 4 then Failed(IoError(StreamEnded))
      else if s[end..end + 4] != BigEndian32(Checksum(s[HEADER_SIZE..end])) then
        Failed(ChecksumMismatch(FromBigEndian32(s[end..end + 4]), Checksum(s[HEADER_SIZE..end])))
      else Frame(RawFrame(t, s[HEADER_SIZE..end]), s[end + 4..])
  {
    HeaderCodec(s[..HEADER_SIZE], NewHeader(t, n));
    var end := HEADER_SIZE + n;
    if |s| >= end + 4 {
      BigEndian32RoundTrip(Checksum(s[HEADER_SIZE..end]), s[end..end + 4]);
    }
  }

  /** What the reader makes of a written frame of any size, cut-off lengths included. */
  lemma WrittenFrame(f: RawFrame, rest: seq<Byte>, maxSize: nat)
    requires KnownType(f.payloadType)
    ensures ParseFrame(FrameBytes(f) + rest, maxSize) ==
      var k := |f.payload| % 0x1_0000_0000;
      if k > MAX_PAYLOAD_SIZE || k > maxSize then Failed(PayloadTooLarge(k))
      else if k == |f.payload| then Frame(f, rest)
      else
        var stored, computed := FromBigEndian32(f.payload[k..k + 4]), Checksum(f.payload[..k]);
        if stored != computed then Failed(ChecksumMismatch(stored, computed))
        else Frame(RawFrame(f.payloadType, f.payload[..k]),
                   f.payload[k + 4..] + BigEndian32(Checksum(f.payload)) + rest)
  {
    hide Checksum, HeaderBytes, BigEndian32, FromBigEndian32, FromBytes;
    var k, s := |f.payload| % 0x1_0000_0000, FrameBytes(f) + rest;
    FrameLayout(f, rest);
    HeaderErrors(NewHeader(f.payloadType, k));
    if k <= MAX_PAYLOAD_SIZE && k <= maxSize {
      var end := HEADER_SIZE + k;
      if k < |f.payload| {
        assert s[HEADER_SIZE..end] == f.payload[..k] && s[end..end + 4] == f.payload[k..k + 4];
        assert s[end + 4..] == f.payload[k + 4..] + BigEndian32(Checksum(f.payload)) + rest;
      } else {
        BigEndian32RoundTrip(Checksum(f.payload), s[end..end + 4]);
      }
    }
  }

  lemma Reassemble(s: seq<Byte>, end: nat)
    requires HEADER_SIZE <= end && end + 4 <= |s|
    ensures s == s[..HEADER_SIZE] + s[HEADER_SIZE..end] + s[end..end + 4] + s[end + 4..]
  {}

  lemma ParsedWasWritten(s: seq<Byte>, maxSize: nat)
    requires ParseFrame(s, maxSize).Frame?
    ensures var p := ParseFrame(s, maxSize); Sendable(p.frame, maxSize) && s == FrameBytes(p.frame) + p.rest
  {
    hide Checksum, BigEndian32, HeaderBytes;
    var h := FromBytes(s[..HEADER_SIZE]).value;
    var end := HEADER_SIZE + h.length;
    HeaderCodec(s[..HEADER_SIZE], h);
    ParseAfterHeader(s, maxSize, h.payloadType, h.length);
    Reassemble(s, end);
  }

  /** The reader accepts a frame exactly when the writer produced it and it is of a sendable size. */
  lemma ParseInvertsWrite(s: seq<Byte>, maxSize: nat, f: RawFrame, rest: seq<Byte>)
    ensures ParseFrame(s, maxSize) == Frame(f, rest) <==> Sendable(f, maxSize) && s == FrameBytes(f) + rest
  {
    hide Checksum, BigEndian32, HeaderBytes, ParseFrame;
    if Sendable(f, maxSize) && s == FrameBytes(f) + rest {
      FrameLayout(f, rest);
      ParseAfterHeader(s, maxSize, f.payloadType, |f.payload|);
    }
    if ParseFrame(s, maxSize) == Frame(f, rest) {
      ParsedWasWritten(s, maxSize);
    }
  }

  /** No sendable frame is a proper prefix of another. */
  lemma FramesArePrefixFree(f: RawFrame, g: RawFrame, maxSize: nat)
    requires Sendable(f, maxSize) && Sendable(g, maxSize) && FrameBytes(f) <= FrameBytes(g)
    ensures f == g
  {
    var tail := FrameBytes(g)[|FrameBytes(f)|..];
    assert FrameBytes(g) == FrameBytes(f) + tail && FrameBytes(g) == FrameBytes(g) + [];
    ParseInvertsWrite(FrameBytes(g), maxSize, f, tail);
    ParseInvertsWrite(FrameBytes(g), maxSize, g, []);
  }

  /** A stream cut anywhere inside a frame reads as an I/O error. */
  lemma TruncatedFrame(f: RawFrame, maxSize: nat, n: nat)
    requires Sendable(f, maxSize) && n < |FrameBytes(f)|
    ensures ParseFrame(FrameBytes(f)[..n], maxSize) == Failed(IoError(StreamEnded))
  {
    hide Checksum, BigEndian32, HeaderBytes;
    if n >= HEADER_SIZE {
      assert FrameBytes(f)[..n][..HEADER_SIZE] == HeaderBytes(NewHeader(f.payloadType, |f.payload|));
      ParseAfterHeader(FrameBytes(f)[..n], maxSize, f.payloadType, |f.payload|);
    }
  }

  // ---- sequences of frames ----

  function FramesBytes(fs: seq<RawFrame>): seq<Byte> {
    if fs == [] then [] else FrameBytes(fs[0]) + FramesBytes(fs[1..])
  }

  /** The frames that can be read before the stream fails. */
  function ParseFrames(s: seq<Byte>, maxSize: nat): (fs: seq<RawFrame>)
    decreases |s|
  {
    match ParseFrame(s, maxSize)
    case Failed(_) => []
    case Frame(f, rest) => [f] + ParseFrames(rest, maxSize)
  }

  /** What is left of the stream when reading fails. */
  function Unparsed(s: seq<Byte>, maxSize: nat): (u: seq<Byte>)
    ensures ParseFrame(u, maxSize).Failed?
    decreases |s|
  {
    match ParseFrame(s, maxSize)
    case Failed(_) => s
    case Frame(_, rest) => Unparsed(rest, maxSize)
  }

  lemma {:induction false} StreamSplits(s: seq<Byte>, maxSize: nat)
    ensures s == FramesBytes(ParseFrames(s, maxSize)) + Unparsed(s, maxSize)
    ensures forall f :: f in ParseFrames(s, maxSize) ==> Sendable(f, maxSize)
    decreases |s|
  {
    match ParseFrame(s, maxSize)
    case Failed(_) =>
    case Frame(f, rest) =>
      ParseInvertsWrite(s, maxSize, f, rest);
      StreamSplits(rest, maxSize);
      assert ParseFrames(s, maxSize)[1..] == ParseFrames(rest, maxSize);
  }

  lemma {:induction false} WrittenFramesAreRead(fs: seq<RawFrame>, tail: seq<Byte>, maxSize: nat)
    requires forall f :: f in fs ==> Sendable(f, maxSize)
    ensures ParseFrames(FramesBytes(fs) + tail, maxSize) == fs + ParseFrames(tail, maxSize)
    ensures Unparsed(FramesBytes(fs) + tail, maxSize) == Unparsed(tail, maxSize)
  {
    hide FrameBytes, ParseFrame;
    if fs == [] {
      assert FramesBytes(fs) + tail == tail;
    } else {
      var more := FramesBytes(fs[1..]) + tail;
      assert FramesBytes(fs) + tail == FrameBytes(fs[0]) + more;
      ParseInvertsWrite(FramesBytes(fs) + tail, maxSize, fs[0], more);
      WrittenFramesAreRead(fs[1..], tail, maxSize);
    }
  }

  /** Any stream splits in just one way into sendable frames and a tail that does not start with one. */
  lemma StreamsSplitUniquely(s: seq<Byte>, maxSize: nat, fs: seq<RawFrame>, tail: seq<Byte>)
    ensures ParseFrames(s, maxSize) == fs && Unparsed(s, maxSize) == tail
      <==> s == FramesBytes(fs) + tail && (forall f :: f in fs ==> Sendable(f, maxSize))
           && ParseFrame(tail, maxSize).Failed?
  {
    StreamSplits(s, maxSize);
    if s == FramesBytes(fs) + tail && (forall f :: f in fs ==> Sendable(f, maxSize))
       && ParseFrame(tail, maxSize).Failed?
    {
      WrittenFramesAreRead(fs, tail, maxSize);
    }
  }

  // ---- damage ----

  /** The bytes of f with another payload and another trailer put in. */
  function Tampered(f: RawFrame, payload: seq<Byte>, trailer: Word): seq<Byte> {
    FrameBytes(f)[..HEADER_SIZE] + payload + BigEndian32(trailer)
  }

  lemma TamperedFrame(f: RawFrame, maxSize: nat, payload: seq<Byte>, trailer: Word, rest: seq<Byte>)
    requires Sendable(f, maxSize) && |payload| == |f.payload|
    ensures ParseFrame(Tampered(f, payload, trailer) + rest, maxSize) ==
      if trailer == Checksum(payload) then Frame(RawFrame(f.payloadType, payload), rest)
      else Failed(ChecksumMismatch(trailer, Checksum(payload)))
  {
    hide Checksum, BigEndian32, ParseFrame;
    var end := HEADER_SIZE + |payload|;
    var s := Tampered(f, payload, trailer) + rest;
    assert s[..HEADER_SIZE] == HeaderBytes(NewHeader(f.payloadType, |f.payload|));
    assert s[HEADER_SIZE..end] == payload && s[end..end + 4] == BigEndian32(trailer) && s[end + 4..] == rest;
    ParseAfterHeader(s, maxSize, f.payloadType, |f.payload|);
    BigEndian32RoundTrip(trailer, BigEndian32(trailer));
    BigEndian32RoundTrip(Checksum(payload), BigEndian32(trailer));
  }

  /** A payload damaged within 32 consecutive bits is refused, as is any damage to the trailer alone. */
  lemma DamageIsRefused(f: RawFrame, maxSize: nat, payload: seq<Byte>, trailer: Word, bit: nat, rest: seq<Byte>)
    requires Sendable(f, maxSize) && |payload| == |f.payload|
    requires
      || (payload == f.payload && trailer != Checksum(f.payload))
      || (payload != f.payload && trailer == Checksum(f.payload)
          && DifferOnlyWithin(MessageBits(f.payload), MessageBits(payload), bit, 32))
    ensures ParseFrame(Tampered(f, payload, trailer) + rest, maxSize)
         == Failed(ChecksumMismatch(trailer, Checksum(payload)))
  {
    TamperedFrame(f, maxSize, payload, trailer, rest);
    if payload != f.payload { BurstIsDetected(f.payload, payload, bit); }
  }

  // ---- one-shot deserialization ----

  /** deserialize_mdoc, deserialize_doc and deserialize_batch up to the JSON decoder: only the length
      of an empty frame is checked before the payload is sliced out. */
  function DeserializePayload(expected: Byte, data: seq<Byte>): Outcome<seq<Byte>> {
    if |data| < HEADER_SIZE + 4 then Returned(Err(DeserializationError("data too short")))
    else match FromBytes(data[..HEADER_SIZE])
      case Err(e) => Returned(Err(e))
      case Ok(h) =>
        var end := HEADER_SIZE + h.length;
        if h.payloadType != expected then Returned(Err(InvalidType(h.payloadType)))
        else if |data| < end + 4 then Panicked
        else
          var payload, stored := data[HEADER_SIZE..end], FromBigEndian32(data[end..end + 4]);
          if stored != Checksum(payload) then Returned(Err(ChecksumMismatch(stored, Checksum(payload))))
          else Returned(Ok(payload))
  }

  /** With a well-formed header of the expected type in front, the length and the trailer decide. */
  lemma DeserializeAfterHeader(t: Byte, data: seq<Byte>, n: Word)
    requires KnownType(t) && |data| >= HEADER_SIZE + 4 && data[..HEADER_SIZE] == HeaderBytes(NewHeader(t, n))
    ensures DeserializePayload(t, data) ==
      var end := HEADER_SIZE + n;
      if n > MAX_PAYLOAD_SIZE then Returned(Err(PayloadTooLarge(n)))
      else if |data| < end + 4 then Panicked
      else
        var stored, computed := FromBigEndian32(data[end..end + 4]), Checksum(data[HEADER_SIZE..end]);
        Returned(if stored == computed then Ok(data[HEADER_SIZE..end]) else Err(ChecksumMismatch(stored, computed)))
  {
    hide Checksum, HeaderBytes, FromBigEndian32, FromBytes;
    HeaderErrors(NewHeader(t, n));
  }

  /** The same damage makes deserialization fail with the same error. */
  lemma DamageIsNotDeserialized(f: RawFrame, payload: seq<Byte>, trailer: Word, bit: nat, rest: seq<Byte>)
    requires Sendable(f, MAX_PAYLOAD_SIZE) && |payload| == |f.payload|
    requires
      || (payload == f.payload && trailer != Checksum(f.payload))
      || (payload != f.payload && trailer == Checksum(f.payload)
          && DifferOnlyWithin(MessageBits(f.payload), MessageBits(payload), bit, 32))
    ensures DeserializePayload(f.payloadType, Tampered(f, payload, trailer) + rest)
         == Returned(Err(ChecksumMismatch(trailer, Checksum(payload))))
  {
    hide Checksum, BigEndian32, FromBigEndian32, HeaderBytes, DeserializePayload, MessageBits, DifferOnlyWithin;
    var end := HEADER_SIZE + |payload|;
    var data := Tampered(f, payload, trailer) + rest;
    assert data[..HEADER_SIZE] == HeaderBytes(NewHeader(f.payloadType, |f.payload|));
    assert data[HEADER_SIZE..end] == payload && data[end..end + 4] == BigEndian32(trailer);
    DeserializeAfterHeader(f.payloadType, data, |payload|);
    BigEndian32RoundTrip(trailer, BigEndian32(trailer));
    if payload != f.payload { BurstIsDetected(f.payload, payload, bit); }
  }

  /** Apart from the type check and a short buffer, deserialization is reading one frame. */
  lemma DeserializeIsParse(t: Byte, data: seq<Byte>)
    ensures match ParseFrame(data, MAX_PAYLOAD_SIZE)
      case Frame(f, _) =>
        DeserializePayload(t, data) == Returned(
          if f.payloadType == t then Ok(f.payload) else Err(InvalidType(f.payloadType)))
      case Failed(e) =>
        !(exists p :: DeserializePayload(t, data) == Returned(Ok(p)))
  {}

  /** Exactly the frames of the expected type deserialize; bytes after the frame are ignored. */
  lemma DeserializeInvertsSerialize(t: Byte, data: seq<Byte>, payload: seq<Byte>)
    ensures DeserializePayload(t, data) == Returned(Ok(payload)) <==>
      Sendable(RawFrame(t, payload), MAX_PAYLOAD_SIZE)
      && exists rest :: data == FrameBytes(RawFrame(t, payload)) + rest
  {
    hide DeserializePayload, ParseFrame, FrameBytes;
    DeserializeIsParse(t, data);
    if ParseFrame(data, MAX_PAYLOAD_SIZE).Frame? {
      ParsedWasWritten(data, MAX_PAYLOAD_SIZE);
    }
    if rest :| data == FrameBytes(RawFrame(t, payload)) + rest {
      ParseInvertsWrite(data, MAX_PAYLOAD_SIZE, RawFrame(t, payload), rest);
    }
  }

  /** The slice fails exactly when an acceptable header of the expected type declares more than is there. */
  lemma DeserializePanics(t: Byte, data: seq<Byte>)
    ensures DeserializePayload(t, data).Panicked? <==>
      |data| >= HEADER_SIZE + 4
      && exists h :: Accepted(h) && h.payloadType == t && data[..HEADER_SIZE] == HeaderBytes(h)
                     && |data| < HEADER_SIZE + h.length + 4
  {
    if |data| >= HEADER_SIZE {
      var r := FromBytes(data[..HEADER_SIZE]);
      if r.Ok? { HeaderCodec(data[..HEADER_SIZE], r.value); }
      forall h | Accepted(h) && data[..HEADER_SIZE] == HeaderBytes(h) ensures r == Ok(h) {
        HeaderCodec(data[..HEADER_SIZE], h);
      }
    }
  }

  function DeserializeValue<V>(decode: seq<Byte> -> Option<V>, t: Byte, data: seq<Byte>): Outcome<V> {
    match DeserializePayload(t, data)
    case Panicked => Panicked
    case Returned(Err(e)) => Returned(Err(e))
    case Returned(Ok(payload)) =>
      match decode(payload)
      case Some(v) => Returned(Ok(v))
      case None => Returned(Err(DeserializationError("malformed payload")))
  }

  /** What becomes of a serialized payload of any size: over 10 MiB it is refused, unless its length,
      cut to 32 bits, comes out small. Then a prefix is read, if its checksum happens to follow it. */
  lemma SerializedPayload(t: Byte, payload: seq<Byte>)
    requires KnownType(t)
    ensures DeserializePayload(t, FrameBytes(RawFrame(t, payload))) ==
      var k := |payload| % 0x1_0000_0000;
      if k > MAX_PAYLOAD_SIZE then Returned(Err(PayloadTooLarge(k)))
      else if k == |payload| then Returned(Ok(payload))
      else
        var stored, computed := FromBigEndian32(payload[k..k + 4]), Checksum(payload[..k]);
        Returned(if stored == computed then Ok(payload[..k]) else Err(ChecksumMismatch(stored, computed)))
  {
    hide Checksum, HeaderBytes, BigEndian32, FromBigEndian32, FromBytes, DeserializePayload;
    var k, data := |payload| % 0x1_0000_0000, FrameBytes(RawFrame(t, payload));
    FrameLayout(RawFrame(t, payload), []);
    assert data + [] == data;
    HeaderErrors(NewHeader(t, k));
    DeserializeAfterHeader(t, data, k);
    if k <= MAX_PAYLOAD_SIZE {
      if k < |payload| {
        assert data[HEADER_SIZE..HEADER_SIZE + k] == payload[..k];
        assert data[HEADER_SIZE + k..HEADER_SIZE + k + 4] == payload[k..k + 4];
      } else {
        BigEndian32RoundTrip(Checksum(payload), data[HEADER_SIZE + k..HEADER_SIZE + k + 4]);
      }
    }
  }

  /** With a JSON codec that inverts itself, and in which no proper prefix of an encoding stands for
      the same value, a value survives serialization exactly when its encoding fits the payload limit. */
  lemma ValueRoundTrip<V>(encode: V -> seq<Byte>, decode: seq<Byte> -> Option<V>, v: V, t: Byte)
    requires decode(encode(v)) == Some(v) && KnownType(t)
    requires forall k :: 0 <= k < |encode(v)| ==> decode(encode(v)[..k]) != Some(v)
    ensures DeserializeValue(decode, t, FrameBytes(RawFrame(t, encode(v)))) == Returned(Ok(v))
      <==> |encode(v)| <= MAX_PAYLOAD_SIZE
  {
    hide Checksum, FrameBytes, FromBigEndian32, DeserializePayload;
    SerializedPayload(t, encode(v));
  }
}
