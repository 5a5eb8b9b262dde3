/** The streaming reader that hands out a payload in chunks. */
module ChunkReader {
  import opened Wrappers
  import opened Words
  import opened Crc32
  import opened Wire

  // ---- the reader as a value ----

  datatype Reader = Reader(header: BinaryHeader, data: seq<Byte>, position: nat, checksumValidated: bool) {
    function End(): nat { HEADER_SIZE + header.length }

    /** Whether the buffer holds the payload and the trailer that the header declares. */
    predicate Whole() { End() + 4 <= |data| }

    predicate Valid() { HEADER_SIZE <= position <= End() && position <= |data| }

    predicate Complete() { position >= End() }

    /** What is still to be handed out. */
    function Remaining(): seq<Byte>
      requires Valid() && Whole()
    {
      data[position..End()]
    }

    predicate TrailerMatches()
      requires Whole()
    {
      data[End()..End() + 4] == BigEndian32(Checksum(data[HEADER_SIZE..End()]))
    }
  }

  function Opened(data: seq<Byte>): Result<Reader, BinaryError> {
    if |data| < HEADER_SIZE + 4 then Err(DeserializationError("data too short"))
    else match FromBytes(data[..HEADER_SIZE])
      case Err(e) => Err(e)
      case Ok(h) => Ok(Reader(h, data, HEADER_SIZE, false))
  }

  datatype Answer = Chunk(bytes: seq<Byte>) | Verdict(ok: bool) | SliceFailed

  datatype Call = ReadChunk(maxBytes: nat) | ValidateChecksum

  /** The reader after a call, and what the call returned. A failed slice leaves the reader as it was. */
  function Answered(r: Reader, c: Call): (Reader, Answer)
    requires r.Valid()
  {
    match c
    case ReadChunk(maxBytes) =>
      var remaining := r.End() - r.position;
      var toRead := if maxBytes < remaining then maxBytes else remaining;
      if toRead == 0 then (r, Chunk([]))
      else if |r.data| < r.position + toRead then (r, SliceFailed)
      else (r.(position := r.position + toRead), Chunk(r.data[r.position..r.position + toRead]))
    case ValidateChecksum =>
      if r.checksumValidated then (r, Verdict(true))
      else if !r.Whole() then (r, SliceFailed)
      else
        var stored := FromBigEndian32(r.data[r.End()..r.End() + 4]);
        (r.(checksumValidated := true), Verdict(stored == Checksum(r.data[HEADER_SIZE..r.End()])))
  }

  // ---- the reader as the source has it ----

  class BinaryStreamReader {
    const header: BinaryHeader
    const data: seq<Byte>
    var position: nat
    var checksumValidated: bool

    function State(): Reader
      reads this
    {
      Reader(header, data, position, checksumValidated)
    }

    constructor (header: BinaryHeader, data: seq<Byte>)
      ensures State() == Reader(header, data, HEADER_SIZE, false)
    {
      this.header, this.data := header, data;
      position, checksumValidated := HEADER_SIZE, false;
    }

    static method New(data: seq<Byte>) returns (r: Result<BinaryStreamReader, BinaryError>)
      ensures r.Err? <==> Opened(data).Err?
      ensures r.Err? ==> r.error == Opened(data).error
      ensures r.Ok? ==> fresh(r.value) && r.value.State() == Opened(data).value
    {
      if |data| < HEADER_SIZE + 4 {
        return Err(DeserializationError("data too short"));
      }
      match FromBytes(data[..HEADER_SIZE]) {
        case Err(e) => r := Err(e);
        case Ok(h) =>
          var reader := new BinaryStreamReader(h, data);
          r := Ok(reader);
      }
    }

    method ReadChunk(maxBytes: nat) returns (a: Answer)
      requires State().Valid()
      modifies this
      ensures (State(), a) == Answered(old(State()), Call.ReadChunk(maxBytes))
      ensures State().Valid()
    {
      var payloadEnd := HEADER_SIZE + header.length;
      var remaining := if payloadEnd < position then 0 else payloadEnd - position;
      var toRead := if maxBytes < remaining then maxBytes else remaining;
      if toRead == 0 {
        return Chunk([]);
      }
      if |data| < position + toRead {
        return SliceFailed;
      }
      a := Chunk(data[position..position + toRead]);
      position := position + toRead;
    }

    method ValidateChecksum() returns (a: Answer)
      requires State().Valid()
      modifies this
      ensures (State(), a) == Answered(old(State()), Call.ValidateChecksum)
      ensures State().Valid()
    {
      if checksumValidated {
        return Verdict(true);
      }
      var payloadEnd := HEADER_SIZE + header.length;
      if |data| < payloadEnd + 4 {
        return SliceFailed;
      }
      var expected := FromBigEndian32(data[payloadEnd..payloadEnd + 4]);
      var actual := CalculateChecksum(data[HEADER_SIZE..payloadEnd]);
      checksumValidated := true;
      a := Verdict(expected == actual);
    }

    method IsComplete() returns (b: bool)
      ensures b == State().Complete()
    {
      b := position >= HEADER_SIZE + header.length;
    }
  }

  // ---- runs ----

  /** The reader after a sequence of calls. */
  function After(r: Reader, calls: seq<Call>): (r': Reader)
    requires r.Valid()
    ensures r'.Valid() && r'.header == r.header && r'.data == r.data && r'.position >= r.position
    decreases calls
  {
    if calls == [] then r else After(Answered(r, calls[0]).0, calls[1..])
  }

  /** Everything that the chunks of a sequence of calls contained, in order. */
  function Delivered(r: Reader, calls: seq<Call>): seq<Byte>
    requires r.Valid()
    decreases calls
  {
    if calls == [] then []
    else
      var (r', a) := Answered(r, calls[0]);
      (if a.Chunk? then a.bytes else []) + Delivered(r', calls[1..])
  }

  function Verdicts(r: Reader, calls: seq<Call>): seq<bool>
    requires r.Valid()
    decreases calls
  {
    if calls == [] then []
    else
      var (r', a) := Answered(r, calls[0]);
      (if a.Verdict? then [a.ok] else []) + Verdicts(r', calls[1..])
  }

  /** Whatever sizes are asked for, the chunks join up to exactly the bytes passed over. */
  lemma {:induction false} ChunksJoin(r: Reader, calls: seq<Call>)
    requires r.Valid()
    ensures Delivered(r, calls) == r.data[r.position..After(r, calls).position]
    decreases calls
  {
    hide Checksum, FromBigEndian32;
    if calls != [] {
      var (r', a) := Answered(r, calls[0]);
      ChunksJoin(r', calls[1..]);
    }
  }

  /** From a whole buffer the chunks join up to a prefix of the payload, and the reader is complete
      exactly when they are the whole payload. */
  lemma ChunksArePayloadPrefix(r: Reader, calls: seq<Call>)
    requires r.Valid() && r.Whole()
    ensures Delivered(r, calls) <= r.Remaining()
    ensures After(r, calls).Complete() <==> Delivered(r, calls) == r.Remaining()
  {
    ChunksJoin(r, calls);
    assert r.data[r.position..After(r, calls).position] == r.Remaining()[..After(r, calls).position - r.position];
  }

  /** The first verdict is whether the trailer is the checksum of the payload, whatever was read
      before; every later verdict is true. */
  lemma {:induction false} FirstVerdictCounts(r: Reader, calls: seq<Call>)
    requires r.Valid() && r.Whole()
    ensures forall i :: 0 <= i < |Verdicts(r, calls)| ==>
      Verdicts(r, calls)[i] == (if i == 0 && !r.checksumValidated then r.TrailerMatches() else true)
    decreases calls
  {
    hide Checksum, FromBigEndian32, BigEndian32;
    if calls != [] {
      var (r', a) := Answered(r, calls[0]);
      FirstVerdictCounts(r', calls[1..]);
      BigEndian32RoundTrip(Checksum(r.data[HEADER_SIZE..r.End()]), r.data[r.End()..r.End() + 4]);
    }
  }

  /** Some call slices out of bounds. */
  predicate Fails(r: Reader, calls: seq<Call>)
    requires r.Valid()
    decreases calls
  {
    calls != [] && (Answered(r, calls[0]).1.SliceFailed? || Fails(Answered(r, calls[0]).0, calls[1..]))
  }

  /** How many bytes the calls ask for. */
  function Asked(calls: seq<Call>): nat
    decreases calls
  {
    if calls == [] then 0 else (if calls[0].ReadChunk? then calls[0].maxBytes else 0) + Asked(calls[1..])
  }

  /** A run of calls slices out of bounds exactly when the buffer ends before the payload and more is
      asked for than is left in the buffer, or when the checksum is to be validated for the first time
      and the payload or its trailer is not all there. */
  lemma {:induction false} WhenRunsFail(r: Reader, calls: seq<Call>)
    requires r.Valid()
    ensures Fails(r, calls) <==>
      || (|r.data| < r.End() && r.position + Asked(calls) > |r.data|)
      || (!r.checksumValidated && !r.Whole() && exists c :: c in calls && c.ValidateChecksum?)
    decreases calls
  {
    hide Checksum, FromBigEndian32;
    if calls != [] {
      var (r', a) := Answered(r, calls[0]);
      assert forall c :: c in calls <==> c == calls[0] || c in calls[1..];
      if !a.SliceFailed? || calls[0].ReadChunk? { WhenRunsFail(r', calls[1..]); }
    }
  }

  function Repeat(k: nat, n: nat): (calls: seq<Call>) {
    if n == 0 then [] else [ReadChunk(k)] + Repeat(k, n - 1)
  }

  /** Chunks of k bytes finish a payload in ceil(length / k) calls and not before. */
  lemma CallsNeeded(r: Reader, k: nat, n: nat)
    requires r.Valid() && r.Whole() && k > 0
    ensures After(r, Repeat(k, n)).Complete() <==> n * k >= |r.Remaining()|
    ensures After(r, Repeat(k, n)).Complete() <==> n >= (|r.Remaining()| + k - 1) / k
  {
    FixedSizePosition(r, k, n);
    CeilingDivision(n, |r.Remaining()|, k);
  }

  lemma {:induction false} FixedSizePosition(r: Reader, k: nat, n: nat)
    requires r.Valid() && r.Whole() && k > 0
    ensures After(r, Repeat(k, n)).position ==
      if n * k < |r.Remaining()| then r.position + n * k else r.End()
    decreases n
  {
    if n > 0 {
      var r' := Answered(r, ReadChunk(k)).0;
      assert Repeat(k, n)[1..] == Repeat(k, n - 1);
      FixedSizePosition(r', k, n - 1);
      Distribute(n - 1, 1, k);
    }
  }

  lemma Distribute(a: nat, b: nat, k: nat)
    ensures (a + b) * k == a * k + b * k
    ensures a * k >= 0
  {}

  lemma CeilingDivision(n: nat, m: nat, k: nat)
    requires k > 0
    ensures n * k >= m <==> n >= (m + k - 1) / k
  {
    var c := (m + k - 1) / k;
    var rest := (m + k - 1) % k;
    assert m + k - 1 == c * k + rest;
    if n >= c {
      Distribute(c, n - c, k);
    } else {
      Distribute(n + 1, c - n - 1, k);
      Distribute(n, 1, k);
    }
  }

  /** A reader opened on a sendable frame hands out its payload and confirms its checksum. */
  lemma ReaderInvertsSerialize(f: RawFrame, rest: seq<Byte>, calls: seq<Call>)
    requires Sendable(f, MAX_PAYLOAD_SIZE)
    ensures var data := FrameBytes(f) + rest;
      && Opened(data).Ok?
      && var r := Opened(data).value;
      && r.Valid() && r.Whole() && r.Remaining() == f.payload && r.TrailerMatches()
      && Delivered(r, calls) <= f.payload
      && (After(r, calls).Complete() <==> Delivered(r, calls) == f.payload)
      && forall b :: b in Verdicts(r, calls) ==> b
  {
    hide Checksum, BigEndian32, HeaderBytes, FromBytes, Answered;
    FrameLayout(f, rest);
    HeaderCodec((FrameBytes(f) + rest)[..HEADER_SIZE], NewHeader(f.payloadType, |f.payload|));
    var r := Opened(FrameBytes(f) + rest).value;
    ChunksArePayloadPrefix(r, calls);
    FirstVerdictCounts(r, calls);
  }
}
