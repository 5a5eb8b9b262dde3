/** The TCP server: connections interleaved in any order over one shared registry. */
module Server {
  import opened Wrappers
  import opened Text
  import opened Words
  import opened Wire
  import opened Transport
  import opened Resolver

  /** The JSON codec and the error texts, of which the server uses nothing but the results. */
  datatype Codec<!C> = Codec(
    decodeRequest: seq<Byte> -> Option<string>,
    handshakeReply: (string, int) -> seq<Byte>,
    encodeCoreFile: C -> seq<Byte>,
    errorText: BinaryError -> seq<Byte>)

  datatype Config<!C> = Config(codec: Codec<C>, lower: Lowercase, maxSize: nat)

  predicate Supported(t: Byte) {
    t == TYPE_HANDSHAKE || t == TYPE_RESOLVE_OPT
  }

  // ---- one request ----

  function HandleHandshake<C>(codec: Codec<C>, payload: seq<Byte>, now: int): Result<RawFrame, BinaryError> {
    match codec.decodeRequest(payload)
    case None => Err(DeserializationError("invalid request"))
    case Some(domain) => Ok(RawFrame(TYPE_HANDSHAKE, codec.handshakeReply(domain, now)))
  }

  /** The registry operation that a request performs, if any. */
  function OperationOf<C>(codec: Codec<C>, f: RawFrame): Option<Op<C>> {
    if f.payloadType != TYPE_RESOLVE_OPT then None
    else match codec.decodeRequest(f.payload)
      case None => None
      case Some(domain) => Some(Resolve(domain))
  }

  function HandleResolve<C>(cfg: Config<C>, reg: Registry<C>, payload: seq<Byte>, now: int)
    : Result<RawFrame, BinaryError>
  {
    match cfg.codec.decodeRequest(payload)
    case None => Err(DeserializationError("invalid request"))
    case Some(domain) =>
      match Apply(cfg.lower, reg, Resolve(domain), now).1
      case Found(coreFile) => Ok(RawFrame(TYPE_CORE_FILE, cfg.codec.encodeCoreFile(coreFile)))
      case _ => Err(IoError(ResolverRefused(".opt domain not found: " + Normalize(cfg.lower, domain))))
  }

  function Respond<C>(cfg: Config<C>, reg: Registry<C>, f: RawFrame, now: int): Result<RawFrame, BinaryError> {
    if f.payloadType == TYPE_HANDSHAKE then HandleHandshake(cfg.codec, f.payload, now)
    else if f.payloadType == TYPE_RESOLVE_OPT then HandleResolve(cfg, reg, f.payload, now)
    else Err(InvalidType(f.payloadType))
  }

  function ReplyFrame<C>(codec: Codec<C>, response: Result<RawFrame, BinaryError>): RawFrame {
    match response
    case Ok(reply) => reply
    case Err(e) => RawFrame(TYPE_ERROR, codec.errorText(e))
  }

  function ReplyTo<C>(cfg: Config<C>, reg: Registry<C>, f: RawFrame, now: int): RawFrame {
    ReplyFrame(cfg.codec, Respond(cfg, reg, f, now))
  }

  /** The connection ends after the reply exactly when the request type is not supported. */
  predicate Ends<C>(cfg: Config<C>, reg: Registry<C>, f: RawFrame, now: int) {
    var r := Respond(cfg, reg, f, now);
    r.Err? && r.error.InvalidType?
  }

  lemma EndsIffUnsupported<C>(cfg: Config<C>, reg: Registry<C>, f: RawFrame, now: int)
    ensures Ends(cfg, reg, f, now) <==> !Supported(f.payloadType)
    ensures Ends(cfg, reg, f, now) ==> ReplyTo(cfg, reg, f, now).payloadType == TYPE_ERROR
  {}

  /** The replies by the type of the request, and whether it is the last one. */
  lemma ReplyByType<C>(cfg: Config<C>, reg: Registry<C>, f: RawFrame, now: int)
    ensures Ends(cfg, reg, f, now) <==> f.payloadType !in {0x10, 0x11}
    ensures var reply, request := ReplyTo(cfg, reg, f, now), cfg.codec.decodeRequest(f.payload);
      var errorText := cfg.codec.errorText;
      match f.payloadType
      case 0x10 =>
        reply == (match request
          case Some(domain) => RawFrame(0x10, cfg.codec.handshakeReply(domain, now))
          case None => RawFrame(0xFF, errorText(DeserializationError("invalid request"))))
      case 0x11 =>
        reply == (match request
          case Some(domain) =>
            var key := cfg.lower(Trim(domain));
            if key in reg then RawFrame(0x12, cfg.codec.encodeCoreFile(reg[key].coreFile))
            else RawFrame(0xFF, errorText(IoError(ResolverRefused(".opt domain not found: " + key))))
          case None => RawFrame(0xFF, errorText(DeserializationError("invalid request"))))
      case t => reply == RawFrame(0xFF, errorText(InvalidType(t)))
    ensures OperationOf(cfg.codec, f) == match cfg.codec.decodeRequest(f.payload)
      case Some(domain) => if f.payloadType == 0x11 then Some(Resolve(domain)) else None
      case None => None
  {
    hide Trim;
  }

  // ---- the server's history ----

  /** What happened to the registry, in the order in which its lock was held. */
  datatype Event<+C> = Request(conn: nat, frame: RawFrame, now: int) | Other(op: Op<C>, now: int)

  function Operations<C>(cfg: Config<C>, log: seq<Event<C>>): seq<Timed<C>> {
    if log == [] then []
    else
      var before, last := Operations(cfg, log[..|log| - 1]), log[|log| - 1];
      match last
      case Other(op, now) => before + [Timed(op, now)]
      case Request(_, f, now) =>
        match OperationOf(cfg.codec, f)
        case None => before
        case Some(op) => before + [Timed(op, now)]
  }

  /** The registry after the logged events, taken one after the other. */
  function RegistryAfter<C>(cfg: Config<C>, reg: Registry<C>, log: seq<Event<C>>): Registry<C> {
    Run(cfg.lower, reg, Operations(cfg, log))
  }

  /** The requests of one connection. */
  function Requests<C>(log: seq<Event<C>>, c: nat): seq<RawFrame> {
    if log == [] then []
    else
      var last := log[|log| - 1];
      Requests(log[..|log| - 1], c) + if last.Request? && last.conn == c then [last.frame] else []
  }

  /** The replies a server would give that took the logged requests one after the other: reply i
      answers request i, in the registry as it was at that moment. */
  function Replies<C>(cfg: Config<C>, reg: Registry<C>, log: seq<Event<C>>, c: nat): (r: seq<RawFrame>)
    ensures |r| == |Requests(log, c)|
  {
    if log == [] then []
    else
      var init, last := log[..|log| - 1], log[|log| - 1];
      Replies(cfg, reg, init, c)
      + if last.Request? && last.conn == c
        then [ReplyTo(cfg, RegistryAfter(cfg, reg, init), last.frame, last.now)] else []
  }

  lemma RequestStep<C>(cfg: Config<C>, reg: Registry<C>, log: seq<Event<C>>, e: Event<C>, c: nat)
    ensures Requests(log + [e], c) == Requests(log, c) + (if e.Request? && e.conn == c then [e.frame] else [])
    ensures Replies(cfg, reg, log + [e], c) == Replies(cfg, reg, log, c)
      + (if e.Request? && e.conn == c then [ReplyTo(cfg, RegistryAfter(cfg, reg, log), e.frame, e.now)] else [])
  {}

  lemma OperationStep<C>(cfg: Config<C>, reg: Registry<C>, log: seq<Event<C>>, e: Event<C>)
    ensures RegistryAfter(cfg, reg, log + [e]) ==
      var now, before := e.now, RegistryAfter(cfg, reg, log);
      match e
      case Other(op, _) => Apply(cfg.lower, before, op, now).0
      case Request(_, f, _) =>
        match OperationOf(cfg.codec, f)
        case None => before
        case Some(op) => Apply(cfg.lower, before, op, now).0
  {}

  // ---- the server as a state machine ----

  datatype Ending = FramingFailed(error: BinaryError) | TypeUnsupported | WriteFailed

  datatype Phase = Reading | Handling(frame: RawFrame) | Writing(reply: RawFrame, last: bool) | Closed(why: Ending)

  datatype Conn = Conn(arrived: seq<Byte>, unread: seq<Byte>, ended: bool, written: seq<Byte>, phase: Phase)

  datatype State<C> = State(registry: Registry<C>, conns: map<nat, Conn>, log: seq<Event<C>>)

  datatype Action<+C> =
    | Accept(c: nat)
    | Arrive(c: nat, bytes: seq<Byte>)
    | PeerEnds(c: nat)
    | ReadFrame(c: nat)
    | Handle(c: nat, now: int)
    | WriteReply(c: nat)
    | WriteBreaks(c: nat, sent: nat)
    | UseResolver(op: Op<C>, now: int)

  function Start<C>(reg: Registry<C>): State<C> {
    State(reg, map[], [])
  }

  /** The next step of connection c by itself. */
  function ConnStep<C>(cfg: Config<C>, conn: Conn, a: Action<C>): Conn {
    match a
    case Arrive(_, bytes) =>
      if conn.ended then conn else conn.(arrived := conn.arrived + bytes, unread := conn.unread + bytes)
    case PeerEnds(_) => conn.(ended := true)
    case ReadFrame(_) =>
      if !conn.phase.Reading? then conn
      else (match ParseFrame(conn.unread, cfg.maxSize)
        case Frame(f, rest) => conn.(unread := rest, phase := Handling(f))
        case Failed(e) =>
          if e == IoError(StreamEnded) && !conn.ended then conn
          else conn.(phase := Closed(FramingFailed(e))))
    case WriteReply(_) =>
      if !conn.phase.Writing? then conn
      else conn.(written := conn.written + FrameBytes(conn.phase.reply),
                 phase := if conn.phase.last then Closed(TypeUnsupported) else Reading)
    case WriteBreaks(_, sent) =>
      if !conn.phase.Writing? || sent > |FrameBytes(conn.phase.reply)| then conn
      else conn.(written := conn.written + FrameBytes(conn.phase.reply)[..sent], phase := Closed(WriteFailed))
    case _ => conn
  }

  /** Any action may be tried at any time; one that is not possible changes nothing. */
  function Next<C>(cfg: Config<C>, s: State<C>, a: Action<C>): State<C> {
    match a
    case Accept(c) => if c in s.conns then s else s.(conns := s.conns[c := Conn([], [], false, [], Reading)])
    case UseResolver(op, now) =>
      s.(registry := Apply(cfg.lower, s.registry, op, now).0, log := s.log + [Other(op, now)])
    case Handle(c, now) =>
      if c !in s.conns || !s.conns[c].phase.Handling? then s
      else
        var f := s.conns[c].phase.frame;
        var writing := Writing(ReplyTo(cfg, s.registry, f, now), Ends(cfg, s.registry, f, now));
        State(
          match OperationOf(cfg.codec, f)
          case None => s.registry
          case Some(op) => Apply(cfg.lower, s.registry, op, now).0,
          s.conns[c := s.conns[c].(phase := writing)],
          s.log + [Request(c, f, now)])
    case _ => if a.c !in s.conns then s else s.(conns := s.conns[a.c := ConnStep(cfg, s.conns[a.c], a)])
  }

  function Execute<C>(cfg: Config<C>, s: State<C>, actions: seq<Action<C>>): State<C> {
    if actions == [] then s else Next(cfg, Execute(cfg, s, actions[..|actions| - 1]), actions[|actions| - 1])
  }

  /** An accepted connection has what arrives until its peer ends it. */
  lemma ConnectionOpens<C>(cfg: Config<C>, s: State<C>, c: nat, bytes: seq<Byte>, more: seq<Byte>, late: seq<Byte>)
    requires c !in s.conns
    ensures var s1 := Next(cfg, Next(cfg, Next(cfg, s, Accept(c)), Arrive(c, bytes)), Arrive(c, more));
      && s1 == s.(conns := s.conns[c := Conn(bytes + more, bytes + more, false, [], Reading)])
      && Next(cfg, Next(cfg, s1, PeerEnds(c)), Arrive(c, late))
           == s.(conns := s.conns[c := Conn(bytes + more, bytes + more, true, [], Reading)])
  {
    assert [] + bytes == bytes;
  }

  /** A request that has arrived is read, handled and answered in three steps, whichever other connections
      there are: one reply goes out, the frame is used up, and a lookup counts. */
  lemma RequestIsServed<C>(cfg: Config<C>, s: State<C>, c: nat, now: int, f: RawFrame, rest: seq<Byte>)
    requires c in s.conns && s.conns[c].phase.Reading?
    requires ParseFrame(s.conns[c].unread, cfg.maxSize) == Frame(f, rest)
    ensures var conn := s.conns[c];
      var s' := Next(cfg, Next(cfg, Next(cfg, s, ReadFrame(c)), Handle(c, now)), WriteReply(c));
      && s'.log == s.log + [Request(c, f, now)]
      && s'.conns == s.conns[c := Conn(conn.arrived, rest, conn.ended,
           conn.written + FrameBytes(ReplyTo(cfg, s.registry, f, now)),
           if f.payloadType in {0x10, 0x11} then Reading else Closed(TypeUnsupported))]
      && s'.registry == match cfg.codec.decodeRequest(f.payload)
           case Some(domain) =>
             if f.payloadType == 0x11 then Apply(cfg.lower, s.registry, Resolve(domain), now).0 else s.registry
           case None => s.registry
  {
    hide FrameBytes, ParseFrame, Apply, ReplyTo, Ends, OperationOf;
    ReplyByType(cfg, s.registry, f, now);
  }

  /** A connection fails when what is there is no frame and more cannot come, or cannot help; and when a
      write breaks, with a part of the reply sent. */
  lemma ConnectionFails<C>(cfg: Config<C>, s: State<C>, c: nat, sent: nat)
    requires c in s.conns
    ensures var conn, after := s.conns[c], Next(cfg, s, ReadFrame(c)).conns[c];
      conn.phase.Reading? && ParseFrame(conn.unread, cfg.maxSize).Failed? ==>
        var e := ParseFrame(conn.unread, cfg.maxSize).error;
        after == if conn.ended || e != IoError(StreamEnded) then conn.(phase := Closed(FramingFailed(e))) else conn
    ensures var conn, after := s.conns[c], Next(cfg, s, WriteBreaks(c, sent)).conns[c];
      conn.phase.Writing? && sent <= |FrameBytes(conn.phase.reply)| ==>
        after == conn.(written := conn.written + FrameBytes(conn.phase.reply)[..sent], phase := Closed(WriteFailed))
  {
    hide FrameBytes, ParseFrame;
  }

  // ---- what holds in every interleaving ----

  /** The frames that connection c has read. */
  function FramesRead(conn: Conn, requests: seq<RawFrame>): seq<RawFrame> {
    requests + if conn.phase.Handling? then [conn.phase.frame] else []
  }

  ghost predicate InputAccounted<C>(cfg: Config<C>, conn: Conn, requests: seq<RawFrame>) {
    && conn.arrived == FramesBytes(FramesRead(conn, requests)) + conn.unread
    && (forall f :: f in FramesRead(conn, requests) ==> Sendable(f, cfg.maxSize))
    && (conn.phase.Closed? && conn.phase.why.FramingFailed? ==>
          ParseFrame(conn.unread, cfg.maxSize) == Failed(conn.phase.why.error)
          && (conn.phase.why.error == IoError(StreamEnded) ==> conn.ended))
  }

  ghost predicate OutputAccounted(conn: Conn, replies: seq<RawFrame>) {
    match conn.phase
    case Writing(reply, _) =>
      replies != [] && replies[|replies| - 1] == reply && conn.written == FramesBytes(replies[..|replies| - 1])
    case Closed(WriteFailed) => conn.written <= FramesBytes(replies)
    case _ => conn.written == FramesBytes(replies)
  }

  ghost predicate AllSupported(fs: seq<RawFrame>) {
    forall f :: f in fs ==> Supported(f.payloadType)
  }

  /** Only the last request of a connection can be of an unsupported type, and it ends the connection. */
  ghost predicate EndingAccounted(conn: Conn, requests: seq<RawFrame>) {
    match conn.phase
    case Writing(_, last) =>
      requests != [] && AllSupported(requests[..|requests| - 1])
      && (last <==> !Supported(requests[|requests| - 1].payloadType))
    case Closed(TypeUnsupported) =>
      requests != [] && AllSupported(requests[..|requests| - 1]) && !Supported(requests[|requests| - 1].payloadType)
    case Closed(WriteFailed) => requests != [] && AllSupported(requests[..|requests| - 1])
    case _ => AllSupported(requests)
  }

  ghost predicate ConnInv<C>(cfg: Config<C>, conn: Conn, requests: seq<RawFrame>, replies: seq<RawFrame>) {
    InputAccounted(cfg, conn, requests) && OutputAccounted(conn, replies) && EndingAccounted(conn, requests)
  }

  /** The interleaved run looks as if the logged requests had been served one after the other. */
  ghost predicate Linearized<C>(cfg: Config<C>, reg: Registry<C>, s: State<C>) {
    && s.registry == RegistryAfter(cfg, reg, s.log)
    && (forall c :: c in s.conns ==> ConnInv(cfg, s.conns[c], Requests(s.log, c), Replies(cfg, reg, s.log, c)))
    && (forall c: nat :: c !in s.conns ==> Requests(s.log, c) == [])
  }

  lemma {:induction false} FramesBytesSnoc(fs: seq<RawFrame>, f: RawFrame)
    ensures FramesBytes(fs + [f]) == FramesBytes(fs) + FrameBytes(f)
  {
    hide FrameBytes;
    if fs == [] {
      assert [f][1..] == [] && [] + [f] == [f];
    } else {
      assert (fs + [f])[1..] == fs[1..] + [f];
      FramesBytesSnoc(fs[1..], f);
    }
  }

  /** More bytes do not undo a failure that the bytes at hand have already caused. */
  lemma FailureIsFinal(s: seq<Byte>, more: seq<Byte>, maxSize: nat)
    requires ParseFrame(s, maxSize).Failed? && ParseFrame(s, maxSize).error != IoError(StreamEnded)
    ensures ParseFrame(s + more, maxSize) == ParseFrame(s, maxSize)
  {
    hide FromBytes, FromBigEndian32;
    assert (s + more)[..HEADER_SIZE] == s[..HEADER_SIZE];
    var h := FromBytes(s[..HEADER_SIZE]);
    if h.Ok? && h.value.length <= maxSize {
      var end := HEADER_SIZE + h.value.length;
      assert (s + more)[HEADER_SIZE..end] == s[HEADER_SIZE..end];
      assert (s + more)[end..end + 4] == s[end..end + 4];
    }
  }

  lemma ReadKeepsConnInv<C>(cfg: Config<C>, conn: Conn, requests: seq<RawFrame>, replies: seq<RawFrame>)
    requires ConnInv(cfg, conn, requests, replies) && conn.phase.Reading?
    ensures ConnInv(cfg, ConnStep(cfg, conn, ReadFrame(0)), requests, replies)
  {
    hide FrameBytes, ParseFrame, Sendable;
    match ParseFrame(conn.unread, cfg.maxSize)
    case Failed(_) =>
    case Frame(f, rest) =>
      ParseInvertsWrite(conn.unread, cfg.maxSize, f, rest);
      FramesBytesSnoc(requests, f);
      assert requests + [] == requests;
  }

  lemma ConnStepKeepsConnInv<C>(cfg: Config<C>, conn: Conn, a: Action<C>,
                                requests: seq<RawFrame>, replies: seq<RawFrame>)
    requires ConnInv(cfg, conn, requests, replies)
    ensures ConnInv(cfg, ConnStep(cfg, conn, a), requests, replies)
  {
    hide FrameBytes, ParseFrame, Sendable;
    match a
    case Arrive(_, bytes) =>
      if conn.phase.Closed? && conn.phase.why.FramingFailed? && !conn.ended {
        FailureIsFinal(conn.unread, bytes, cfg.maxSize);
      }
    case ReadFrame(_) =>
      if conn.phase.Reading? { ReadKeepsConnInv(cfg, conn, requests, replies); }
    case WriteReply(_) =>
      if conn.phase.Writing? {
        WrittenReply(conn, requests, replies);
      }
    case WriteBreaks(_, _) =>
      if conn.phase.Writing? { WrittenReply(conn, requests, replies); }
    case _ =>
  }

  lemma WrittenReply(conn: Conn, requests: seq<RawFrame>, replies: seq<RawFrame>)
    requires conn.phase.Writing? && OutputAccounted(conn, replies) && EndingAccounted(conn, requests)
    ensures conn.written + FrameBytes(conn.phase.reply) == FramesBytes(replies)
    ensures !conn.phase.last ==> AllSupported(requests)
  {
    hide FrameBytes;
    var n := |replies| - 1;
    FramesBytesSnoc(replies[..n], replies[n]);
    assert replies[..n] + [replies[n]] == replies;
    assert requests == requests[..|requests| - 1] + [requests[|requests| - 1]];
  }

  lemma HandleKeepsConnInv<C>(cfg: Config<C>, reg: Registry<C>, conn: Conn,
                              requests: seq<RawFrame>, replies: seq<RawFrame>, now: int)
    requires ConnInv(cfg, conn, requests, replies) && conn.phase.Handling?
    ensures var f := conn.phase.frame; var reply := ReplyTo(cfg, reg, f, now);
      ConnInv(cfg, conn.(phase := Writing(reply, Ends(cfg, reg, f, now))), requests + [f], replies + [reply])
  {
    hide FrameBytes, ParseFrame, Sendable, ReplyTo, Ends;
    EndsIffUnsupported(cfg, reg, conn.phase.frame, now);
    var f := conn.phase.frame;
    assert requests + [f] + [] == requests + [f];
    assert (requests + [f])[..|requests|] == requests;
    assert (replies + [ReplyTo(cfg, reg, f, now)])[..|replies|] == replies;
  }

  lemma UseResolverKeepsLinearized<C>(cfg: Config<C>, reg: Registry<C>, s: State<C>, op: Op<C>, now: int)
    requires Linearized(cfg, reg, s)
    ensures Linearized(cfg, reg, Next(cfg, s, UseResolver(op, now)))
  {
    hide ConnInv, Apply, RegistryAfter, Requests, Replies;
    OperationStep(cfg, reg, s.log, Other(op, now));
    forall c: nat
      ensures Requests(s.log + [Other(op, now)], c) == Requests(s.log, c)
      ensures Replies(cfg, reg, s.log + [Other(op, now)], c) == Replies(cfg, reg, s.log, c)
    {
      RequestStep(cfg, reg, s.log, Other(op, now), c);
    }
  }

  lemma HandleKeepsLinearized<C>(cfg: Config<C>, reg: Registry<C>, s: State<C>, c: nat, now: int)
    requires Linearized(cfg, reg, s) && c in s.conns && s.conns[c].phase.Handling?
    ensures Linearized(cfg, reg, Next(cfg, s, Handle(c, now)))
  {
    hide ConnInv, Apply, ReplyTo, Ends, OperationOf, RegistryAfter, Requests, Replies;
    var e := Request(c, s.conns[c].phase.frame, now);
    OperationStep(cfg, reg, s.log, e);
    HandleKeepsConnInv(cfg, s.registry, s.conns[c], Requests(s.log, c), Replies(cfg, reg, s.log, c), now);
    RequestStep(cfg, reg, s.log, e, c);
    forall c': nat | c' != c
      ensures Requests(s.log + [e], c') == Requests(s.log, c')
      ensures Replies(cfg, reg, s.log + [e], c') == Replies(cfg, reg, s.log, c')
    {
      RequestStep(cfg, reg, s.log, e, c');
    }
  }

  lemma StepKeepsLinearized<C>(cfg: Config<C>, reg: Registry<C>, s: State<C>, a: Action<C>)
    requires Linearized(cfg, reg, s)
    ensures Linearized(cfg, reg, Next(cfg, s, a))
  {
    hide ConnInv, Apply, ConnStep, ReplyTo, Ends, OperationOf, RegistryAfter, Requests, Replies;
    match a
    case Accept(c) =>
      FreshConn(cfg);
    case UseResolver(op, now) =>
      UseResolverKeepsLinearized(cfg, reg, s, op, now);
    case Handle(c, now) =>
      if c in s.conns && s.conns[c].phase.Handling? { HandleKeepsLinearized(cfg, reg, s, c, now); }
    case _ =>
      if a.c in s.conns {
        ConnStepKeepsConnInv(cfg, s.conns[a.c], a, Requests(s.log, a.c), Replies(cfg, reg, s.log, a.c));
      }
  }

  lemma FreshConn<C>(cfg: Config<C>)
    ensures ConnInv(cfg, Conn([], [], false, [], Reading), [], [])
  {}

  /** Every interleaving of any number of connections and other users of the registry is equivalent
      to serving the logged requests one after the other. */
  lemma {:induction false} EveryRunIsLinearized<C>(cfg: Config<C>, reg: Registry<C>, actions: seq<Action<C>>)
    ensures Linearized(cfg, reg, Execute(cfg, Start(reg), actions))
  {
    hide Next, ConnInv;
    if actions == [] {
    } else {
      var init := actions[..|actions| - 1];
      EveryRunIsLinearized(cfg, reg, init);
      StepKeepsLinearized(cfg, reg, Execute(cfg, Start(reg), init), actions[|actions| - 1]);
    }
  }

  // ---- what a connection can count on ----

  /** Between requests a connection has read the first frames of its stream and has been sent exactly
      the replies to them, in order; after a framing error it had read every frame there was. */
  lemma RepliesAnswerRequests<C>(cfg: Config<C>, reg: Registry<C>, actions: seq<Action<C>>, c: nat)
    requires c in Execute(cfg, Start(reg), actions).conns
    ensures var s := Execute(cfg, Start(reg), actions); var conn := s.conns[c];
      var requests, replies := Requests(s.log, c), Replies(cfg, reg, s.log, c);
      && requests <= ParseFrames(conn.arrived, cfg.maxSize)
      && (conn.phase.Reading? ==> conn.written == FramesBytes(replies))
      && (conn.phase.Closed? && conn.phase.why.FramingFailed? ==>
            && conn.written == FramesBytes(replies)
            && requests == ParseFrames(conn.arrived, cfg.maxSize)
            && ParseFrame(Unparsed(conn.arrived, cfg.maxSize), cfg.maxSize) == Failed(conn.phase.why.error))
  {
    hide Next, Replies, Requests, ParseFrame, FrameBytes, Sendable;
    EveryRunIsLinearized(cfg, reg, actions);
    var s := Execute(cfg, Start(reg), actions);
    var conn := s.conns[c];
    var requests := Requests(s.log, c);
    var read := FramesRead(conn, requests);
    assert requests <= read;
    WrittenFramesAreRead(read, conn.unread, cfg.maxSize);
  }

  /** A request of an unsupported type gets one error reply, and is the last that its connection reads. */
  lemma UnsupportedTypeEndsConnection<C>(cfg: Config<C>, reg: Registry<C>, actions: seq<Action<C>>, c: nat, i: nat)
    requires var s := Execute(cfg, Start(reg), actions);
      c in s.conns && i < |Requests(s.log, c)| && !Supported(Requests(s.log, c)[i].payloadType)
    ensures var s := Execute(cfg, Start(reg), actions); var conn := s.conns[c];
      && i == |Requests(s.log, c)| - 1
      && (conn.phase.Writing? || (conn.phase.Closed? && !conn.phase.why.FramingFailed?))
      && (conn.phase.Closed? && conn.phase.why.TypeUnsupported? ==>
            conn.written == FramesBytes(Replies(cfg, reg, s.log, c)))
  {
    hide Next, Replies, Requests;
    EveryRunIsLinearized(cfg, reg, actions);
    var s := Execute(cfg, Start(reg), actions);
    var requests := Requests(s.log, c);
    assert requests[i] in requests;
    forall k | 0 <= k < |requests| - 1 ensures requests[k] in requests[..|requests| - 1] {
      assert requests[..|requests| - 1][k] == requests[k];
    }
  }

  /** A closed connection stays as it is, whatever happens next, apart from bytes that still arrive. */
  lemma {:induction false} ClosedConnectionsStayClosed<C>(cfg: Config<C>, s: State<C>, more: seq<Action<C>>, c: nat)
    requires c in s.conns && s.conns[c].phase.Closed?
    ensures var s' := Execute(cfg, s, more);
      && c in s'.conns && s'.conns[c].phase == s.conns[c].phase && s'.conns[c].written == s.conns[c].written
      && Requests(s'.log, c) == Requests(s.log, c)
  {
    hide Next, Requests;
    if more != [] {
      ClosedConnectionsStayClosed(cfg, s, more[..|more| - 1], c);
      ClosedStep(cfg, Execute(cfg, s, more[..|more| - 1]), more[|more| - 1], c);
    }
  }

  lemma ClosedStep<C>(cfg: Config<C>, s: State<C>, a: Action<C>, c: nat)
    requires c in s.conns && s.conns[c].phase.Closed?
    ensures var s' := Next(cfg, s, a);
      && c in s'.conns && s'.conns[c].phase == s.conns[c].phase && s'.conns[c].written == s.conns[c].written
      && Requests(s'.log, c) == Requests(s.log, c)
  {
    hide Apply, ReplyTo, Ends, OperationOf, ConnStep, Requests;
    ClosedLog(cfg, s, a, c);
    ClosedConnStep(cfg, s.conns[c], a);
  }

  lemma ClosedLog<C>(cfg: Config<C>, s: State<C>, a: Action<C>, c: nat)
    requires c in s.conns && s.conns[c].phase.Closed?
    ensures Requests(Next(cfg, s, a).log, c) == Requests(s.log, c)
  {
    hide Apply, ReplyTo, Ends, OperationOf, ConnStep, Requests;
    if a.UseResolver? {
      RequestStep(cfg, s.registry, s.log, Other(a.op, a.now), c);
    } else if a.Handle? && a.c in s.conns && s.conns[a.c].phase.Handling? {
      RequestStep(cfg, s.registry, s.log, Request(a.c, s.conns[a.c].phase.frame, a.now), c);
    }
  }

  lemma ClosedConnStep<C>(cfg: Config<C>, conn: Conn, a: Action<C>)
    requires conn.phase.Closed?
    ensures ConnStep(cfg, conn, a).phase == conn.phase && ConnStep(cfg, conn, a).written == conn.written
  {}

  /** Unless a reply is under way or broke off, a reader at the other end recovers the replies from what
      was written exactly when all of them are of sendable sizes. */
  lemma PeerReadsReplies<C>(cfg: Config<C>, reg: Registry<C>, actions: seq<Action<C>>, c: nat)
    requires var s := Execute(cfg, Start(reg), actions);
      c in s.conns && !s.conns[c].phase.Writing? && s.conns[c].phase != Closed(WriteFailed)
    ensures var s := Execute(cfg, Start(reg), actions);
      ParseFrames(s.conns[c].written, MAX_PAYLOAD_SIZE) == Replies(cfg, reg, s.log, c)
      <==> forall r :: r in Replies(cfg, reg, s.log, c) ==> Sendable(r, MAX_PAYLOAD_SIZE)
  {
    hide Next, Requests, Replies, ParseFrame, FrameBytes, Sendable;
    EveryRunIsLinearized(cfg, reg, actions);
    var s := Execute(cfg, Start(reg), actions);
    var replies := Replies(cfg, reg, s.log, c);
    assert FramesBytes(replies) + [] == FramesBytes(replies);
    StreamSplits(FramesBytes(replies), MAX_PAYLOAD_SIZE);
    if forall r :: r in replies ==> Sendable(r, MAX_PAYLOAD_SIZE) {
      WrittenFramesAreRead(replies, [], MAX_PAYLOAD_SIZE);
      assert ParseFrames([], MAX_PAYLOAD_SIZE) == [] by { NothingToParse(); }
    }
  }

  lemma NothingToParse()
    ensures ParseFrames([], MAX_PAYLOAD_SIZE) == []
  {}

  /** A domain's resolve count is its first count plus the number of lookups of it, over any connection
      or otherwise, that the registry has performed since the domain was entered, or since the start. */
  lemma ResolveCountsRequests<C>(cfg: Config<C>, reg: Registry<C>, actions: seq<Action<C>>, key: string)
    returns (j: int)
    requires key in Execute(cfg, Start(reg), actions).registry
    ensures var s := Execute(cfg, Start(reg), actions); var ops := Operations(cfg, s.log);
      && s.registry == Run(cfg.lower, reg, ops)
      && EnteredAt(cfg.lower, reg, ops, key, j) && TellsHistory(cfg.lower, reg, ops, key, j)
  {
    hide Next, EnteredAt, TellsHistory, Run, ConnInv;
    EveryRunIsLinearized(cfg, reg, actions);
    j := EntryTellsItsHistory(cfg.lower, reg, Operations(cfg, Execute(cfg, Start(reg), actions).log), key);
  }

  // ---- one connection, as the source runs it ----

  /** Reading never reports what only writing can. */
  lemma ReadNeverBreaks(s: seq<Byte>, maxSize: nat)
    ensures ParseFrame(s, maxSize) != Failed(IoError(WriteBroken))
  {}

  lemma CutInReply(out: seq<Byte>, sent: seq<Byte>, reply: seq<Byte>, room: nat)
    requires |sent| <= room
    ensures out + sent + Cut(reply, room - |sent|) == out + Cut(sent + reply, room)
  {}

  /** The requests of a connection whose loop has ended: the first frames of the stream, of which only
      the last one can be of an unsupported type. */
  ghost predicate ReadInOrder<C>(cfg: Config<C>, all: seq<Byte>, requests: seq<RawFrame>) {
    requests != [] && requests <= ParseFrames(all, cfg.maxSize) && AllSupported(requests[..|requests| - 1])
  }

  /** What one more request does to the accounts of the loop. */
  lemma OneMoreServed<C>(cfg: Config<C>, reg: Registry<C>, log: seq<Event<C>>, e: Event<C>,
                         all: seq<Byte>, unread: seq<Byte>, rest: seq<Byte>, out: seq<Byte>, room: nat)
    requires e.Request? && e.conn == 0 && ParseFrame(unread, cfg.maxSize) == Frame(e.frame, rest)
    requires all == FramesBytes(Requests(log, 0)) + unread
    requires forall f :: f in Requests(log, 0) ==> Sendable(f, cfg.maxSize) && Supported(f.payloadType)
    requires |FramesBytes(Replies(cfg, reg, log, 0))| <= room
    ensures var requests, replies := Requests(log, 0), Replies(cfg, reg, log, 0);
      var reply := ReplyTo(cfg, RegistryAfter(cfg, reg, log), e.frame, e.now);
      && Requests(log + [e], 0) == requests + [e.frame] && Replies(cfg, reg, log + [e], 0) == replies + [reply]
      && all == FramesBytes(requests + [e.frame]) + rest && |rest| < |unread|
      && Sendable(e.frame, cfg.maxSize) && ReadInOrder(cfg, all, requests + [e.frame])
      && |FramesBytes(replies + [reply])| == |FramesBytes(replies)| + |FrameBytes(reply)|
      && (replies + [reply])[..|replies|] == replies
      && out + FramesBytes(replies) + Cut(FrameBytes(reply), room - |FramesBytes(replies)|)
         == out + Cut(FramesBytes(replies + [reply]), room)
  {
    hide ParseFrame, FrameBytes, Sendable, ReplyTo, RegistryAfter, Cut, Requests, Replies;
    var requests, replies, f := Requests(log, 0), Replies(cfg, reg, log, 0), e.frame;
    var reply := ReplyTo(cfg, RegistryAfter(cfg, reg, log), f, e.now);
    ParseInvertsWrite(unread, cfg.maxSize, f, rest);
    RequestStep(cfg, reg, log, e, 0);
    FramesBytesSnoc(requests, f);
    FramesBytesSnoc(replies, reply);
    CutInReply(out, FramesBytes(replies), FrameBytes(reply), room);
    assert (replies + [reply])[..|replies|] == replies && (requests + [f])[..|requests|] == requests;
    assert all == FramesBytes(requests + [f]) + rest;
    WrittenFramesAreRead(requests + [f], rest, cfg.maxSize);
  }

  /** The read-handle-write loop of one connection that has the registry to itself meanwhile. All that
      is ever sent are the replies to the requests, cut off where the connection breaks. */
  method HandleConnection<C>(cfg: Config<C>, stream: TcpStream, resolver: OptResolver<C>, clock: nat -> int)
    returns (r: Result<(), BinaryError>, ghost log: seq<Event<C>>)
    requires resolver.lower == cfg.lower
    modifies stream, resolver
    ensures resolver.registry == RegistryAfter(cfg, old(resolver.registry), log)
    ensures var replies := Replies(cfg, old(resolver.registry), log, 0);
      && stream.outgoing == old(stream.outgoing) + Cut(FramesBytes(replies), old(stream.room))
      && (r == Err(IoError(WriteBroken)) <==> |FramesBytes(replies)| > old(stream.room))
      && (r == Err(IoError(WriteBroken)) ==>
            replies != [] && |FramesBytes(replies[..|replies| - 1])| <= old(stream.room))
    ensures var all, requests := old(stream.Unread()), Requests(log, 0);
      if r == Err(IoError(WriteBroken)) then ReadInOrder(cfg, all, requests)
      else match r
        case Err(e) =>
          && requests == ParseFrames(all, cfg.maxSize) && AllSupported(requests)
          && ParseFrame(Unparsed(all, cfg.maxSize), cfg.maxSize) == Failed(e)
        case Ok(_) => ReadInOrder(cfg, all, requests) && !Supported(requests[|requests| - 1].payloadType)
  {
    hide ParseFrame, FrameBytes, Sendable, Apply, Respond, ReplyFrame, OperationOf, Replies, Requests, RegistryAfter;
    hide Cut, ReadInOrder, FramesBytes;
    ghost var reg, all, out, room := resolver.registry, stream.Unread(), stream.outgoing, stream.room;
    log := [];
    EmptyLog(cfg, reg);
    assert FramesBytes([]) == [] by { NoBytes(); }
    assert FramesBytes([]) + all == all && out + FramesBytes([]) == out;
    var n := 0;
    while true
      invariant all == FramesBytes(Requests(log, 0)) + stream.Unread()
      invariant forall f :: f in Requests(log, 0) ==> Sendable(f, cfg.maxSize) && Supported(f.payloadType)
      invariant resolver.registry == RegistryAfter(cfg, reg, log)
      invariant stream.outgoing == out + FramesBytes(Replies(cfg, reg, log, 0))
      invariant stream.room + |FramesBytes(Replies(cfg, reg, log, 0))| == room
      decreases |stream.Unread()|
    {
      ghost var requests, replies, unread := Requests(log, 0), Replies(cfg, reg, log, 0), stream.Unread();
      NothingCut(FramesBytes(replies), room);
      var frame := Transport.ReadFrame(stream, cfg.maxSize);
      if frame.Err? {
        StreamsSplitUniquely(all, cfg.maxSize, requests, unread);
        ReadNeverBreaks(unread, cfg.maxSize);
        return Err(frame.error), log;
      }
      var f := frame.value;
      var now := clock(n);
      n := n + 1;
      ghost var e := Request(0, f, now);
      OneMoreServed(cfg, reg, log, e, all, unread, stream.Unread(), out, room);
      OperationStep(cfg, reg, log, e);
      EndsIffUnsupported(cfg, resolver.registry, f, now);
      ghost var reply := ReplyTo(cfg, resolver.registry, f, now);

      var response := HandleFrame(cfg, resolver, f, now);
      log := log + [e];
      var written := WriteResponse(cfg.codec, stream, response);
      if written.Err? {
        return Err(written.error), log;
      }
      NothingCut(FramesBytes(replies + [reply]), room);
      if written.value {
        return Ok(()), log;
      }
    }
  }

  lemma NoBytes()
    ensures FramesBytes([]) == []
  {}

  lemma NothingCut(bytes: seq<Byte>, room: nat)
    requires |bytes| <= room
    ensures Cut(bytes, room) == bytes
  {}

  /** Whether the response was the last one, or the error of a write that broke. */
  method WriteResponse<C>(codec: Codec<C>, stream: TcpStream, response: Result<RawFrame, BinaryError>)
    returns (r: Result<bool, BinaryError>)
    modifies stream`outgoing, stream`room
    ensures var bytes, room := FrameBytes(ReplyFrame(codec, response)), old(stream.room);
      && stream.outgoing == old(stream.outgoing) + Cut(bytes, room)
      && if |bytes| <= room then r == Ok(response.Err? && response.error.InvalidType?) && stream.room == room - |bytes|
         else r == Err(IoError(WriteBroken)) && stream.room == 0
  {
    hide FrameBytes, Cut;
    match response {
      case Ok(reply) =>
        var written := WriteFrame(stream, reply.payloadType, reply.payload);
        r := if written.Err? then Err(written.error) else Ok(false);
      case Err(e) =>
        var written := WriteFrame(stream, TYPE_ERROR, codec.errorText(e));
        r := if written.Err? then Err(written.error) else Ok(e.InvalidType?);
    }
  }

  lemma EmptyLog<C>(cfg: Config<C>, reg: Registry<C>)
    ensures Requests<C>([], 0) == [] && Replies(cfg, reg, [], 0) == [] && RegistryAfter(cfg, reg, []) == reg
  {}

  method HandleFrame<C>(cfg: Config<C>, resolver: OptResolver<C>, f: RawFrame, now: int)
    returns (r: Result<RawFrame, BinaryError>)
    requires resolver.lower == cfg.lower
    modifies resolver
    ensures r == Respond(cfg, old(resolver.registry), f, now)
    ensures resolver.registry == match OperationOf(cfg.codec, f)
      case None => old(resolver.registry)
      case Some(op) => Apply(cfg.lower, old(resolver.registry), op, now).0
  {
    if f.payloadType == TYPE_HANDSHAKE {
      match cfg.codec.decodeRequest(f.payload) {
        case None => r := Err(DeserializationError("invalid request"));
        case Some(domain) => r := Ok(RawFrame(TYPE_HANDSHAKE, cfg.codec.handshakeReply(domain, now)));
      }
    } else if f.payloadType == TYPE_RESOLVE_OPT {
      match cfg.codec.decodeRequest(f.payload) {
        case None => r := Err(DeserializationError("invalid request"));
        case Some(domain) =>
          var answer := resolver.Resolve(domain, now);
          r := if answer.Found? then Ok(RawFrame(TYPE_CORE_FILE, cfg.codec.encodeCoreFile(answer.coreFile)))
               else Err(IoError(ResolverRefused(".opt domain not found: " + Normalize(cfg.lower, domain))));
      }
    } else {
      r := Err(InvalidType(f.payloadType));
    }
  }

  // ---- the peer ----

  /** What NativeClient::resolve_opt returns for the bytes that it reads, None standing for an error. */
  function ClientResult<C>(decodeCoreFile: seq<Byte> -> Option<C>, s: seq<Byte>): Option<C> {
    match ParseFrame(s, MAX_PAYLOAD_SIZE)
    case Failed(_) => None
    case Frame(f, _) => if f.payloadType == TYPE_ERROR then None else decodeCoreFile(f.payload)
  }

  /** With JSON codecs that invert themselves, and in which no proper prefix of an encoding stands for the
      same file, a client gets the registered file exactly if there is one and its encoding is at most
      10 MiB; without one, or with one between that and 4 GiB, it gets an error. */
  lemma ClientGetsRegisteredFile<C>(cfg: Config<C>, reg: Registry<C>, domain: string, now: int, rest: seq<Byte>,
                                    encodeRequest: string -> seq<Byte>, decodeCoreFile: seq<Byte> -> Option<C>)
    requires cfg.codec.decodeRequest(encodeRequest(domain)) == Some(domain)
    requires forall c :: decodeCoreFile(cfg.codec.encodeCoreFile(c)) == Some(c)
    requires forall c, k :: 0 <= k < |cfg.codec.encodeCoreFile(c)| ==>
      decodeCoreFile(cfg.codec.encodeCoreFile(c)[..k]) != Some(c)
    ensures var key := Normalize(cfg.lower, domain);
      var reply := ReplyTo(cfg, reg, RawFrame(TYPE_RESOLVE_OPT, encodeRequest(domain)), now);
      var result := ClientResult(decodeCoreFile, FrameBytes(reply) + rest);
      if key !in reg then result == None
      else
        var size := |cfg.codec.encodeCoreFile(reg[key].coreFile)|;
        && (result == Some(reg[key].coreFile) <==> size <= MAX_PAYLOAD_SIZE)
        && (MAX_PAYLOAD_SIZE < size < 0x1_0000_0000 ==> result == None)
  {
    hide Normalize, ParseFrame, FrameBytes, FromBigEndian32, BigEndian32;
    var key := Normalize(cfg.lower, domain);
    var reply := ReplyTo(cfg, reg, RawFrame(TYPE_RESOLVE_OPT, encodeRequest(domain)), now);
    WrittenFrame(reply, rest, MAX_PAYLOAD_SIZE);
    if key in reg {
      var file := reg[key].coreFile;
      assert reply == RawFrame(TYPE_CORE_FILE, cfg.codec.encodeCoreFile(file));
      assert decodeCoreFile(cfg.codec.encodeCoreFile(file)) == Some(file);
    }
  }
}
