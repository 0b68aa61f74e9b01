/**
 What a session does with every event, said of the bytes that arrive: which messages it takes
 and where they lead, which it answers with an error and stays as it was, and that it closes
 on all the rest.
 */
module BspReplies {
  import opened Results
  import opened Bytes
  import opened BspWire
  import opened BspMessage
  import opened BspHandshake
  import opened BspSession

  // ---- Answered with an error ---------------------------------------------------------

  /** What a client request is answered with in a phase that does not take it. */
  ghost predicate ClientReply(phase: RequestPhase, m: ClientRequest, code: ErrorCode) {
    match m
    case Begin(begin) =>
      if begin.maxTokens > 4096 || begin.promptLength > 16384 then code == Limit
      else !phase.Idle? && code == Busy
    case PromptChunk(id, chunk) =>
      && |chunk| <= 4032
      && if !phase.Collecting? then code == State else phase.requestId != id && code == NoRequest
    case InferCommit(id) =>
      if !phase.Collecting? then code == State
      else if phase.requestId != id then code == NoRequest
      else phase.accumulated != phase.declared && code == Incomplete
    case Cancel(id) =>
      if phase.Idle? then code == State else phase.requestId != id && code == NoRequest
    case Close => false
  }

  /** An audit request for over 64 records, and a restart of something that is no server. */
  ghost predicate AdminReply(payload: seq<u8>, code: ErrorCode) {
    || (code == Limit && exists id: u32, cursor: u64, n: u16 ::
          n > 64 && payload == AdminVerbBytes(ReadAuditLog(id, cursor, n)))
    || (code == BadTarget && exists id: u32, target: u8, rest: seq<u8> ::
          !(1 <= target <= 4) && payload == Misdirected(id, target, rest))
  }

  function Misdirected(id: u32, target: u8, rest: seq<u8>): (payload: seq<u8>) {
    Tagged(0x15, id) + [target] + rest
  }

  /** In this session the event is answered with `code`, and nothing else happens. */
  ghost predicate Answered(s: Snapshot, e: Event, code: ErrorCode) {
    && e.Message? && s.state.Established?
    && match s.sessionType
       case Some(ClientSession) => exists m :: e.payload == ClientRequestBytes(m) && ClientReply(s.request, m, code)
       case Some(AdminSession) => AdminReply(e.payload, code)
       case None => false
  }

  ghost predicate KeptOpen(s: Snapshot, e: Event) {
    exists code :: Answered(s, e, code)
  }

  // ---- Decoding errors that keep the session ------------------------------------------

  lemma OverLimitBody(body: seq<u8>, b: InferBegin)
    requires body == BeginBytes(b) && !ClientWithin(Begin(b))
    ensures BeginOf(body) in {Err(MaxTokensExceedsLimit), Err(PromptLengthExceedsLimit)}
  {
    hide U16Be, U32Be, BeBytes, BeginBytes;
    BeginSlices(b);
    U32BeBytes(b.maxTokens);
    U32BeBytes(b.promptLength);
  }

  /** A begin over either ceiling decodes to a limit denial. */
  lemma OverLimit(payload: Slice, b: InferBegin)
    requires payload == ClientRequestBytes(Begin(b)) && !ClientWithin(Begin(b))
    ensures ClientRequestOf(payload) in {Err(MaxTokensExceedsLimit), Err(PromptLengthExceedsLimit)}
  {
    hide BeginOf, BeginBytes;
    assert payload[1..] == BeginBytes(b);
    OverLimitBody(payload[1..], b);
  }

  /** The only decoding denials of a request that are answered are those of a begin over a ceiling. */
  lemma ClientDecodingCode(payload: Slice) returns (b: InferBegin)
    requires ClientRequestOf(payload).Err? && Code(ClientRequestOf(payload).error).Some?
    ensures payload == ClientRequestBytes(Begin(b)) && !ClientWithin(Begin(b))
    ensures Code(ClientRequestOf(payload).error) == Some(Limit)
  {
    hide U16Be, U32Be, BeBytes;
    var body := payload[1..];
    b := InferBegin(U32Be(body[..4]), U32Be(body[4..8]),
                    U16Be(body[8..10]), U16Be(body[10..12]), U32Be(body[12..16]));
    assert body == body[..4] + body[4..8] + body[8..10] + body[10..12] + body[12..16];
    assert payload == [1] + body;
  }

  lemma AdminOverLimit(payload: Slice, id: u32, cursor: u64, n: u16)
    requires n > MAX_AUDIT_RECORDS && payload == AdminVerbBytes(ReadAuditLog(id, cursor, n))
    ensures AdminVerbOf(payload) == Err(AuditRecordCountExceedsLimit)
  {
    hide U16Be, U32Be, U64Be, BeBytes;
    var body := payload[1..];
    U16BeBytes(n);
    assert body == BeBytes(id, 4) + BeBytes(cursor, 8) + BeBytes(n, 2);
    assert body[12..14] == BeBytes(n, 2);
  }

  lemma AdminMisdirected(payload: Slice, id: u32, target: u8, rest: seq<u8>)
    requires !(1 <= target <= 4) && payload == Misdirected(id, target, rest)
    ensures AdminVerbOf(payload) == Err(UnknownRestartTarget)
  {
    hide U32Be, BeBytes;
    var body := payload[1..];
    assert body == BeBytes(id, 4) + [target] + rest;
  }

  lemma AdminDecodingCode(payload: Slice)
    requires AdminVerbOf(payload).Err? && Code(AdminVerbOf(payload).error).Some?
    ensures AdminReply(payload, Code(AdminVerbOf(payload).error).value)
  {
    hide U16Be, U32Be, U64Be, BeBytes, AdminVerbBytes, Misdirected;
    var tag, body := payload[0], payload[1..];
    assert payload == [tag] + body;
    if tag == 0x14 {
      AuditBytes(payload, body);
    } else {
      RestartBytes(payload, body);
    }
  }

  lemma AuditBytes(payload: Slice, body: seq<u8>)
    requires |body| == 14 && payload == [0x14] + body
    ensures payload == AdminVerbBytes(ReadAuditLog(U32Be(body[..4]), U64Be(body[4..12]), U16Be(body[12..14])))
  {
    hide U16Be, U32Be, U64Be, BeBytes;
    assert body == body[..4] + body[4..12] + body[12..14];
  }

  lemma RestartBytes(payload: Slice, body: seq<u8>)
    requires |body| >= 5 && payload == [0x15] + body
    ensures payload == Misdirected(U32Be(body[..4]), body[4], body[5..])
  {
    hide U32Be, BeBytes;
    assert body == body[..4] + [body[4]] + body[5..];
  }

  // ---- Which denials are answered -----------------------------------------------------

  lemma AdmissionCode(phase: RequestPhase, m: ClientRequest, code: ErrorCode)
    requires ClientWithin(m)
    ensures phase.Admit(m).Err? && Code(phase.Admit(m).error) == Some(code) <==> ClientReply(phase, m, code)
  {
  }

  /** A client message is answered with `code` exactly when it is a request that is so answered. */
  lemma ClientAnswers(s: Snapshot, payload: Slice, code: ErrorCode)
    requires s.state.Established? && s.sessionType == Some(ClientSession)
    ensures var o := ClientStep(s, payload).outcome;
      o.Denied? && Code(o.error) == Some(code) <==> Answered(s, Message(payload), code)
  {
    hide ClientRequestOf, ClientRequestBytes, RequestPhase.Admit, RequestPhase.Next, Code, ClientReply, ClientWithin;
    var decoded := ClientRequestOf(payload);
    forall m | payload == ClientRequestBytes(m) && ClientReply(s.request, m, code)
      ensures var o := ClientStep(s, payload).outcome; o.Denied? && Code(o.error) == Some(code)
    {
      RepliedTo(s, payload, m, code);
    }
    if decoded.Ok? {
      ClientCanonical(payload, decoded.value);
      AdmissionCode(s.request, decoded.value, code);
    } else if Code(decoded.error) == Some(code) {
      var b := ClientDecodingCode(payload);
      OverLimitReply(s.request, b);
    }
  }

  lemma OverLimitReply(phase: RequestPhase, b: InferBegin)
    requires !ClientWithin(Begin(b))
    ensures ClientReply(phase, Begin(b), Limit)
  {
  }

  lemma LimitCodes()
    ensures Code(MaxTokensExceedsLimit) == Some(Limit) && Code(PromptLengthExceedsLimit) == Some(Limit)
  {
  }

  lemma ReplyIsLimited(phase: RequestPhase, m: ClientRequest, code: ErrorCode)
    requires ClientReply(phase, m, code)
    ensures ClientWithin(m) || (m.Begin? && code == Limit)
  {
  }

  lemma RepliedTo(s: Snapshot, payload: Slice, m: ClientRequest, code: ErrorCode)
    requires payload == ClientRequestBytes(m) && ClientReply(s.request, m, code)
    ensures var o := ClientStep(s, payload).outcome; o.Denied? && Code(o.error) == Some(code)
  {
    hide ClientRequestOf, ClientRequestBytes, RequestPhase.Admit, RequestPhase.Next, Code, ClientReply, ClientWithin;
    ReplyIsLimited(s.request, m, code);
    if ClientWithin(m) {
      ClientCanonical(payload, m);
      AdmissionCode(s.request, m, code);
    } else {
      OverLimit(payload, m.begin);
      LimitCodes();
    }
  }

  lemma AdminAnswers(s: Snapshot, payload: Slice, code: ErrorCode)
    requires s.state.Established? && s.sessionType == Some(AdminSession)
    ensures var o := AdminStep(s, payload).outcome;
      o.Denied? && Code(o.error) == Some(code) <==> Answered(s, Message(payload), code)
  {
    hide AdminVerbOf, AdminVerbBytes, Misdirected;
    if AdminVerbOf(payload).Err? && Code(AdminVerbOf(payload).error).Some? {
      AdminDecodingCode(payload);
    }
    forall id: u32, cursor: u64, n: u16 | n > 64 && payload == AdminVerbBytes(ReadAuditLog(id, cursor, n))
      ensures AdminVerbOf(payload) == Err(AuditRecordCountExceedsLimit)
    {
      AdminOverLimit(payload, id, cursor, n);
    }
    forall id: u32, target: u8, rest: seq<u8> | !(1 <= target <= 4) && payload == Misdirected(id, target, rest)
      ensures AdminVerbOf(payload) == Err(UnknownRestartTarget)
    {
      AdminMisdirected(payload, id, target, rest);
    }
  }

  lemma HandshakeCodes(s: Snapshot, e: Event)
    requires !e.Message? && Step(s, e).outcome.Denied?
    ensures Code(Step(s, e).outcome.error).None?
  {
    hide U16Be, U64Be;
  }

  /** A denial carries an error code exactly when the event is one the session answers with it. */
  lemma AnswersExactly(s: Snapshot, e: Event, code: ErrorCode)
    ensures var o := Step(s, e).outcome;
      o.Denied? && Code(o.error) == Some(code) <==> Answered(s, e, code)
  {
    hide ClientStep, AdminStep, HelloStep, AuthStep, EstablishStep, ClientReply, AdminReply, ClientRequestBytes;
    match e
    case Message(payload) =>
      if s.state.Established? && s.sessionType == Some(ClientSession) {
        ClientAnswers(s, payload, code);
      } else if s.state.Established? && s.sessionType == Some(AdminSession) {
        AdminAnswers(s, payload, code);
      }
    case _ =>
      if Step(s, e).outcome.Denied? {
        HandshakeCodes(s, e);
      }
  }

  /**
   The whole error discipline on events and snapshots: a denied event leaves a live session as
   it was exactly when it is one of those answered with an error, and closes it otherwise.
   */
  lemma DenialsExactly(s: Snapshot, e: Event)
    ensures KeptOpen(s, e) ==> Step(s, e).outcome.Denied?
    ensures Step(s, e).outcome.Denied? ==>
      && (Step(s, e).next == s && !s.state.Closed? <==> KeptOpen(s, e))
      && (!KeptOpen(s, e) ==> Step(s, e).next == CLOSED)
  {
    hide Step, Answered, Code;
    forall code
      ensures var o := Step(s, e).outcome; o.Denied? && Code(o.error) == Some(code) <==> Answered(s, e, code)
    {
      AnswersExactly(s, e, code);
    }
    if Step(s, e).outcome.Denied? {
      DenialMoves(s, e);
      if KeptOpen(s, e) {
        KeptIsLive(s, e);
      }
    }
  }

  lemma KeptIsLive(s: Snapshot, e: Event)
    requires KeptOpen(s, e)
    ensures s.state.Established?
  {
  }

  // ---- What is taken, and where it leads ------------------------------------------------

  /** The requests a phase takes. */
  ghost predicate Legal(phase: RequestPhase, m: ClientRequest) {
    match m
    case Begin(_) => phase.Idle?
    case PromptChunk(id, chunk) =>
      && phase.Collecting? && phase.requestId == id
      && phase.accumulated + |chunk| <= phase.declared && phase.accumulated + |chunk| <= 16384
    case InferCommit(id) => phase.Collecting? && phase.requestId == id && phase.accumulated == phase.declared
    case Cancel(id) => !phase.Idle? && phase.requestId == id
    case Close => true
  }

  /** Where a taken request leaves the session. */
  ghost predicate Leads(s: Snapshot, m: ClientRequest, next: Snapshot) {
    match m
    case Begin(begin) => next == s.(request := Collecting(begin.requestId, begin.promptLength, 0))
    case PromptChunk(id, chunk) =>
      && s.request.Collecting? && next.request.Collecting?
      && next == s.(request := next.request)
      && next.request.requestId == s.request.requestId && next.request.declared == s.request.declared
      && next.request.accumulated == s.request.accumulated + |chunk|
    case InferCommit(id) => next == s.(request := Streaming(id))
    case Cancel(_) => next == s.(request := Idle)
    case Close => next == CLOSED
  }

  /** Each outcome but a denial, the event and session that give it, and the session it leaves. */
  ghost predicate Takes(s: Snapshot, e: Event, t: Transition) {
    match t.outcome
    case Heard(hello) =>
      && e.Hello? && s.state.WaitHello? && e.bytes == HelloBytes(hello) && t.next == s.(state := WaitClientAuth)
    case Authed(auth) =>
      && e.Auth? && s.state.WaitClientAuth? && e.bytes == auth.clientConfirm && t.next == s.(state := AuthPending)
    case Granted =>
      && e.Establish? && s.state.AuthPending?
      && t.next == s.(state := Established, sessionType := Some(e.sessionType))
    case Received(message) =>
      && e.Message? && s.state.Established?
      && (match message
          case FromClient(m) =>
            && s.sessionType == Some(ClientSession) && e.payload == ClientRequestBytes(m) && ClientWithin(m)
            && Legal(s.request, m) && Leads(s, m, t.next)
          case FromAdmin(verb) =>
            && s.sessionType == Some(AdminSession) && e.payload == AdminVerbBytes(verb) && AdminWithin(verb)
            && t.next == s)
    case TornDown => e.TearDown? && t.next == CLOSED
    case Denied(_) => false
  }

  lemma AdmissionMeaning(phase: RequestPhase, m: ClientRequest)
    requires ClientWithin(m)
    ensures phase.Admit(m).Ok? <==> Legal(phase, m)
  {
  }

  lemma AppliedMeaning(s: Snapshot, m: ClientRequest, next: Snapshot)
    requires Legal(s.request, m)
    ensures Applied(s, m) == next <==> Leads(s, m, next)
  {
  }

  lemma ClientTakes(s: Snapshot, payload: Slice, m: ClientRequest, next: Snapshot)
    ensures ClientStep(s, payload) == Transition(next, Received(FromClient(m))) <==>
      payload == ClientRequestBytes(m) && ClientWithin(m) && Legal(s.request, m) && Leads(s, m, next)
  {
    hide ClientRequestOf, ClientRequestBytes, RequestPhase.Admit, Applied, Legal, Leads, ClientWithin;
    ClientCanonical(payload, m);
    if ClientWithin(m) {
      AdmissionMeaning(s.request, m);
    }
    if Legal(s.request, m) {
      AppliedMeaning(s, m, next);
    }
  }

  lemma AdminTakes(s: Snapshot, payload: Slice, verb: AdminVerb, next: Snapshot)
    ensures AdminStep(s, payload) == Transition(next, Received(FromAdmin(verb))) <==>
      payload == AdminVerbBytes(verb) && AdminWithin(verb) && next == s
  {
    hide AdminVerbOf, AdminVerbBytes;
    AdminCanonical(payload, verb);
  }

  /** A step does something other than deny exactly as the table says. */
  lemma TakesExactly(s: Snapshot, e: Event, t: Transition)
    requires !t.outcome.Denied?
    ensures Step(s, e) == t <==> Takes(s, e, t)
  {
    hide ClientStep, AdminStep, HelloOf, AuthOf, ClientRequestBytes, AdminVerbBytes, HelloBytes;
    hide Legal, Leads, ClientWithin;
    StepKinds(s, e);
    match t.outcome
    case Heard(hello) =>
      if e.Hello? {
        HelloCanonical(e.bytes, hello);
      }
    case Received(message) =>
      if e.Message? {
        MessageKinds(s, e.payload);
        match message
        case FromClient(m) => ClientTakes(s, e.payload, m, t.next);
        case FromAdmin(verb) => AdminTakes(s, e.payload, verb, t.next);
      }
    case Authed(_) => AuthExactly(s, e, t);
    case _ =>
  }

  lemma AuthExactly(s: Snapshot, e: Event, t: Transition)
    requires t.outcome.Authed?
    ensures Step(s, e) == t <==> Takes(s, e, t)
  {
    hide ClientStep, AdminStep, HelloOf;
    StepKinds(s, e);
  }

  lemma MessageKinds(s: Snapshot, payload: Slice)
    ensures var o := ClientStep(s, payload).outcome; o.Denied? || (o.Received? && o.message.FromClient?)
    ensures var o := AdminStep(s, payload).outcome; o.Denied? || (o.Received? && o.message.FromAdmin?)
  {
    hide ClientRequestOf, AdminVerbOf, RequestPhase.Admit, Applied;
  }

  lemma StepKinds(s: Snapshot, e: Event)
    ensures match Step(s, e).outcome
      case Heard(_) => e.Hello?
      case Authed(_) => e.Auth?
      case Granted => e.Establish?
      case Received(_) => e.Message?
      case TornDown => e.TearDown?
      case Denied(_) => true
  {
    hide HelloOf, AuthOf, ClientRequestOf, AdminVerbOf, RequestPhase.Admit, Applied;
  }

  // ---- Every denial is true ----------------------------------------------------------------

  /** A tag outside the quadrant `own`, by its high nibble. */
  ghost predicate TagRefused(tag: u8, own: nat, error: BspError) {
    var nibble := tag / 16;
    || (error == WrongDirectionTag && (nibble == 8 || nibble == 9))
    || (error == WrongSessionTypeRange && nibble <= 1 && nibble != own)
    || (error == UnknownMessageType && nibble !in {0, 1, 8, 9})
  }

  /** A payload that is not exactly `length` bytes. */
  ghost predicate LengthRefused(p: seq<u8>, length: nat, error: BspError) {
    (error == TruncatedMessageBody && |p| < length) || (error == TrailingBytesAfterBody && |p| > length)
  }

  ghost predicate ChunkRefused(p: seq<u8>, error: BspError) {
    || (error == TruncatedMessageBody && |p| < 5)
    || (error == TruncatedVarBytesLength && 5 <= |p| < 7)
    || (error == VarBytesLengthExceedsMaximum && |p| >= 7 && U16Be(p[5..7]) > 4032)
    || (error == TruncatedVarBytesValue && |p| >= 7 && |p| < 7 + U16Be(p[5..7]))
    || (error == TrailingBytesAfterBody && |p| >= 7 && |p| > 7 + U16Be(p[5..7]))
  }

  /** What is wrong with the bytes of a client request. */
  ghost predicate RequestRefused(p: seq<u8>, error: BspError) {
    if p == [] then error == EmptyMessage
    else
      || TagRefused(p[0], 0, error)
      || (error == UnknownMessageType && p[0] < 16 && !(1 <= p[0] <= 5))
      || (p[0] == 1 && LengthRefused(p, 17, error))
      || (p[0] == 1 && |p| == 17 && error == MaxTokensExceedsLimit && U32Be(p[5..9]) > 4096)
      || (p[0] == 1 && |p| == 17 && error == PromptLengthExceedsLimit && U32Be(p[13..17]) > 16384)
      || (p[0] == 2 && ChunkRefused(p, error))
      || ((p[0] == 3 || p[0] == 4) && LengthRefused(p, 5, error))
      || (p[0] == 5 && LengthRefused(p, 1, error))
  }

  /** What is wrong with the bytes of an admin verb. */
  ghost predicate VerbRefused(p: seq<u8>, error: BspError) {
    if p == [] then error == EmptyMessage
    else
      || TagRefused(p[0], 1, error)
      || (error == UnknownMessageType && 16 <= p[0] < 32 && !(0x11 <= p[0] <= 0x16))
      || (p[0] == 0x11 && LengthRefused(p, 38, error))
      || (p[0] == 0x11 && |p| >= 6 && error == InvalidEnrollRole && p[5] !in {1, 2})
      || (p[0] == 0x12 && LengthRefused(p, 21, error))
      || (p[0] == 0x13 && LengthRefused(p, 37, error))
      || (p[0] == 0x14 && LengthRefused(p, 15, error))
      || (p[0] == 0x14 && |p| == 15 && error == AuditRecordCountExceedsLimit && U16Be(p[13..15]) > 64)
      || (p[0] == 0x15 && LengthRefused(p, 6, error))
      || (p[0] == 0x15 && |p| >= 6 && error == UnknownRestartTarget && !(1 <= p[5] <= 4))
      || (p[0] == 0x16 && LengthRefused(p, 5, error))
  }

  lemma RequestDenial(payload: Slice)
    requires ClientRequestOf(payload).Err?
    ensures RequestRefused(payload, ClientRequestOf(payload).error)
  {
    hide U16Be, U32Be;
    if payload != [] {
      var body := payload[1..];
      assert |body| >= 16 ==> body[4..8] == payload[5..9] && body[12..16] == payload[13..17];
      assert |body| >= 6 ==> body[4..][..2] == payload[5..7];
    }
  }

  lemma VerbDenial(payload: Slice)
    requires AdminVerbOf(payload).Err?
    ensures VerbRefused(payload, AdminVerbOf(payload).error)
  {
    hide U16Be, U32Be, U64Be;
    if payload != [] {
      var body := payload[1..];
      assert |body| >= 14 ==> body[12..14] == payload[13..15];
    }
  }

  /** What is wrong with a request in this phase. */
  ghost predicate PhaseRefused(phase: RequestPhase, m: ClientRequest, error: BspError) {
    || (error == RequestAlreadyInFlight && m.Begin? && !phase.Idle?)
    || (error == MessageInvalidInState && (m.PromptChunk? || m.InferCommit?) && !phase.Collecting?)
    || (error == MessageInvalidInState && m.Cancel? && phase.Idle?)
    || (&& error == RequestIdMismatch && !m.Begin? && !m.Close? && !phase.Idle? && m.requestId != phase.requestId)
    || (error == PromptIncomplete && m.InferCommit? && phase.Collecting? && phase.accumulated != phase.declared)
    || (&& error == PromptChunkExceedsDeclaredLength && m.PromptChunk? && phase.Collecting?
        && phase.accumulated + |m.chunk| > phase.declared)
  }

  lemma PhaseDenial(phase: RequestPhase, m: ClientRequest)
    requires phase.Collecting? ==> phase.accumulated <= phase.declared <= MAX_PROMPT_BYTES
    requires ClientWithin(m) && phase.Admit(m).Err?
    ensures PhaseRefused(phase, m, phase.Admit(m).error)
  {
  }

  /** What is wrong with a hello. */
  ghost predicate HelloRefused(b: seq<u8>, error: BspError) {
    if |b| != 64 then error == ClientHelloLengthMismatch
    else
      || (error == BadMagic && b[..4] != Ascii("BSP2"))
      || (error == UnsupportedVersionMajor && b[4] != 2)
      || (error == UnsupportedVersionMinor && b[5] != 0)
      || (error == ReservedFieldNonZero && b[6..8] != [0, 0])
  }

  lemma HelloDenial(b: seq<u8>)
    requires HelloOf(b).Err?
    ensures HelloRefused(b, HelloOf(b).error)
  {
    hide U64Be;
    assert MAGIC == Ascii("BSP2");
    if |b| == 64 && b[6..8] == [0, 0] {
      assert BeValue([0]) == 0 && BeValue([0, 0]) == 0 by { assert [0, 0][..1] == [0] && [0][..0] == []; }
    }
  }

  /** What is wrong with an event in this session. */
  ghost predicate Refused(s: Snapshot, e: Event, error: BspError) {
    match e
    case Hello(b) =>
      (error == HandshakeMessageInWrongState && !s.state.WaitHello?) || HelloRefused(b, error)
    case Auth(b) =>
      || (error == HandshakeMessageInWrongState && !s.state.WaitClientAuth?)
      || (error == ClientAuthLengthMismatch && |b| != 32)
    case Establish(_) => error == EstablishBeforeAuthentication && !s.state.AuthPending?
    case Message(p) =>
      || (error == SessionClosed && s.state.Closed?)
      || (error == DataMessageBeforeEstablished && !s.state.Established? && !s.state.Closed?)
      || (&& s.sessionType == Some(ClientSession)
          && (|| RequestRefused(p, error)
              || exists m :: p == ClientRequestBytes(m) && PhaseRefused(s.request, m, error)))
      || (s.sessionType == Some(AdminSession) && VerbRefused(p, error))
    case TearDown => false
  }

  /** In every run, whatever an event is denied with is really wrong with it. */
  lemma EveryDenialIsTrue(es: seq<Event>, e: Event)
    requires Step(Run(es), e).outcome.Denied?
    ensures Refused(Run(es), e, Step(Run(es), e).outcome.error)
  {
    hide Run, ClientRequestOf, AdminVerbOf, HelloOf, RequestPhase.Admit, RequestPhase.Next, ClientRequestBytes;
    hide RequestRefused, VerbRefused, HelloRefused, PhaseRefused, ClientWithin;
    var s := Run(es);
    EveryRunIsSafe(es);
    match e
    case Hello(b) =>
      if HelloOf(b).Err? {
        HelloDenial(b);
      }
    case Message(p) =>
      if ClientRequestOf(p).Err? {
        RequestDenial(p);
      } else {
        var m := ClientRequestOf(p).value;
        ClientCanonical(p, m);
        if s.request.Admit(m).Err? {
          PhaseDenial(s.request, m);
        }
      }
      if AdminVerbOf(p).Err? {
        VerbDenial(p);
      }
    case _ =>
  }
}
