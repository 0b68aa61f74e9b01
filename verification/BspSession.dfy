/** One BSP v2 connection: the handshake machine, the request phase, and every run of them. */
module BspSession {
  import opened Results
  import opened Bytes
  import opened BspWire
  import opened BspMessage
  import opened BspHandshake

  datatype SessionType = ClientSession | AdminSession

  datatype State = WaitHello | WaitClientAuth | AuthPending | Established | Closed

  datatype RequestPhase =
    | Idle
    | Collecting(requestId: u32, declared: u32, accumulated: u32)
    | Streaming(requestId: u32)
  {
    /** Decides whether `m` is legal in this phase; changes nothing. */
    function Admit(m: ClientRequest): (r: Result<(), BspError>) {
      match m
      case Begin(_) => if Idle? then Ok(()) else Err(RequestAlreadyInFlight)
      case PromptChunk(id, chunk) => AdmitChunk(id, |chunk|)
      case InferCommit(id) =>
        if !Collecting? then Err(MessageInvalidInState)
        else if requestId != id then Err(RequestIdMismatch)
        else if accumulated != declared then Err(PromptIncomplete)
        else Ok(())
      case Cancel(id) =>
        if Idle? then Err(MessageInvalidInState)
        else if requestId != id then Err(RequestIdMismatch)
        else Ok(())
      case Close => Ok(())
    }

    function AdmitChunk(id: u32, length: nat): (r: Result<(), BspError>) {
      if !Collecting? then Err(MessageInvalidInState)
      else if requestId != id then Err(RequestIdMismatch)
      else if length >= TWO_32 then Err(OffsetOverflow)
      else if accumulated + length >= TWO_32 then Err(PromptChunkExceedsPromptBuffer)
      else if accumulated + length > declared then Err(PromptChunkExceedsDeclaredLength)
      else if accumulated + length > MAX_PROMPT_BYTES then Err(PromptChunkExceedsPromptBuffer)
      else Ok(())
    }

    /** The phase an admitted message moves to, or none when it ends the session. */
    function Next(m: ClientRequest): (phase: Option<RequestPhase>) {
      match m
      case Begin(begin) => Some(Collecting(begin.requestId, begin.promptLength, 0))
      case PromptChunk(_, chunk) =>
        if Collecting? && accumulated + |chunk| < TWO_32
        then Some(Collecting(requestId, declared, accumulated + |chunk|)) else None
      case InferCommit(id) => Some(Streaming(id))
      case Cancel(_) => Some(Idle)
      case Close => None
    }
  }

  datatype InboundMessage = FromClient(request: ClientRequest) | FromAdmin(verb: AdminVerb)

  /** The value of a session's three fields. */
  datatype Snapshot = Snapshot(state: State, sessionType: Option<SessionType>, request: RequestPhase)

  const FRESH: Snapshot := Snapshot(WaitHello, None, Idle)
  const CLOSED: Snapshot := Snapshot(Closed, None, Idle)

  datatype Event =
    | Hello(bytes: Slice)
    | Auth(bytes: Slice)
    | Establish(sessionType: SessionType)
    | Message(payload: Slice)
    | TearDown

  datatype Outcome =
    | Heard(hello: ClientHello)
    | Authed(auth: ClientAuth)
    | Granted
    | Received(message: InboundMessage)
    | TornDown
    | Denied(error: BspError)

  datatype Transition = Transition(next: Snapshot, outcome: Outcome)

  // ---- One step ---------------------------------------------------------------

  function AfterDenial(s: Snapshot, e: BspError): (next: Snapshot) {
    if DispositionOf(e).Drop? then CLOSED else s
  }

  function Deny(s: Snapshot, e: BspError): (t: Transition) {
    Transition(AfterDenial(s, e), Denied(e))
  }

  function ClientStep(s: Snapshot, payload: Slice): (t: Transition) {
    match ClientRequestOf(payload)
    case Err(e) => Deny(s, e)
    case Ok(m) =>
      match s.request.Admit(m)
      case Err(e) => Deny(s, e)
      case Ok(_) => Transition(Applied(s, m), Received(FromClient(m)))
  }

  function Applied(s: Snapshot, m: ClientRequest): (next: Snapshot) {
    match s.request.Next(m)
    case Some(phase) => s.(request := phase)
    case None => CLOSED
  }

  function AdminStep(s: Snapshot, payload: Slice): (t: Transition) {
    match AdminVerbOf(payload)
    case Err(e) => Deny(s, e)
    case Ok(verb) => Transition(s, Received(FromAdmin(verb)))
  }

  function MessageStep(s: Snapshot, payload: Slice): (t: Transition) {
    match s.state
    case Closed => Deny(s, SessionClosed)
    case Established =>
      (match s.sessionType
       case Some(ClientSession) => ClientStep(s, payload)
       case Some(AdminSession) => AdminStep(s, payload)
       case None => Deny(s, DataMessageBeforeEstablished))
    case _ => Deny(s, DataMessageBeforeEstablished)
  }

  function HelloStep(s: Snapshot, bytes: seq<u8>): (t: Transition) {
    if !s.state.WaitHello? then Deny(s, HandshakeMessageInWrongState) else
    match HelloOf(bytes)
    case Err(e) => Deny(s, e)
    case Ok(hello) => Transition(s.(state := WaitClientAuth), Heard(hello))
  }

  function AuthStep(s: Snapshot, bytes: seq<u8>): (t: Transition) {
    if !s.state.WaitClientAuth? then Deny(s, HandshakeMessageInWrongState) else
    match AuthOf(bytes)
    case Err(e) => Deny(s, e)
    case Ok(auth) => Transition(s.(state := AuthPending), Authed(auth))
  }

  function EstablishStep(s: Snapshot, sessionType: SessionType): (t: Transition) {
    if !s.state.AuthPending? then Deny(s, EstablishBeforeAuthentication)
    else Transition(s.(state := Established, sessionType := Some(sessionType)), Granted)
  }

  function Step(s: Snapshot, e: Event): (t: Transition) {
    match e
    case Hello(bytes) => HelloStep(s, bytes)
    case Auth(bytes) => AuthStep(s, bytes)
    case Establish(sessionType) => EstablishStep(s, sessionType)
    case Message(payload) => MessageStep(s, payload)
    case TearDown => Transition(CLOSED, TornDown)
  }

  // ---- The session object -----------------------------------------------------------

  class Session {
    var state: State
    var sessionType: Option<SessionType>
    var request: RequestPhase

    function Value(): (s: Snapshot)
      reads this
    {
      Snapshot(state, sessionType, request)
    }

    constructor ()
      ensures Value() == FRESH
    {
      state, sessionType, request := WaitHello, None, Idle;
    }

    method CloseSession()
      modifies this
      ensures Value() == CLOSED
    {
      state, sessionType, request := Closed, None, Idle;
    }

    /** Applies the disposition of a failure. */
    method DenyWith(reason: BspError)
      modifies this
      ensures Value() == AfterDenial(old(Value()), reason)
    {
      if DispositionOf(reason) == Drop {
        CloseSession();
      }
    }

    method RequireState(expected: State, reason: BspError) returns (r: Result<(), BspError>)
      modifies this
      ensures r == if old(state) == expected then Ok(()) else Err(reason)
      ensures Value() == if r.Ok? then old(Value()) else AfterDenial(old(Value()), reason)
    {
      if state == expected {
        return Ok(());
      }
      DenyWith(reason);
      return Err(reason);
    }

    method RequireEstablished() returns (r: Result<(), BspError>)
      modifies this
      ensures r == match old(state)
        case Established => Ok(())
        case Closed => Err(SessionClosed)
        case _ => Err(DataMessageBeforeEstablished)
      ensures Value() == if r.Ok? then old(Value()) else AfterDenial(old(Value()), r.error)
    {
      match state
      case Established => return Ok(());
      case Closed =>
        DenyWith(SessionClosed);
        return Err(SessionClosed);
      case _ =>
        DenyWith(DataMessageBeforeEstablished);
        return Err(DataMessageBeforeEstablished);
    }

    /** Passes a success through and applies a failure's disposition. */
    method Record<T>(outcome: Result<T, BspError>) returns (r: Result<T, BspError>)
      modifies this
      ensures r == outcome
      ensures Value() == if r.Ok? then old(Value()) else AfterDenial(old(Value()), r.error)
    {
      if outcome.Err? {
        DenyWith(outcome.error);
      }
      return outcome;
    }

    method AcceptClientHello(bytes: Slice) returns (r: Result<ClientHello, BspError>)
      modifies this
      ensures Value() == HelloStep(old(Value()), bytes).next
      ensures HelloStep(old(Value()), bytes).outcome == if r.Ok? then Heard(r.value) else Denied(r.error)
    {
      hide HelloOf, DispositionOf;
      var _ :- RequireState(WaitHello, HandshakeMessageInWrongState);
      var decoded := DecodeHello(bytes);
      var hello :- Record(decoded);
      state := WaitClientAuth;
      return Ok(hello);
    }

    method AcceptClientAuth(bytes: Slice) returns (r: Result<ClientAuth, BspError>)
      modifies this
      ensures Value() == AuthStep(old(Value()), bytes).next
      ensures AuthStep(old(Value()), bytes).outcome == if r.Ok? then Authed(r.value) else Denied(r.error)
    {
      hide AuthOf, DispositionOf;
      var _ :- RequireState(WaitClientAuth, HandshakeMessageInWrongState);
      var decoded := DecodeAuth(bytes);
      var auth :- Record(decoded);
      state := AuthPending;
      return Ok(auth);
    }

    method EstablishAs(granted: SessionType) returns (r: Result<(), BspError>)
      modifies this
      ensures Value() == EstablishStep(old(Value()), granted).next
      ensures EstablishStep(old(Value()), granted).outcome == if r.Ok? then Granted else Denied(r.error)
    {
      hide DispositionOf;
      var _ :- RequireState(AuthPending, EstablishBeforeAuthentication);
      sessionType := Some(granted);
      state := Established;
      return Ok(());
    }

    method Apply(m: ClientRequest)
      modifies this
      ensures Value() == Applied(old(Value()), m)
    {
      match request.Next(m)
      case Some(phase) => request := phase;
      case None => CloseSession();
    }

    method AcceptClientRequest(payload: Slice) returns (r: Result<InboundMessage, BspError>)
      modifies this
      ensures Value() == ClientStep(old(Value()), payload).next
      ensures ClientStep(old(Value()), payload).outcome == if r.Ok? then Received(r.value) else Denied(r.error)
    {
      hide ClientRequestOf, DispositionOf, RequestPhase.Admit, RequestPhase.Next;
      var decoded := DecodeClientRequest(payload);
      var m :- Record(decoded);
      var _ :- Record(request.Admit(m));
      Apply(m);
      return Ok(FromClient(m));
    }

    method AcceptAdminVerb(payload: Slice) returns (r: Result<InboundMessage, BspError>)
      modifies this
      ensures Value() == AdminStep(old(Value()), payload).next
      ensures AdminStep(old(Value()), payload).outcome == if r.Ok? then Received(r.value) else Denied(r.error)
    {
      hide AdminVerbOf, DispositionOf;
      var decoded := DecodeAdminVerb(payload);
      var verb :- Record(decoded);
      return Ok(FromAdmin(verb));
    }

    /** Dispatches on the granted type, never on the payload. */
    method AcceptMessage(payload: Slice) returns (r: Result<InboundMessage, BspError>)
      modifies this
      ensures Value() == MessageStep(old(Value()), payload).next
      ensures MessageStep(old(Value()), payload).outcome == if r.Ok? then Received(r.value) else Denied(r.error)
    {
      hide ClientStep, AdminStep, DispositionOf;
      var _ :- RequireEstablished();
      match sessionType
      case Some(ClientSession) => r := AcceptClientRequest(payload);
      case Some(AdminSession) => r := AcceptAdminVerb(payload);
      case None =>
        DenyWith(DataMessageBeforeEstablished);
        r := Err(DataMessageBeforeEstablished);
    }
  }

  // ---- Runs from a fresh session -------------------------------------------------------

  function Run(es: seq<Event>): (s: Snapshot) {
    if es == [] then FRESH else Step(Run(es[..|es| - 1]), es[|es| - 1]).next
  }

  function At(es: seq<Event>, i: nat): (outcome: Outcome)
    requires i < |es|
  {
    Step(Run(es[..i]), es[i]).outcome
  }

  /** What an event at a prefix of a run yields does not depend on what follows. */
  lemma AtPrefix(es: seq<Event>, n: nat, i: nat)
    requires i < n <= |es|
    ensures At(es[..n], i) == At(es, i) && Run(es[..n][..i]) == Run(es[..i])
  {
    assert es[..n][..i] == es[..i];
  }

  // ---- Safety over every run ------------------------------------------------------------

  /** A capability exists exactly while established, and a request only on a client session. */
  ghost predicate Safe(s: Snapshot) {
    && (s.sessionType.Some? <==> s.state.Established?)
    && (!s.request.Idle? ==> s.sessionType == Some(ClientSession))
    && (s.request.Collecting? ==> s.request.accumulated <= s.request.declared <= MAX_PROMPT_BYTES)
  }

  lemma StepKeepsSafe(s: Snapshot, e: Event)
    requires Safe(s)
    ensures Safe(Step(s, e).next)
  {
    hide HelloOf, AuthOf, AdminVerbOf, DispositionOf, ClientRequestOf;
    if e.Message? && s.state.Established? && ClientRequestOf(e.payload).Ok? {
      DecodedIsWithin(e.payload);
    }
  }

  lemma DecodedIsWithin(payload: Slice)
    requires ClientRequestOf(payload).Ok?
    ensures ClientWithin(ClientRequestOf(payload).value)
  {
    hide ClientRequestOf, ClientRequestBytes, ClientWithin;
    ClientCanonical(payload, ClientRequestOf(payload).value);
  }

  lemma {:induction false} EveryRunIsSafe(es: seq<Event>)
    ensures Safe(Run(es))
  {
    hide Step, Safe;
    if es == [] {
      assert Safe(FRESH) by { FreshIsSafe(); }
    } else {
      EveryRunIsSafe(es[..|es| - 1]);
      StepKeepsSafe(Run(es[..|es| - 1]), es[|es| - 1]);
    }
  }

  lemma FreshIsSafe()
    ensures Safe(FRESH) && Safe(CLOSED)
  {
  }

  /** A `Drop` denial closes; an `ErrorKeep` denial leaves every field as it was. */
  lemma DenialMoves(s: Snapshot, e: Event)
    requires Step(s, e).outcome.Denied?
    ensures DispositionOf(Step(s, e).outcome.error).Drop? ==> Step(s, e).next == CLOSED
    ensures DispositionOf(Step(s, e).outcome.error).ErrorKeep? ==> Step(s, e).next == s
  {
    hide HelloOf, AuthOf, AdminVerbOf, DispositionOf, ClientRequestOf, RequestPhase.Admit, RequestPhase.Next;
  }

  lemma ClosedStep(e: Event)
    ensures Step(CLOSED, e).next == CLOSED
    ensures Step(CLOSED, e).outcome.Denied? || Step(CLOSED, e).outcome.TornDown?
  {
  }

  /** Once closed, a run stays closed and nothing is accepted. */
  lemma {:induction false} ClosedIsAbsorbing(es: seq<Event>, i: nat)
    requires i <= |es| && Run(es[..i]).state.Closed?
    ensures Run(es) == CLOSED
    ensures forall k :: i <= k < |es| ==> At(es, k).Denied? || At(es, k).TornDown?
  {
    hide Step;
    if i == |es| {
      assert es[..i] == es;
      ClosedValue(es);
    } else {
      var front := es[..|es| - 1];
      assert front[..i] == es[..i];
      ClosedIsAbsorbing(front, i);
      ClosedStep(es[|es| - 1]);
      forall k | i <= k < |es| ensures At(es, k).Denied? || At(es, k).TornDown? {
        if k < |es| - 1 {
          AtPrefix(es, |es| - 1, k);
        }
      }
    }
  }

  lemma ClosedValue(es: seq<Event>)
    requires Run(es).state.Closed?
    ensures Run(es) == CLOSED
  {
    hide Run;
    EveryRunIsSafe(es);
  }

  lemma GrantStep(s: Snapshot, e: Event)
    requires Safe(s) && s.sessionType.Some?
    ensures Step(s, e).next.sessionType == s.sessionType || Step(s, e).next == CLOSED
  {
    hide HelloOf, AuthOf, AdminVerbOf, DispositionOf, ClientRequestOf, RequestPhase.Admit, RequestPhase.Next;
  }

  /** A granted capability is frozen: later it is the same one, or the session is closed. */
  lemma {:induction false} CapabilityIsFrozen(es: seq<Event>, i: nat)
    requires i <= |es| && Run(es[..i]).sessionType.Some?
    ensures Run(es).sessionType == Run(es[..i]).sessionType || Run(es) == CLOSED
  {
    hide Step, Safe;
    if i == |es| {
      assert es[..i] == es;
    } else {
      var front := es[..|es| - 1];
      assert front[..i] == es[..i];
      CapabilityIsFrozen(front, i);
      EveryRunIsSafe(front);
      if Run(front) == CLOSED {
        ClosedStep(es[|es| - 1]);
      } else {
        GrantStep(Run(front), es[|es| - 1]);
      }
    }
  }

  // ---- Where a capability comes from ------------------------------------------------------

  /** The only ways into each stage of the handshake. */
  lemma StagesAreEnteredInOrder(s: Snapshot, e: Event)
    ensures var t := Step(s, e);
      && (t.next.state.WaitClientAuth? ==> t.outcome.Heard? || s.state.WaitClientAuth?)
      && (t.next.state.AuthPending? ==> if t.outcome.Authed? then s.state.WaitClientAuth? else s.state.AuthPending?)
      && (t.next.sessionType.Some? ==>
            if t.outcome.Granted? then s.state.AuthPending? && e == Establish(t.next.sessionType.value)
            else t.next.sessionType == s.sessionType)
  {
    hide HelloOf, AuthOf, AdminVerbOf, DispositionOf, ClientRequestOf, RequestPhase.Admit, RequestPhase.Next;
  }

  lemma {:induction false} HelloBefore(es: seq<Event>) returns (h: nat)
    requires Run(es).state.WaitClientAuth?
    ensures h < |es| && At(es, h).Heard?
  {
    hide Step;
    var n := |es| - 1;
    StagesAreEnteredInOrder(Run(es[..n]), es[n]);
    if At(es, n).Heard? {
      h := n;
    } else {
      h := HelloBefore(es[..n]);
      AtPrefix(es, n, h);
    }
  }

  lemma {:induction false} AuthBefore(es: seq<Event>) returns (h: nat, a: nat)
    requires Run(es).state.AuthPending?
    ensures h < a < |es| && At(es, h).Heard? && At(es, a).Authed?
  {
    hide Step;
    var n := |es| - 1;
    StagesAreEnteredInOrder(Run(es[..n]), es[n]);
    if At(es, n).Authed? {
      h := HelloBefore(es[..n]);
      a := n;
    } else {
      h, a := AuthBefore(es[..n]);
      AtPrefix(es, n, a);
    }
    AtPrefix(es, n, h);
  }

  /** Every capability was granted by an `Establish`, after an accepted auth, after an accepted hello. */
  lemma {:induction false} GrantBefore(es: seq<Event>) returns (h: nat, a: nat, g: nat)
    requires Run(es).sessionType.Some?
    ensures h < a < g < |es| && At(es, h).Heard? && At(es, a).Authed? && At(es, g).Granted?
    ensures es[g] == Establish(Run(es).sessionType.value)
  {
    hide Step;
    var n := |es| - 1;
    StagesAreEnteredInOrder(Run(es[..n]), es[n]);
    if At(es, n).Granted? {
      h, a := AuthBefore(es[..n]);
      g := n;
    } else {
      h, a, g := GrantBefore(es[..n]);
      AtPrefix(es, n, g);
    }
    AtPrefix(es, n, h);
    AtPrefix(es, n, a);
  }

  lemma DispatchStep(s: Snapshot, e: Event)
    requires Step(s, e).outcome.Received?
    ensures s.sessionType == Some(if Step(s, e).outcome.message.FromClient? then ClientSession else AdminSession)
  {
    hide HelloOf, AuthOf, AdminVerbOf, DispositionOf, ClientRequestOf, RequestPhase.Admit, RequestPhase.Next;
  }

  /** A verb is accepted only after an admin grant and a request only after a client one, each after its handshake. */
  lemma MessagesNeedTheirGrant(es: seq<Event>, i: nat) returns (h: nat, a: nat, g: nat)
    requires i < |es| && At(es, i).Received?
    ensures h < a < g < i && At(es, h).Heard? && At(es, a).Authed? && At(es, g).Granted?
    ensures es[g] == Establish(if At(es, i).message.FromClient? then ClientSession else AdminSession)
  {
    hide Step, Run;
    DispatchStep(Run(es[..i]), es[i]);
    h, a, g := GrantBefore(es[..i]);
    AtPrefix(es, i, h);
    AtPrefix(es, i, a);
    AtPrefix(es, i, g);
  }

  // ---- One request in flight -------------------------------------------------------------------

  ghost predicate InFlight(s: Snapshot, id: u32) {
    s == CLOSED || (!s.request.Idle? && s.request.requestId == id)
  }

  lemma InFlightStep(s: Snapshot, e: Event, id: u32)
    requires Safe(s) && InFlight(s, id) && Step(s, e).outcome != Received(FromClient(Cancel(id)))
    ensures InFlight(Step(s, e).next, id)
    ensures RequestOf(Step(s, e).outcome).Some? ==> !RequestOf(Step(s, e).outcome).value.Begin?
  {
    hide HelloOf, AuthOf, AdminVerbOf, DispositionOf, ClientRequestOf;
    if s == CLOSED {
      ClosedStep(e);
    }
  }

  lemma BeginStep(s: Snapshot, e: Event, begin: InferBegin)
    requires Step(s, e).outcome == Received(FromClient(Begin(begin)))
    ensures InFlight(Step(s, e).next, begin.requestId)
  {
    hide HelloOf, AuthOf, AdminVerbOf, DispositionOf, ClientRequestOf;
  }

  lemma {:induction false} StaysInFlight(es: seq<Event>, i: nat, j: nat, begin: InferBegin)
    requires i < j <= |es| && At(es, i) == Received(FromClient(Begin(begin)))
    requires forall k :: i < k < j ==> At(es, k) != Received(FromClient(Cancel(begin.requestId)))
    ensures InFlight(Run(es[..j]), begin.requestId)
    decreases j
  {
    hide Step, InFlight;
    assert es[..j][..j - 1] == es[..j - 1];
    if j == i + 1 {
      BeginStep(Run(es[..i]), es[i], begin);
    } else {
      StaysInFlight(es, i, j - 1, begin);
      EveryRunIsSafe(es[..j - 1]);
      assert At(es, j - 1) != Received(FromClient(Cancel(begin.requestId)));
      InFlightStep(Run(es[..j - 1]), es[j - 1], begin.requestId);
    }
  }

  /** Between two accepted begins, the first one's request was cancelled. */
  lemma OneRequestInFlight(es: seq<Event>, i: nat, j: nat, begin: InferBegin)
    requires i < j < |es| && At(es, i) == Received(FromClient(Begin(begin)))
    requires RequestOf(At(es, j)).Some? && RequestOf(At(es, j)).value.Begin?
    ensures exists k :: i < k < j && At(es, k) == Received(FromClient(Cancel(begin.requestId)))
  {
    hide Step, Run, InFlight;
    if forall k :: i < k < j ==> At(es, k) != Received(FromClient(Cancel(begin.requestId))) {
      StaysInFlight(es, i, j, begin);
      EveryRunIsSafe(es[..j]);
      if At(es, j) != Received(FromClient(Cancel(begin.requestId))) {
        InFlightStep(Run(es[..j]), es[j], begin.requestId);
      }
    }
  }

  // ---- Erasing refused messages --------------------------------------------------------------

  predicate IsKeptOpen(o: Outcome) {
    o.Denied? && DispositionOf(o.error).ErrorKeep?
  }

  /** A run without the events that were answered with an error and kept the session. */
  function Erased(es: seq<Event>): (kept: seq<Event>) {
    if es == [] then [] else
    var n := |es| - 1;
    Erased(es[..n]) + (if IsKeptOpen(At(es, n)) then [] else [es[n]])
  }

  /** Everything a run accepted or that ended it, in order. */
  function Effects(es: seq<Event>): (outcomes: seq<Outcome>) {
    if es == [] then [] else
    var n := |es| - 1;
    Effects(es[..n]) + (if IsKeptOpen(At(es, n)) then [] else [At(es, n)])
  }

  /** Deleting every `ErrorKeep`-denied event changes neither what happened nor the final session. */
  lemma {:induction false} ErasureIsInvisible(es: seq<Event>)
    ensures Run(Erased(es)) == Run(es)
    ensures Effects(Erased(es)) == Effects(es)
    ensures Erased(Erased(es)) == Erased(es)
  {
    hide Step, DispositionOf;
    if es != [] {
      var n := |es| - 1;
      var kept := Erased(es[..n]);
      ErasureIsInvisible(es[..n]);
      if IsKeptOpen(At(es, n)) {
        DenialMoves(Run(es[..n]), es[n]);
        assert Erased(es) == kept;
      } else {
        var whole := kept + [es[n]];
        assert Erased(es) == whole && whole[..|kept|] == kept && At(whole, |kept|) == At(es, n);
      }
    }
  }

  // ---- Prompt conservation ---------------------------------------------------------------------

  /** The client requests a run accepted, in order. */
  function Requests(es: seq<Event>): (requests: seq<ClientRequest>) {
    if es == [] then [] else
    var n := |es| - 1;
    match RequestOf(At(es, n))
    case Some(m) => Requests(es[..n]) + [m]
    case None => Requests(es[..n])
  }

  function RequestOf(o: Outcome): (request: Option<ClientRequest>) {
    if o.Received? && o.message.FromClient? then Some(o.message.request) else None
  }

  predicate AllChunksOf(ms: seq<ClientRequest>, id: u32) {
    forall k :: 0 <= k < |ms| ==> ms[k].PromptChunk? && ms[k].requestId == id
  }

  /** The prompt bytes carried by a sequence of chunks. */
  function Assembled(ms: seq<ClientRequest>): (prompt: seq<u8>) {
    if ms == [] then [] else
    var last := ms[|ms| - 1];
    Assembled(ms[..|ms| - 1]) + (if last.PromptChunk? then last.chunk else [])
  }

  /** Accepted request `b` opened request `id`, and everything accepted after it is a chunk of it. */
  ghost predicate Opens(ms: seq<ClientRequest>, b: nat, id: u32, declared: u32) {
    && b < |ms| && ms[b].Begin? && ms[b].begin.requestId == id && ms[b].begin.promptLength == declared
    && AllChunksOf(ms[b + 1..], id)
  }

  /** One more chunk of an open request lengthens its prompt by that chunk. */
  lemma ChunkExtends(ms: seq<ClientRequest>, b: nat, id: u32, declared: u32, chunk: seq<u8>)
    requires Opens(ms, b, id, declared)
    ensures var longer := ms + [PromptChunk(id, chunk)];
      && Opens(longer, b, id, declared)
      && |Assembled(longer[b + 1..])| == |Assembled(ms[b + 1..])| + |chunk|
  {
    var longer := ms + [PromptChunk(id, chunk)];
    var tail := longer[b + 1..];
    assert tail == ms[b + 1..] + [PromptChunk(id, chunk)] && tail[..|tail| - 1] == ms[b + 1..];
  }

  lemma BeginOpens(ms: seq<ClientRequest>, begin: InferBegin)
    ensures var longer := ms + [Begin(begin)];
      Opens(longer, |ms|, begin.requestId, begin.promptLength) && longer[|ms| + 1..] == []
  {
  }

  /** An open request's accumulator is exactly the prompt bytes accepted since it was opened. */
  lemma {:induction false} Reassembly(es: seq<Event>) returns (b: nat)
    requires Run(es).request.Collecting?
    ensures var phase, ms := Run(es).request, Requests(es);
      && Opens(ms, b, phase.requestId, phase.declared)
      && |Assembled(ms[b + 1..])| == phase.accumulated
  {
    hide Step, Opens, At;
    var n := |es| - 1;
    var before := Requests(es[..n]);
    CollectingStep(Run(es[..n]), es[n]);
    LastOutcome(es);
    match RequestOf(At(es, n))
    case None =>
      b := Reassembly(es[..n]);
    case Some(m) =>
      if m.Begin? {
        b := |before|;
        BeginOpens(before, m.begin);
      } else {
        b := Reassembly(es[..n]);
        ChunkExtends(before, b, m.requestId, Run(es).request.declared, m.chunk);
      }
  }

  lemma LastOutcome(es: seq<Event>)
    requires es != []
    ensures At(es, |es| - 1) == Step(Run(es[..|es| - 1]), es[|es| - 1]).outcome
  {
  }

  /** The three ways to be collecting after a step: opened, one chunk longer, or as before. */
  lemma CollectingStep(s: Snapshot, e: Event)
    requires Step(s, e).next.request.Collecting?
    ensures var phase, o := Step(s, e).next.request, Step(s, e).outcome;
      match RequestOf(o)
      case Some(m) =>
        if m.Begin? then phase == Collecting(m.begin.requestId, m.begin.promptLength, 0)
        else (
          && s.request.Collecting? && m.PromptChunk? && m.requestId == s.request.requestId
          && phase == Collecting(m.requestId, s.request.declared, s.request.accumulated + |m.chunk|))
      case None => phase == s.request
  {
    hide HelloOf, AuthOf, AdminVerbOf, DispositionOf, ClientRequestOf;
  }

  lemma AssembledGrows(ms: seq<ClientRequest>, j: nat)
    requires j <= |ms|
    ensures |Assembled(ms[..j])| <= |Assembled(ms)|
    decreases |ms|
  {
    if j == |ms| {
      assert ms[..j] == ms;
    } else {
      assert ms[..|ms| - 1][..j] == ms[..j];
      AssembledGrows(ms[..|ms| - 1], j);
    }
  }

  /** The prompt bytes accepted after request `b` and before request `j`. */
  function PromptBetween(ms: seq<ClientRequest>, b: nat, j: nat): (prompt: seq<u8>)
    requires b < j <= |ms|
  {
    Assembled(ms[b + 1..j])
  }

  /** While a request is open, its prompt never exceeded what it declared at any earlier point. */
  lemma PromptNeverOverruns(es: seq<Event>) returns (b: nat)
    requires Run(es).request.Collecting?
    ensures var phase, ms := Run(es).request, Requests(es);
      && Opens(ms, b, phase.requestId, phase.declared)
      && forall j :: b < j <= |ms| ==> |PromptBetween(ms, b, j)| <= phase.declared
  {
    hide Run, Requests, Assembled;
    b := Reassembly(es);
    EveryRunIsSafe(es);
    var ms := Requests(es);
    forall j | b < j <= |ms| ensures |PromptBetween(ms, b, j)| <= Run(es).request.declared {
      assert ms[b + 1..][..j - b - 1] == ms[b + 1..j];
      AssembledGrows(ms[b + 1..], j - b - 1);
    }
  }

  lemma CommitStep(s: Snapshot, e: Event, id: u32)
    requires Step(s, e).outcome == Received(FromClient(InferCommit(id)))
    ensures s.request.Collecting? && s.request.requestId == id && s.request.accumulated == s.request.declared
  {
    hide HelloOf, AuthOf, AdminVerbOf, DispositionOf, ClientRequestOf;
  }

  /**
   Prompt conservation: at every accepted commit, the requests accepted since that
   request's begin are all chunks of it, and their bytes are exactly as many as it
   declared, which is at most the prompt buffer.
   */
  lemma CommitConservesPrompt(es: seq<Event>, i: nat, id: u32) returns (b: nat)
    requires i < |es| && At(es, i) == Received(FromClient(InferCommit(id)))
    ensures var ms := Requests(es[..i]);
      && b < |ms| && ms[b].Begin? && Opens(ms, b, id, ms[b].begin.promptLength)
      && |Assembled(ms[b + 1..])| == ms[b].begin.promptLength <= MAX_PROMPT_BYTES
  {
    hide Run, Requests, Assembled, Step;
    CommitStep(Run(es[..i]), es[i], id);
    b := Reassembly(es[..i]);
    EveryRunIsSafe(es[..i]);
  }

  // ---- What an honest client can count on --------------------------------------------------------

  function ChunkEvents(id: u32, chunks: seq<seq<u8>>): (es: seq<Event>)
    requires forall k :: 0 <= k < |chunks| ==> |chunks[k]| <= MAX_PROMPT_CHUNK
  {
    if chunks == [] then [] else
    ChunkEvents(id, chunks[..|chunks| - 1]) + [Send(PromptChunk(id, chunks[|chunks| - 1]))]
  }

  function Send(m: ClientRequest): (e: Event)
    requires ClientWithin(m)
  {
    SendableLength(m);
    Message(ClientRequestBytes(m))
  }

  lemma SendableLength(m: ClientRequest)
    requires ClientWithin(m)
    ensures |ClientRequestBytes(m)| <= MAX_RECORD_PLAINTEXT
  {
    hide BeBytes;
  }

  function Concat(chunks: seq<seq<u8>>): (bytes: seq<u8>) {
    if chunks == [] then [] else Concat(chunks[..|chunks| - 1]) + chunks[|chunks| - 1]
  }

  /** A sent request in a client session is admitted exactly by the request phase. */
  lemma SentStep(s: Snapshot, m: ClientRequest)
    requires ClientWithin(m) && s.state.Established? && s.sessionType == Some(ClientSession)
    requires s.request.Admit(m).Ok?
    ensures Step(s, Send(m)) == Transition(Applied(s, m), Received(FromClient(m)))
  {
    hide ClientRequestOf, ClientRequestBytes, Applied, RequestPhase.Admit;
    SendableLength(m);
    ClientCanonical(ClientRequestBytes(m), m);
  }

  /** Follows a run with more events. */
  function Continue(s: Snapshot, es: seq<Event>): (t: Snapshot) {
    if es == [] then s else Step(Continue(s, es[..|es| - 1]), es[|es| - 1]).next
  }

  /** Chunks that add up to no more than was declared are all taken. */
  lemma {:induction false} ChunksAreTaken(s: Snapshot, chunks: seq<seq<u8>>)
    requires s.state.Established? && s.sessionType == Some(ClientSession) && s.request.Collecting?
    requires forall k :: 0 <= k < |chunks| ==> |chunks[k]| <= MAX_PROMPT_CHUNK
    requires s.request.accumulated + |Concat(chunks)| <= s.request.declared <= MAX_PROMPT_BYTES
    ensures Continue(s, ChunkEvents(s.request.requestId, chunks))
         == s.(request := s.request.(accumulated := s.request.accumulated + |Concat(chunks)|))
  {
    hide Step, Send;
    if chunks != [] {
      var n := |chunks| - 1;
      ChunksAreTaken(s, chunks[..n]);
      var id := s.request.requestId;
      var es := ChunkEvents(id, chunks);
      assert es[..|es| - 1] == ChunkEvents(id, chunks[..n]);
      SentStep(Continue(s, ChunkEvents(id, chunks[..n])), PromptChunk(id, chunks[n]));
    }
  }

  /**
   The other half of conservation: from an idle client session, a begin within its limits
   followed by any chunks that add up to exactly its declared length is committed.
   */
  lemma ExactPromptCommits(s: Snapshot, begin: InferBegin, chunks: seq<seq<u8>>)
    requires s.state.Established? && s.sessionType == Some(ClientSession) && s.request.Idle?
    requires ClientWithin(Begin(begin))
    requires forall k :: 0 <= k < |chunks| ==> |chunks[k]| <= MAX_PROMPT_CHUNK
    requires |Concat(chunks)| == begin.promptLength
    ensures var begun := Step(s, Send(Begin(begin))).next;
      var filled := Continue(begun, ChunkEvents(begin.requestId, chunks));
      var commit := Step(filled, Send(InferCommit(begin.requestId)));
      commit == Transition(s.(request := Streaming(begin.requestId)),
                           Received(FromClient(InferCommit(begin.requestId))))
  {
    hide Step, Send, Continue, ChunkEvents, Concat;
    SentStep(s, Begin(begin));
    var begun := s.(request := Collecting(begin.requestId, begin.promptLength, 0));
    ChunksAreTaken(begun, chunks);
    SentStep(begun.(request := begun.request.(accumulated := begin.promptLength)), InferCommit(begin.requestId));
  }

  /** No message ends a stream: only its own cancel, or the end of the session, leaves `Streaming`. */
  lemma StreamingLeavesByCancelOrClose(es: seq<Event>, e: Event)
    requires Run(es).request.Streaming?
    ensures var t := Step(Run(es), e);
      || t.next == Run(es)
      || t.next == CLOSED
      || (t.outcome == Received(FromClient(Cancel(Run(es).request.requestId))) && t.next.request.Idle?)
  {
    hide Run, HelloOf, AuthOf, AdminVerbOf, DispositionOf, ClientRequestOf;
    EveryRunIsSafe(es);
  }

  // ---- Denials that never happen -----------------------------------------------------------------

  predicate IsOverflow(e: BspError) {
    e.OffsetOverflow? || e.PromptChunkExceedsPromptBuffer?
  }

  lemma DecodersNeverOverflow(payload: Slice)
    ensures ClientRequestOf(payload).Err? ==> !IsOverflow(ClientRequestOf(payload).error)
    ensures AdminVerbOf(payload).Err? ==> !IsOverflow(AdminVerbOf(payload).error)
  {
    hide U16Be, U32Be, U64Be;
  }

  lemma AdmitNeverOverflows(phase: RequestPhase, m: ClientRequest)
    requires phase.Collecting? ==> phase.accumulated <= phase.declared <= MAX_PROMPT_BYTES
    requires ClientWithin(m) && phase.Admit(m).Err?
    ensures !IsOverflow(phase.Admit(m).error)
  {
  }

  /** The buffer bound behind the declared bound, and both overflow guards, never deny in any run. */
  lemma OverflowIsUnreachable(es: seq<Event>, i: nat)
    requires i < |es| && At(es, i).Denied?
    ensures !IsOverflow(At(es, i).error)
  {
    hide Run, HelloOf, AdminVerbOf, DispositionOf, ClientRequestOf, RequestPhase.Admit, RequestPhase.Next;
    var s, e := Run(es[..i]), es[i];
    EveryRunIsSafe(es[..i]);
    match e
    case Message(payload) =>
      DecodersNeverOverflow(payload);
      if ClientRequestOf(payload).Ok? && s.request.Admit(ClientRequestOf(payload).value).Err? {
        DecodedIsWithin(payload);
        AdmitNeverOverflows(s.request, ClientRequestOf(payload).value);
      }
    case Hello(bytes) => HelloNeverOverflows(bytes);
    case _ =>
  }

  lemma HelloNeverOverflows(bytes: seq<u8>)
    ensures HelloOf(bytes).Err? ==> !IsOverflow(HelloOf(bytes).error)
  {
    hide U16Be, U64Be;
  }
}
