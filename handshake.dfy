/**
 * HandleAuthConnection: resolve the client's key, issue a challenge, then
 * read frames until one carries a response whose signature can be judged.
 *
 * The connection is modelled by its inbound events and by the outcome of
 * each write; the pure machine Start/Step/Run gives the reference behaviour
 * and the method HandleAuthConnection runs the same protocol as a loop.
 */
module Connection {
  import opened Wrappers
  import opened Bytes
  import opened Messages
  import Text
  import Challenge
  import Response
  import Signature

  /** The websocket message types that carry data. */
  const TextMessage: int := 1
  const BinaryMessage: int := 2

  /** One result of reading from the connection: a frame, or the read's error. */
  datatype Inbound = Frame(kind: int, data: seq<Byte>) | ReadError(err: ExternalErr)

  /**
   * Everything the handshake consults besides the inbound frames: the key
   * resolver, the random source, the JSON decoder, the crypto primitives and
   * the outcome of the k-th write on the connection (None = written).
   */
  datatype Env = Env(
    resolve: string -> Result<Signature.PublicKey, ExternalErr>,
    random: Challenge.RandomSource,
    json: Json,
    crypto: Signature.Crypto,
    writeError: nat -> Option<ExternalErr>)

  /**
   * Waiting for a challenge response with the resolved key, or returned to
   * the caller with an error (None is Go's nil: the client is authorized).
   */
  datatype Phase = AwaitingResponse(key: Signature.PublicKey) | Returned(err: Option<Error>)

  /** The handshake's phase and the messages written so far, in order. */
  datatype Machine = Machine(phase: Phase, sent: seq<Outbound>)

  /**
   * Writes msg. Every failed write ends the handshake, so the index of the
   * write being attempted is the number of messages already sent.
   */
  function Write(sent: seq<Outbound>, msg: Outbound, env: Env): (r: Result<seq<Outbound>, Error>)
    ensures r.Success? <==> env.writeError(|sent|).None?
    ensures r.Success? ==> r.value == sent + [msg]
    ensures r.Failure? ==> r.error == env.writeError(|sent|).value
  {
    match env.writeError(|sent|)
    case Some(e) => Failure(e)
    case None => Success(sent + [msg])
  }

  /** Writes msg and returns result; a failed write returns the write's error instead. */
  function SendThenReturn(sent: seq<Outbound>, msg: Outbound, result: Option<Error>, env: Env): Machine
  {
    match Write(sent, msg, env)
    case Failure(e) => Machine(Returned(Some(e)), sent)
    case Success(s) => Machine(Returned(result), s)
  }

  /**
   * Everything before the receive loop: trim and resolve the client ID,
   * draw the challenge, send it.
   */
  function Start(clientIdParam: string, env: Env): (m: Machine)
    ensures m.phase.AwaitingResponse? <==>
              env.resolve(Text.TrimSpace(clientIdParam)).Success?
              && Challenge.ChallengePayload(env.random).Success? && env.writeError(0).None?
    ensures m.phase.AwaitingResponse? ==>
              m.phase.key == env.resolve(Text.TrimSpace(clientIdParam)).value
              && m.sent == [ServerChallenge(Challenge.ChallengePayload(env.random).value)]
    ensures m.phase.Returned? ==> m.phase.err.Some? && |m.sent| <= 1
    ensures m.phase.Returned? && m.sent != [] ==> (m.sent[0].ClientError? && m.sent[0].title == BadClientIdTitle) || m.sent[0].ServerError?
    ensures env.resolve(Text.TrimSpace(clientIdParam)).Success? && Challenge.ChallengePayload(env.random).Success?
            && env.writeError(0).Some?
            ==> m == Machine(Returned(Some(env.writeError(0).value)), [])
  {
    match env.resolve(Text.TrimSpace(clientIdParam))
    case Failure(e) => SendThenReturn([], ClientError(BadClientIdTitle, Cause(e)), Some(e), env)
    case Success(key) =>
      match Challenge.ChallengePayload(env.random)
      case Failure(e) => SendThenReturn([], ServerError(ChallengeErrorTitle, Cause(e)), Some(e), env)
      case Success(payload) =>
        match Write([], ServerChallenge(payload), env)
        case Failure(e) => Machine(Returned(Some(e)), [])
        case Success(sent) => Machine(AwaitingResponse(key), sent)
  }

  /** Whether a frame of this kind is handed to the parser (others are skipped). */
  predicate IsDataFrame(kind: int)
  {
    kind == TextMessage || kind == BinaryMessage
  }

  /** One pass of the receive loop, for one inbound event. */
  function Step(m: Machine, ev: Inbound, env: Env): (r: Machine)
    ensures m.phase.Returned? ==> r == m
    ensures m.sent <= r.sent && |r.sent| <= |m.sent| + 1
    ensures r.phase.AwaitingResponse? ==> r.phase == m.phase
    ensures m.phase.AwaitingResponse? && ev.ReadError? ==> r == Machine(Returned(Some(ev.err)), m.sent)
    ensures ev.Frame? && !IsDataFrame(ev.kind) ==> r == m
    ensures m.phase.AwaitingResponse? && ev.Frame? && r.sent == m.sent && r.phase != m.phase
            ==> env.writeError(|m.sent|).Some? && r.phase == Returned(Some(env.writeError(|m.sent|).value))
    ensures r.phase.AwaitingResponse? && r.sent != m.sent ==> r.sent == m.sent + [RetryMessage]
  {
    match m.phase
    case Returned(_) => m
    case AwaitingResponse(key) =>
      match ev
      case ReadError(e) => Machine(Returned(Some(e)), m.sent)
      case Frame(kind, data) =>
        if !IsDataFrame(kind) then m
        else match Response.ParseChallengeResponse(data, env.json)
          case Failure(_) =>
            (match Write(m.sent, RetryMessage, env)
             case Failure(e) => Machine(Returned(Some(e)), m.sent)
             case Success(s) => Machine(m.phase, s))
          case Success(resp) =>
            if !Signature.VerifySignature(key, resp.0, resp.1, env.crypto) then
              SendThenReturn(m.sent, RejectMessage, Some(ErrSignatureDoesNotMatch), env)
            else
              SendThenReturn(m.sent, Authorized, None, env)
  }

  /**
   * The only messages a pass that returns can add are the verdicts:
   * AUTHORIZED with nil, or the signature-failure error with
   * ErrSignatureDoesNotMatch; nil is never returned without AUTHORIZED.
   */
  lemma StepVerdict(m: Machine, ev: Inbound, env: Env)
    requires m.phase.AwaitingResponse?
    ensures var r := Step(m, ev, env);
      r.phase.Returned? && r.sent != m.sent
      ==> (r.sent == m.sent + [Authorized] && r.phase == Returned(None))
          || (r.sent == m.sent + [RejectMessage] && r.phase == Returned(Some(ErrSignatureDoesNotMatch)))
    ensures var r := Step(m, ev, env);
      r.phase == Returned(None) ==> r.sent != m.sent
  {
  }

  /** The receive loop over the events available, stopping once the handshake has returned. */
  function Run(m: Machine, events: seq<Inbound>, env: Env): (r: Machine)
    ensures m.sent <= r.sent && |r.sent| <= |m.sent| + |events|
    decreases |events|
  {
    if events == [] || m.phase.Returned? then m
    else Run(Step(m, events[0], env), events[1..], env)
  }

  /** Run takes the first event through Step while the handshake is waiting. */
  lemma RunFirst(m: Machine, ev: Inbound, rest: seq<Inbound>, env: Env)
    requires m.phase.AwaitingResponse?
    ensures Run(m, [ev] + rest, env) == Run(Step(m, ev, env), rest, env)
  {
    assert ([ev] + rest)[1..] == rest;
  }

  /** Once returned, Run reads nothing more. */
  lemma RunReturned(m: Machine, events: seq<Inbound>, env: Env)
    requires m.phase.Returned?
    ensures Run(m, events, env) == m
  {
  }

  /**
   * A data frame that parses decides the handshake in that pass: the verdict
   * write's error if it fails, else AUTHORIZED and nil when the signature
   * verifies and the signature-failure error otherwise.
   */
  lemma StepOnResponse(m: Machine, kind: int, data: seq<Byte>, env: Env)
    requires m.phase.AwaitingResponse? && IsDataFrame(kind)
    requires Response.ParseChallengeResponse(data, env.json).Success?
    ensures var resp := Response.ParseChallengeResponse(data, env.json).value;
      Step(m, Frame(kind, data), env)
      == if env.writeError(|m.sent|).Some? then Machine(Returned(Some(env.writeError(|m.sent|).value)), m.sent)
         else if Signature.VerifySignature(m.phase.key, resp.0, resp.1, env.crypto)
         then Machine(Returned(None), m.sent + [Authorized])
         else Machine(Returned(Some(ErrSignatureDoesNotMatch)), m.sent + [RejectMessage])
  {
  }

  /**
   * The whole handshake as far as the given events take it. A result still
   * AwaitingResponse means the server is blocked reading the next frame.
   */
  function Handshake(clientIdParam: string, events: seq<Inbound>, env: Env): (m: Machine)
    ensures |m.sent| <= 1 + |events|
  {
    Run(Start(clientIdParam, env), events, env)
  }

  /**
   * HandleAuthConnection, step by step: the messages it writes and the
   * phase it ends in are exactly those of the reference machine.
   */
  method HandleAuthConnection(clientIdParam: string, events: seq<Inbound>, env: Env)
    returns (sent: seq<Outbound>, phase: Phase)
    ensures Machine(phase, sent) == Handshake(clientIdParam, events, env)
  {
    sent := [];
    var clientId := Text.TrimSpace(clientIdParam);
    var resolved := env.resolve(clientId);
    if resolved.Failure? {
      var w := Write(sent, ClientError(BadClientIdTitle, Cause(resolved.error)), env);
      if w.Failure? {
        return sent, Returned(Some(w.error));
      }
      return w.value, Returned(Some(resolved.error));
    }
    var key := resolved.value;

    var payload := Challenge.GetChallengePayload(env.random);
    if payload.Failure? {
      var w := Write(sent, ServerError(ChallengeErrorTitle, Cause(payload.error)), env);
      if w.Failure? {
        return sent, Returned(Some(w.error));
      }
      return w.value, Returned(Some(payload.error));
    }

    var w := Write(sent, ServerChallenge(payload.value), env);
    if w.Failure? {
      return sent, Returned(Some(w.error));
    }
    sent := w.value;

    var i := 0;
    var verified := false;
    while i < |events|
      invariant 0 <= i <= |events|
      invariant Run(Machine(AwaitingResponse(key), sent), events[i..], env) == Handshake(clientIdParam, events, env)
    {
      var ev := events[i];
      assert events[i..][1..] == events[i + 1..];
      i := i + 1;
      if ev.ReadError? {
        return sent, Returned(Some(ev.err));
      }
      if !IsDataFrame(ev.kind) {
        continue;
      }
      var parsed := Response.ParseChallengeResponse(ev.data, env.json);
      if parsed.Failure? {
        w := Write(sent, RetryMessage, env);
        if w.Failure? {
          return sent, Returned(Some(w.error));
        }
        sent := w.value;
        continue;
      }
      var (pt, sig) := parsed.value;
      if !Signature.VerifySignature(key, pt, sig, env.crypto) {
        w := Write(sent, RejectMessage, env);
        if w.Failure? {
          return sent, Returned(Some(w.error));
        }
        return w.value, Returned(Some(ErrSignatureDoesNotMatch));
      }
      verified := true;
      break;
    }
    if !verified {
      return sent, AwaitingResponse(key);
    }

    w := Write(sent, Authorized, env);
    if w.Failure? {
      return sent, Returned(Some(w.error));
    }
    return w.value, Returned(None);
  }
}
