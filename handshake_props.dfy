/**
 * What the handshake promises over whole runs: the shape of the outbound
 * trace, what happens before any challenge is issued, that nothing is read
 * after the verdict, and the end-to-end outcomes for an honest client, a
 * forged signature and a client that sends noise first.
 */
module HandshakeProperties {
  import opened Wrappers
  import opened Bytes
  import opened Messages
  import opened Connection
  import Text
  import Base64
  import Challenge
  import Response
  import Signature

  function Last<T>(s: seq<T>): T
    requires s != []
  {
    s[|s| - 1]
  }

  function Front<T>(s: seq<T>): seq<T>
    requires s != []
  {
    s[..|s| - 1]
  }

  /** Only "Not a challenge response" errors. */
  predicate RetriesOnly(s: seq<Outbound>)
  {
    forall i :: 0 <= i < |s| ==> s[i] == RetryMessage
  }

  /** SERVER_CHALLENGE followed by zero or more retry errors. */
  predicate ChallengeThenRetries(s: seq<Outbound>)
  {
    |s| >= 1 && s[0].ServerChallenge? && RetriesOnly(s[1..])
  }

  lemma ChallengeThenRetriesHasNoVerdict(s: seq<Outbound>)
    requires ChallengeThenRetries(s)
    ensures Authorized !in s && RejectMessage !in s
  {
  }

  lemma AppendRetry(s: seq<Outbound>)
    requires ChallengeThenRetries(s)
    ensures ChallengeThenRetries(s + [RetryMessage])
  {
    assert (s + [RetryMessage])[1..] == s[1..] + [RetryMessage];
  }

  /**
   * From a state awaiting a response after challenge-then-retries, every run
   * keeps that shape, except that a returned run may end with exactly one
   * verdict message: AUTHORIZED exactly when the result is nil, the
   * signature-failure error exactly with ErrSignatureDoesNotMatch.
   */
  predicate AfterChallenge(m: Machine, r: Machine)
  {
    m.sent <= r.sent && r.sent != []
    && (r.phase.AwaitingResponse? ==> r.phase == m.phase && ChallengeThenRetries(r.sent))
    && (ChallengeThenRetries(r.sent)
        || (ChallengeThenRetries(Front(r.sent)) && (Last(r.sent) == Authorized || Last(r.sent) == RejectMessage)))
    && (r.phase == Returned(None) <==> Last(r.sent) == Authorized)
    && (Last(r.sent) == RejectMessage ==> r.phase == Returned(Some(ErrSignatureDoesNotMatch)))
  }

  lemma {:induction false} RunShape(m: Machine, events: seq<Inbound>, env: Env)
    requires m.phase.AwaitingResponse? && ChallengeThenRetries(m.sent)
    ensures AfterChallenge(m, Run(m, events, env))
    decreases |events|
  {
    ChallengeThenRetriesHasNoVerdict(m.sent);
    if events != [] {
      var next := Step(m, events[0], env);
      StepVerdict(m, events[0], env);
      if next.phase.AwaitingResponse? {
        if next.sent != m.sent {
          AppendRetry(m.sent);
        }
        RunShape(next, events[1..], env);
      } else {
        assert Run(next, events[1..], env) == next;
        if next.sent != m.sent {
          assert Front(next.sent) == m.sent;
        }
      }
    }
  }

  /**
   * The outbound trace a handshake may leave. Success (nil) comes exactly
   * with a final AUTHORIZED after SERVER_CHALLENGE and retry errors, and
   * AUTHORIZED is sent nowhere else; the signature-failure error is final
   * and comes with ErrSignatureDoesNotMatch; a handshake still waiting has
   * sent the challenge and retry errors only; one that never sent the
   * challenge has returned an error after at most one message.
   */
  predicate TraceShape(r: Machine)
  {
    (r.phase == Returned(None) <==> r.sent != [] && Last(r.sent) == Authorized)
    && (Authorized in r.sent ==> r.phase == Returned(None) && ChallengeThenRetries(Front(r.sent)))
    && (r.sent != [] && Last(r.sent) == RejectMessage
        ==> r.phase == Returned(Some(ErrSignatureDoesNotMatch)) && ChallengeThenRetries(Front(r.sent)))
    && (r.phase.AwaitingResponse? ==> ChallengeThenRetries(r.sent))
    && (r.sent == [] || !r.sent[0].ServerChallenge? ==> r.phase.Returned? && r.phase.err.Some? && |r.sent| <= 1)
    && (r.sent != [] && r.sent[0].ServerChallenge?
        ==> ChallengeThenRetries(r.sent)
            || (ChallengeThenRetries(Front(r.sent)) && (Last(r.sent) == Authorized || Last(r.sent) == RejectMessage)))
  }

  /** Every handshake leaves a trace of that shape, however its events and environment behave. */
  lemma HandshakeTrace(clientIdParam: string, events: seq<Inbound>, env: Env)
    ensures TraceShape(Handshake(clientIdParam, events, env))
  {
    var m := Start(clientIdParam, env);
    assert Handshake(clientIdParam, events, env) == Run(m, events, env);
    if m.phase.AwaitingResponse? {
      assert m.sent[1..] == [];
      TraceAfterChallenge(m, events, env);
    } else {
      RunReturned(m, events, env);
      ReturnedBeforeChallenge(m);
    }
  }

  /** Returning before the challenge leaves at most one error message behind. */
  lemma ReturnedBeforeChallenge(m: Machine)
    requires m.phase.Returned? && m.phase.err.Some? && |m.sent| <= 1
    requires m.sent != [] ==> (m.sent[0].ClientError? && m.sent[0].title == BadClientIdTitle) || m.sent[0].ServerError?
    ensures TraceShape(m)
  {
  }

  /** The trace shape of every run that starts from an issued challenge. */
  lemma TraceAfterChallenge(m: Machine, events: seq<Inbound>, env: Env)
    requires m.phase.AwaitingResponse? && ChallengeThenRetries(m.sent)
    ensures TraceShape(Run(m, events, env))
  {
    RunShape(m, events, env);
    AfterChallengeTrace(m, Run(m, events, env));
  }

  /** A run shaped as above from an issued challenge leaves a trace of the expected shape. */
  lemma AfterChallengeTrace(m: Machine, r: Machine)
    requires m.phase.AwaitingResponse? && ChallengeThenRetries(m.sent)
    requires AfterChallenge(m, r)
    ensures TraceShape(r)
  {
    if ChallengeThenRetries(r.sent) {
      ChallengeThenRetriesHasNoVerdict(r.sent);
    } else {
      ChallengeThenRetriesHasNoVerdict(Front(r.sent));
      assert r.sent == Front(r.sent) + [Last(r.sent)];
    }
  }

  /**
   * An unresolvable client ID: one CLIENT_ERROR "Bad client ID was supplied"
   * (if it can be written) and the resolver's error, before any random bytes
   * are drawn or any frame is read - the random source and the inbound
   * frames make no difference.
   */
  lemma ResolutionFailure(clientIdParam: string, events: seq<Inbound>, env: Env,
                          otherEvents: seq<Inbound>, otherRandom: Challenge.RandomSource)
    requires env.resolve(Text.TrimSpace(clientIdParam)).Failure?
    ensures var e := env.resolve(Text.TrimSpace(clientIdParam)).error;
      Handshake(clientIdParam, events, env)
      == if env.writeError(0).Some? then Machine(Returned(Some(env.writeError(0).value)), [])
         else Machine(Returned(Some(e)), [ClientError(BadClientIdTitle, Cause(e))])
    ensures Handshake(clientIdParam, events, env) == Handshake(clientIdParam, otherEvents, env.(random := otherRandom))
  {
  }

  /**
   * A failed random draw: one SERVER_ERROR "Error generating challenge
   * payload" (if it can be written), no challenge, and the draw's error.
   */
  lemma ChallengeFailure(clientIdParam: string, events: seq<Inbound>, env: Env)
    requires env.resolve(Text.TrimSpace(clientIdParam)).Success?
    requires Challenge.ChallengePayload(env.random).Failure?
    ensures var e := Challenge.ChallengePayload(env.random).error;
      Handshake(clientIdParam, events, env)
      == if env.writeError(0).Some? then Machine(Returned(Some(env.writeError(0).value)), [])
         else Machine(Returned(Some(e)), [ServerError(ChallengeErrorTitle, Cause(e))])
  {
  }

  /**
   * An error result is either a collaborator's error or the signature
   * failure, and the signature failure comes with the rejection message last.
   */
  predicate ErrorAccounted(r: Machine)
  {
    r.phase.Returned? && r.phase.err.Some?
    ==> r.phase.err.value.ExternalError?
        || (r.phase.err.value == ErrSignatureDoesNotMatch && r.sent != [] && Last(r.sent) == RejectMessage)
  }

  /** The receive loop returns no error of its own except ErrSignatureDoesNotMatch, and that one only after the rejection. */
  lemma {:induction false} RunErrors(m: Machine, events: seq<Inbound>, env: Env)
    requires m.phase.AwaitingResponse?
    ensures ErrorAccounted(Run(m, events, env))
    decreases |events|
  {
    if events != [] {
      var next := Step(m, events[0], env);
      StepVerdict(m, events[0], env);
      if next.phase.AwaitingResponse? {
        RunErrors(next, events[1..], env);
      } else {
        RunReturned(next, events[1..], env);
      }
    }
  }

  /**
   * The caller can tell the outcomes apart: ErrSignatureDoesNotMatch exactly
   * when the signature-failure error was the last message sent,
   * ErrFailedToReadRandomNumbers exactly when the only message sent was the
   * SERVER_ERROR carrying it, and every other error is a collaborator's.
   * The parser's errors never reach the caller.
   */
  predicate Distinguishable(r: Machine)
  {
    (r.phase == Returned(Some(ErrSignatureDoesNotMatch)) <==> r.sent != [] && Last(r.sent) == RejectMessage)
    && (r.phase == Returned(Some(ErrFailedToReadRandomNumbers))
        <==> r.sent == [ServerError(ChallengeErrorTitle, Cause(ErrFailedToReadRandomNumbers))])
    && (r.phase.Returned? && r.phase.err.Some?
        ==> r.phase.err.value.ExternalError? || r.phase.err.value == ErrSignatureDoesNotMatch
            || r.phase.err.value == ErrFailedToReadRandomNumbers)
  }

  /** Every handshake's result tells the caller which way it ended. */
  lemma DistinguishableResults(clientIdParam: string, events: seq<Inbound>, env: Env)
    ensures Distinguishable(Handshake(clientIdParam, events, env))
  {
    var m := Start(clientIdParam, env);
    assert Handshake(clientIdParam, events, env) == Run(m, events, env);
    if m.phase.AwaitingResponse? {
      assert m.sent[1..] == [];
      RunDistinguishable(m, events, env);
    } else {
      RunReturned(m, events, env);
      StartErrors(clientIdParam, env);
    }
  }

  /** After the challenge, the only error of the handshake's own is the signature failure, after the rejection. */
  lemma RunDistinguishable(m: Machine, events: seq<Inbound>, env: Env)
    requires m.phase.AwaitingResponse? && ChallengeThenRetries(m.sent)
    ensures Distinguishable(Run(m, events, env))
  {
    var r := Run(m, events, env);
    RunErrors(m, events, env);
    RunShape(m, events, env);
    assert r.sent[0] == m.sent[0];
  }

  /** Before the loop, the only error of the handshake's own is a short random read, sent as SERVER_ERROR. */
  lemma StartErrors(clientIdParam: string, env: Env)
    requires Start(clientIdParam, env).phase.Returned?
    ensures Distinguishable(Start(clientIdParam, env))
  {
    var m := Start(clientIdParam, env);
    var resolved := env.resolve(Text.TrimSpace(clientIdParam));
    var payload := Challenge.ChallengePayload(env.random);
    if env.writeError(0).Some? {
      assert m == Machine(Returned(Some(env.writeError(0).value)), []);
    } else if resolved.Failure? {
      assert m == Machine(Returned(Some(resolved.error)), [ClientError(BadClientIdTitle, Cause(resolved.error))]);
    } else {
      assert payload.Failure?;
      assert m == Machine(Returned(Some(payload.error)), [ServerError(ChallengeErrorTitle, Cause(payload.error))]);
    }
  }

  /** The client ID is trimmed before use: surrounding whitespace makes no difference. */
  lemma ClientIdTrimmed(clientIdParam: string, events: seq<Inbound>, env: Env)
    ensures Handshake(clientIdParam, events, env) == Handshake(Text.TrimSpace(clientIdParam), events, env)
  {
    var trimmed := Text.TrimSpace(clientIdParam);
    assert Start(clientIdParam, env) == Start(trimmed, env) by {
      Text.TrimSpaceIdempotent(clientIdParam);
    }
    assert Handshake(clientIdParam, events, env) == Run(Start(clientIdParam, env), events, env);
    assert Handshake(trimmed, events, env) == Run(Start(trimmed, env), events, env);
  }

  /** Once the handshake has returned, no further frame is read. */
  lemma {:induction false} ReturnedIgnoresLaterEvents(m: Machine, events: seq<Inbound>, more: seq<Inbound>, env: Env)
    requires Run(m, events, env).phase.Returned?
    ensures Run(m, events + more, env) == Run(m, events, env)
    decreases |events|
  {
    if events != [] && m.phase.AwaitingResponse? {
      assert (events + more)[1..] == events[1..] + more;
      ReturnedIgnoresLaterEvents(Step(m, events[0], env), events[1..], more, env);
    }
  }

  /** A read error while waiting ends the handshake with that error; nothing is written or read after it. */
  lemma ReadErrorEnds(m: Machine, e: ExternalErr, rest: seq<Inbound>, env: Env)
    requires m.phase.AwaitingResponse?
    ensures Run(m, [ReadError(e)] + rest, env) == Machine(Returned(Some(e)), m.sent)
  {
    assert ([ReadError(e)] + rest)[1..] == rest;
  }

  /**
   * A data frame that does not parse costs one retry error and the wait
   * goes on with the next frame, unless writing the error fails.
   */
  lemma ParseFailureRetries(m: Machine, kind: int, data: seq<Byte>, rest: seq<Inbound>, env: Env)
    requires m.phase.AwaitingResponse? && IsDataFrame(kind)
    requires Response.ParseChallengeResponse(data, env.json).Failure?
    ensures Run(m, [Frame(kind, data)] + rest, env)
            == if env.writeError(|m.sent|).None? then Run(Machine(m.phase, m.sent + [RetryMessage]), rest, env)
               else Machine(Returned(Some(env.writeError(|m.sent|).value)), m.sent)
  {
    assert ([Frame(kind, data)] + rest)[1..] == rest;
  }

  /**
   * A response that parses but whose signature does not verify is final:
   * the signature-failure error and ErrSignatureDoesNotMatch (or the write's
   * error), whatever frames would follow.
   */
  lemma VerificationFailureIsFatal(m: Machine, kind: int, data: seq<Byte>, rest: seq<Inbound>, env: Env)
    requires m.phase.AwaitingResponse? && IsDataFrame(kind)
    requires Response.ParseChallengeResponse(data, env.json).Success?
    requires var resp := Response.ParseChallengeResponse(data, env.json).value;
             !Signature.VerifySignature(m.phase.key, resp.0, resp.1, env.crypto)
    ensures Run(m, [Frame(kind, data)] + rest, env)
            == if env.writeError(|m.sent|).None?
               then Machine(Returned(Some(ErrSignatureDoesNotMatch)), m.sent + [RejectMessage])
               else Machine(Returned(Some(env.writeError(|m.sent|).value)), m.sent)
  {
    assert ([Frame(kind, data)] + rest)[1..] == rest;
  }

  /**
   * A frame whose envelope is a CHALLENGE_RESPONSE carrying the base64 text
   * of pt and of sig.
   */
  predicate SignedResponse(frame: seq<Byte>, json: Json, pt: seq<Byte>, sig: seq<Byte>)
  {
    json.unmarshalMessage(frame).Success?
    && json.unmarshalMessage(frame).value.msgType == ChallengeResponseType
    && json.unmarshalResponse(json.unmarshalMessage(frame).value.data)
       == Success(ChallengeResponse(Base64.Encode(pt), Base64.Encode(sig)))
  }

  /**
   * A well-formed response decides the handshake at once: AUTHORIZED and nil
   * when the signature verifies over pt, the signature-failure error and
   * ErrSignatureDoesNotMatch when it does not. pt is whatever the client
   * sent: it is never compared with the challenge.
   */
  lemma SignedResponseDecides(m: Machine, kind: int, frame: seq<Byte>, pt: seq<Byte>, sig: seq<Byte>,
                              rest: seq<Inbound>, env: Env)
    requires m.phase.AwaitingResponse? && env.writeError(|m.sent|).None?
    requires IsDataFrame(kind)
    requires SignedResponse(frame, env.json, pt, sig)
    ensures Run(m, [Frame(kind, frame)] + rest, env)
            == if Signature.VerifySignature(m.phase.key, pt, sig, env.crypto)
               then Machine(Returned(None), m.sent + [Authorized])
               else Machine(Returned(Some(ErrSignatureDoesNotMatch)), m.sent + [RejectMessage])
  {
    Response.ParseEncodedResponse(frame, env.json, pt, sig);
    StepOnResponse(m, kind, frame, env);
    var next := Step(m, Frame(kind, frame), env);
    RunFirst(m, Frame(kind, frame), rest, env);
    RunReturned(next, rest, env);
  }

  /**
   * A well-formed response whose verdict cannot be written: the write's error
   * is returned, nothing is added, and no later frame is read - whichever
   * verdict it was.
   */
  lemma VerdictWriteFailure(m: Machine, kind: int, frame: seq<Byte>, pt: seq<Byte>, sig: seq<Byte>,
                            rest: seq<Inbound>, env: Env)
    requires m.phase.AwaitingResponse? && env.writeError(|m.sent|).Some?
    requires IsDataFrame(kind)
    requires SignedResponse(frame, env.json, pt, sig)
    ensures Run(m, [Frame(kind, frame)] + rest, env)
            == Machine(Returned(Some(env.writeError(|m.sent|).value)), m.sent)
  {
    Response.ParseEncodedResponse(frame, env.json, pt, sig);
    StepOnResponse(m, kind, frame, env);
    var next := Step(m, Frame(kind, frame), env);
    RunFirst(m, Frame(kind, frame), rest, env);
    RunReturned(next, rest, env);
  }

  /**
   * A resolvable key and a good draw, but the SERVER_CHALLENGE write fails:
   * that write's error is returned with nothing sent and no frame read.
   */
  lemma ChallengeWriteFailure(clientIdParam: string, events: seq<Inbound>, env: Env)
    requires env.resolve(Text.TrimSpace(clientIdParam)).Success?
    requires Challenge.ChallengePayload(env.random).Success?
    requires env.writeError(0).Some?
    ensures Handshake(clientIdParam, events, env) == Machine(Returned(Some(env.writeError(0).value)), [])
  {
    RunReturned(Start(clientIdParam, env), events, env);
  }

  /**
   * With a resolvable key, enough random bytes and a working connection the
   * handshake starts by sending the encoding of the first 128 random bytes
   * as SERVER_CHALLENGE and waits with the resolved key.
   */
  lemma ChallengeIssued(clientIdParam: string, env: Env)
    requires env.resolve(Text.TrimSpace(clientIdParam)).Success?
    requires env.random.failure.None? && |env.random.data| >= Challenge.ChallengeByteLength
    requires env.writeError(0).None?
    ensures Start(clientIdParam, env)
            == Machine(AwaitingResponse(env.resolve(Text.TrimSpace(clientIdParam)).value),
                       [ServerChallenge(Base64.Encode(env.random.data[..Challenge.ChallengeByteLength]))])
  {
  }

  /**
   * End to end: the key resolves, 128 random bytes are drawn, the client
   * answers with a valid signature; the server sends SERVER_CHALLENGE with the
   * encoding of those bytes, then AUTHORIZED, and returns nil.
   */
  lemma HonestClientAuthorized(clientIdParam: string, kind: int, frame: seq<Byte>, pt: seq<Byte>,
                               sig: seq<Byte>, rest: seq<Inbound>, env: Env)
    requires env.resolve(Text.TrimSpace(clientIdParam)).Success?
    requires env.random.failure.None? && |env.random.data| >= Challenge.ChallengeByteLength
    requires env.writeError(0).None? && env.writeError(1).None?
    requires IsDataFrame(kind)
    requires SignedResponse(frame, env.json, pt, sig)
    requires Signature.VerifySignature(env.resolve(Text.TrimSpace(clientIdParam)).value, pt, sig, env.crypto)
    ensures Handshake(clientIdParam, [Frame(kind, frame)] + rest, env)
            == Machine(Returned(None),
                       [ServerChallenge(Base64.Encode(env.random.data[..Challenge.ChallengeByteLength])), Authorized])
  {
    ChallengeIssued(clientIdParam, env);
    SignedResponseDecides(Start(clientIdParam, env), kind, frame, pt, sig, rest, env);
  }

  /**
   * End to end with a signature ECDSA rejects (say, over a payload with one
   * bit flipped): the signature-failure error, no AUTHORIZED, and
   * ErrSignatureDoesNotMatch.
   */
  lemma ForgedSignatureRejected(clientIdParam: string, kind: int, frame: seq<Byte>, pt: seq<Byte>,
                                sig: seq<Byte>, rest: seq<Inbound>, env: Env)
    requires env.resolve(Text.TrimSpace(clientIdParam)).Success?
    requires env.random.failure.None? && |env.random.data| >= Challenge.ChallengeByteLength
    requires env.writeError(0).None? && env.writeError(1).None?
    requires IsDataFrame(kind)
    requires SignedResponse(frame, env.json, pt, sig)
    requires !Signature.VerifySignature(env.resolve(Text.TrimSpace(clientIdParam)).value, pt, sig, env.crypto)
    ensures Handshake(clientIdParam, [Frame(kind, frame)] + rest, env)
            == Machine(Returned(Some(ErrSignatureDoesNotMatch)),
                       [ServerChallenge(Base64.Encode(env.random.data[..Challenge.ChallengeByteLength])), RejectMessage])
  {
    ChallengeIssued(clientIdParam, env);
    SignedResponseDecides(Start(clientIdParam, env), kind, frame, pt, sig, rest, env);
  }

  /** A frame that does not end the wait: a control frame, or data that does not parse. */
  predicate IsNoise(ev: Inbound, json: Json)
  {
    ev.Frame? && (!IsDataFrame(ev.kind) || Response.ParseChallengeResponse(ev.data, json).Failure?)
  }

  /** The number of data frames among the events. */
  function DataFrameCount(events: seq<Inbound>): nat
    decreases |events|
  {
    if events == [] then 0
    else (if events[0].Frame? && IsDataFrame(events[0].kind) then 1 else 0) + DataFrameCount(events[1..])
  }

  /** n copies of the retry error. */
  function Retries(n: nat): (s: seq<Outbound>)
    ensures |s| == n && RetriesOnly(s)
  {
    if n == 0 then [] else [RetryMessage] + Retries(n - 1)
  }

  /**
   * Noise never ends the wait: control frames are skipped silently and each
   * unparsable data frame costs exactly one retry error.
   */
  lemma {:induction false} RunOverNoise(m: Machine, noise: seq<Inbound>, tail: seq<Inbound>, env: Env)
    requires m.phase.AwaitingResponse?
    requires forall k :: env.writeError(k).None?
    requires forall i :: 0 <= i < |noise| ==> IsNoise(noise[i], env.json)
    ensures Run(m, noise + tail, env) == Run(Machine(m.phase, m.sent + Retries(DataFrameCount(noise))), tail, env)
    decreases |noise|
  {
    if noise == [] {
      assert noise + tail == tail;
      assert m.sent + [] == m.sent;
    } else {
      var next := Step(m, noise[0], env);
      assert (noise + tail)[1..] == noise[1..] + tail;
      assert IsNoise(noise[0], env.json);
      RunOverNoise(next, noise[1..], tail, env);
      if IsDataFrame(noise[0].kind) {
        assert next.sent == m.sent + [RetryMessage];
        assert m.sent + [RetryMessage] + Retries(DataFrameCount(noise[1..]))
               == m.sent + Retries(DataFrameCount(noise));
      }
    }
  }

  /**
   * Noise before a well-formed response only delays the verdict: one retry
   * error per unparsable data frame, then AUTHORIZED or the
   * signature-failure error as the signature decides.
   */
  lemma NoiseThenResponse(m: Machine, noise: seq<Inbound>, kind: int, frame: seq<Byte>,
                          pt: seq<Byte>, sig: seq<Byte>, env: Env)
    requires m.phase.AwaitingResponse?
    requires forall k :: env.writeError(k).None?
    requires forall i :: 0 <= i < |noise| ==> IsNoise(noise[i], env.json)
    requires IsDataFrame(kind)
    requires SignedResponse(frame, env.json, pt, sig)
    ensures var retried := m.sent + Retries(DataFrameCount(noise));
      Run(m, noise + [Frame(kind, frame)], env)
      == if Signature.VerifySignature(m.phase.key, pt, sig, env.crypto)
         then Machine(Returned(None), retried + [Authorized])
         else Machine(Returned(Some(ErrSignatureDoesNotMatch)), retried + [RejectMessage])
  {
    var answer := Frame(kind, frame);
    var waiting := Machine(m.phase, m.sent + Retries(DataFrameCount(noise)));
    assert Run(m, noise + [answer], env) == Run(waiting, [answer], env) by {
      RunOverNoise(m, noise, [answer], env);
    }
    assert Run(waiting, [answer], env) == Run(waiting, [answer] + [], env) by {
      assert [answer] + [] == [answer];
    }
    SignedResponseDecides(waiting, kind, frame, pt, sig, [], env);
  }

  /**
   * Noise before an honest answer does not stop the handshake: the trace is
   * SERVER_CHALLENGE, one retry error per unparsable data frame, AUTHORIZED.
   */
  lemma NoiseThenHonestClient(clientIdParam: string, noise: seq<Inbound>, kind: int, frame: seq<Byte>,
                              pt: seq<Byte>, sig: seq<Byte>, env: Env)
    requires env.resolve(Text.TrimSpace(clientIdParam)).Success?
    requires env.random.failure.None? && |env.random.data| >= Challenge.ChallengeByteLength
    requires forall k :: env.writeError(k).None?
    requires forall i :: 0 <= i < |noise| ==> IsNoise(noise[i], env.json)
    requires IsDataFrame(kind)
    requires SignedResponse(frame, env.json, pt, sig)
    requires Signature.VerifySignature(env.resolve(Text.TrimSpace(clientIdParam)).value, pt, sig, env.crypto)
    ensures Handshake(clientIdParam, noise + [Frame(kind, frame)], env)
            == Machine(Returned(None),
                       [ServerChallenge(Base64.Encode(env.random.data[..Challenge.ChallengeByteLength]))]
                       + Retries(DataFrameCount(noise)) + [Authorized])
  {
    ChallengeIssued(clientIdParam, env);
    NoiseThenResponse(Start(clientIdParam, env), noise, kind, frame, pt, sig, env);
  }
}
