/**
 * Reading a client's CHALLENGE_RESPONSE: outer envelope, type tag, inner
 * data, payload base64, signature base64 - in that order, stopping at the
 * first failure and returning nothing unless every stage succeeds.
 */
module Response {
  import opened Wrappers
  import opened Bytes
  import opened Messages
  import Base64

  /** parseChallengeResponse: the decoded (plaintext, signature) or the first error met. */
  function ParseChallengeResponse(m: seq<Byte>, json: Json): (r: Result<(seq<Byte>, seq<Byte>), Error>)
    ensures json.unmarshalMessage(m).Failure? ==> r == Failure(json.unmarshalMessage(m).error)
    ensures json.unmarshalMessage(m).Success? && json.unmarshalMessage(m).value.msgType != ChallengeResponseType
            ==> r == Failure(NotAValidChallengeResponse(json.unmarshalMessage(m).value))
    ensures json.unmarshalMessage(m).Success? && json.unmarshalMessage(m).value.msgType == ChallengeResponseType
            && json.unmarshalResponse(json.unmarshalMessage(m).value.data).Failure?
            ==> r == Failure(json.unmarshalResponse(json.unmarshalMessage(m).value.data).error)
    ensures json.unmarshalMessage(m).Success? && json.unmarshalMessage(m).value.msgType == ChallengeResponseType
            && json.unmarshalResponse(json.unmarshalMessage(m).value.data).Success? && r.Failure?
            ==> r == Failure(CorruptBase64)
    ensures r.Success? ==>
              json.unmarshalMessage(m).Success?
              && json.unmarshalMessage(m).value.msgType == ChallengeResponseType
              && json.unmarshalResponse(json.unmarshalMessage(m).value.data).Success?
              && Base64.Decode(json.unmarshalResponse(json.unmarshalMessage(m).value.data).value.payload) == Some(r.value.0)
              && Base64.Decode(json.unmarshalResponse(json.unmarshalMessage(m).value.data).value.signature) == Some(r.value.1)
  {
    match json.unmarshalMessage(m)
    case Failure(e) => Failure(e)
    case Success(msg) =>
      if msg.msgType != ChallengeResponseType then Failure(NotAValidChallengeResponse(msg))
      else match json.unmarshalResponse(msg.data)
        case Failure(e) => Failure(e)
        case Success(cr) =>
          match Base64.Decode(cr.payload)
          case None => Failure(CorruptBase64)
          case Some(plaintext) =>
            match Base64.Decode(cr.signature)
            case None => Failure(CorruptBase64)
            case Some(signature) => Success((plaintext, signature))
  }

  /**
   * The type tag is checked before the data field is looked at: for an
   * envelope of another type the result does not depend on how (or whether)
   * its data would decode.
   */
  lemma TypeCheckedBeforeData(m: seq<Byte>, json: Json, inner: seq<Byte> -> Result<ChallengeResponse, JsonErr>)
    requires json.unmarshalMessage(m).Success?
    requires json.unmarshalMessage(m).value.msgType != ChallengeResponseType
    ensures ParseChallengeResponse(m, json) == ParseChallengeResponse(m, json.(unmarshalResponse := inner))
    ensures ParseChallengeResponse(m, json).Failure?
  {
  }

  /**
   * The error names the stage that failed: a JSON error exactly when one of
   * the two JSON decodings failed, NotAValidChallengeResponse exactly when
   * the envelope decoded with another type, CorruptBase64 exactly when both
   * JSON stages succeeded and a base64 field did not decode.
   */
  lemma FailingStage(m: seq<Byte>, json: Json)
    requires ParseChallengeResponse(m, json).Failure?
    ensures var e := ParseChallengeResponse(m, json).error;
      e.JsonError? <==>
        json.unmarshalMessage(m).Failure?
        || (json.unmarshalMessage(m).value.msgType == ChallengeResponseType
            && json.unmarshalResponse(json.unmarshalMessage(m).value.data).Failure?)
    ensures var e := ParseChallengeResponse(m, json).error;
      e.NotAValidChallengeResponse? <==>
        json.unmarshalMessage(m).Success? && json.unmarshalMessage(m).value.msgType != ChallengeResponseType
    ensures var e := ParseChallengeResponse(m, json).error;
      e == CorruptBase64 <==>
        json.unmarshalMessage(m).Success? && json.unmarshalMessage(m).value.msgType == ChallengeResponseType
        && json.unmarshalResponse(json.unmarshalMessage(m).value.data).Success?
  {
  }

  /**
   * All or nothing: a result is produced exactly when all four decodings
   * succeed, and when the payload does not decode the signature is never read.
   */
  lemma AllOrNothing(m: seq<Byte>, json: Json)
    ensures ParseChallengeResponse(m, json).Success? <==>
              json.unmarshalMessage(m).Success?
              && json.unmarshalMessage(m).value.msgType == ChallengeResponseType
              && json.unmarshalResponse(json.unmarshalMessage(m).value.data).Success?
              && Base64.Decode(json.unmarshalResponse(json.unmarshalMessage(m).value.data).value.payload).Some?
              && Base64.Decode(json.unmarshalResponse(json.unmarshalMessage(m).value.data).value.signature).Some?
    ensures json.unmarshalMessage(m).Success?
            && json.unmarshalMessage(m).value.msgType == ChallengeResponseType
            && json.unmarshalResponse(json.unmarshalMessage(m).value.data).Success?
            && Base64.Decode(json.unmarshalResponse(json.unmarshalMessage(m).value.data).value.payload).None?
            ==> ParseChallengeResponse(m, json) == Failure(CorruptBase64)
  {
  }

  /**
   * Round trip with the client's side: an envelope of the right type whose
   * fields are the base64 encodings of pt and sig parses to exactly (pt, sig).
   */
  lemma {:induction false} ParseEncodedResponse(m: seq<Byte>, json: Json, pt: seq<Byte>, sig: seq<Byte>)
    requires json.unmarshalMessage(m).Success?
    requires json.unmarshalMessage(m).value.msgType == ChallengeResponseType
    requires json.unmarshalResponse(json.unmarshalMessage(m).value.data)
               == Success(ChallengeResponse(Base64.Encode(pt), Base64.Encode(sig)))
    ensures ParseChallengeResponse(m, json) == Success((pt, sig))
  {
    Base64.DecodeEncode(pt);
    Base64.DecodeEncode(sig);
  }
}
