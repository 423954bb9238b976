/**
 * The values exchanged during the handshake: errors, the client's envelope,
 * the JSON decoder it is read with, and the server's outbound messages.
 */
module Messages {
  import opened Wrappers
  import opened Bytes

  /** A client envelope `{"type": ..., "data": ...}`; data is kept as raw JSON bytes. */
  datatype ClientMessage = ClientMessage(msgType: string, data: seq<Byte>)

  /** The data of a CHALLENGE_RESPONSE: both fields are base64 text. */
  datatype ChallengeResponse = ChallengeResponse(payload: string, signature: string)

  /** The errors the handshake can return to its caller. */
  datatype Error =
    | JsonError(reason: string)                        // reported by the JSON decoder
    | NotAValidChallengeResponse(message: ClientMessage) // well-formed envelope of another type
    | CorruptBase64                                    // a base64 field did not decode
    | ErrFailedToReadRandomNumbers                     // short read from the random source
    | ErrSignatureDoesNotMatch                         // the response's signature was rejected
    | ExternalError(reason: string)                    // from the random source, resolver or connection

  /**
   * The errors a collaborator can report (the random source, the key
   * resolver, a read or a write on the connection): never one of the
   * handshake's own errors.
   */
  type ExternalErr = e: Error | e.ExternalError? witness ExternalError("")

  /** The errors the JSON decoder can report: never one of the handshake's own. */
  type JsonErr = e: Error | e.JsonError? witness JsonError("")

  /**
   * The JSON decoder, supplied from outside: one partial function per target
   * structure, each returning the decoded value or the decoder's error.
   */
  datatype Json = Json(
    unmarshalMessage: seq<Byte> -> Result<ClientMessage, JsonErr>,
    unmarshalResponse: seq<Byte> -> Result<ChallengeResponse, JsonErr>)

  /** The human-readable detail of an error payload: an error's own text or fixed text. */
  datatype Detail = Cause(err: Error) | Fixed(text: string)

  /** Server-to-client envelopes, by type tag. */
  datatype Outbound =
    | ServerChallenge(payload: string)
    | ClientError(title: string, detail: Detail)
    | ServerError(title: string, detail: Detail)
    | Authorized

  const ChallengeResponseType := "CHALLENGE_RESPONSE"

  const BadClientIdTitle := "Bad client ID was supplied"
  const ChallengeErrorTitle := "Error generating challenge payload"
  const NotAChallengeResponseTitle := "Not a challenge response"
  const NotAChallengeResponseDetail :=
    "Expected a challenge response but got something else that the JSON parser was not able to parse"
  const SignatureFailedTitle := "Signature verification failed"
  const SignatureFailedDetail := "The signature failed to verify"

  /** The CLIENT_ERROR sent for a frame that is not a challenge response. */
  const RetryMessage := ClientError(NotAChallengeResponseTitle, Fixed(NotAChallengeResponseDetail))

  /** The CLIENT_ERROR sent when the signature does not verify. */
  const RejectMessage := ClientError(SignatureFailedTitle, Fixed(SignatureFailedDetail))
}
