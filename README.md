# wskeyid handshake, modelled in Dafny

This project models the server side of the wskeyid websocket authentication
handshake (`connection.go` of sparkscience/wskeyid-golang):

1. The server trims the `client_id` query value and resolves it to a P-256
   public key.
2. It draws 128 random bytes and sends their standard base64 text as a
   SERVER_CHALLENGE.
3. It then reads frames:
   - control frames are skipped;
   - a data frame that is not a well-formed CHALLENGE_RESPONSE costs one
     "Not a challenge response" CLIENT_ERROR, and the wait goes on;
   - the first well-formed response decides the handshake. If its signature
     verifies, the server sends AUTHORIZED and returns nil. Otherwise it sends
     the "Signature verification failed" CLIENT_ERROR and returns
     ErrSignatureDoesNotMatch.
4. A read error, or a failed write, ends the handshake at once with that error.

The modules:

- `Wrappers`: Option and Result.
- `Bytes`: bytes, and `big.Int.SetBytes` as `BigEndian`, with its inverse `FillBytes`.
- `Base64`: RFC 4648 section 4 base64, as Go's `StdEncoding` does it. The encoder pads. The decoder skips CR and LF and allows padding only in the last quantum.
- `Text`: `strings.TrimSpace` over Go's `unicode.IsSpace`.
- `Messages`: errors, envelopes and outbound messages.
- `Challenge`: `getChallengePayload`, as a reference function and as a method that fills an array.
- `Response`: `parseChallengeResponse`.
- `Signature`: `verifySignature`.
- `Connection`: `HandleAuthConnection`. The functions `Start`, `Step`, `Run` and `Handshake` form a pure reference machine. The method `HandleAuthConnection` runs the Go control flow as a loop and is proved equal to that machine.
- `HandshakeProperties`: properties of whole runs.

The connection, the key resolver, the random source, the JSON decoder, SHA-256
and `ecdsa.Verify` are parameters. They are collected in `Connection.Env`,
`Messages.Json` and `Signature.Crypto`:

- the inbound frames are a sequence of events;
- the outcome of the k-th write is `writeError(k)`. Because any failed write ends the handshake, k is always the number of messages already sent.

"Never called" properties are stated as independence: the result is the same
whatever the skipped oracle or input would have returned.

Points where the model follows what the code does rather than what a reader might expect:

- A P-256 signature is r and s, 32 bytes each. `verifySignature` rejects only signatures shorter than 64 bytes and reads s from all the bytes after the first 32. Longer signatures can therefore verify (`Signature.ZeroPaddedSAccepted`, `Signature.TrailingBytesExtendS`).
- A client is expected to sign the challenge it was sent, but the code never compares the echoed payload with the issued challenge: the signature is checked over whatever payload arrives (`HandshakeProperties.SignedResponseDecides`).
- `NotAValidChallengeResponse`, `ErrFailedToReadRandomNumbers` and `ErrSignatureDoesNotMatch` are the code's own error names. The model adds three of its own:
  - `JsonError` for whatever the JSON decoder reports; it is passed through unchanged. The type `Messages.JsonErr` admits only this constructor and types both decoder functions, so the decoder cannot report one of the code's own errors;
  - `ExternalError` for errors from the random source, the key resolver or the connection; these are passed through unchanged too. The type `Messages.ExternalErr` admits only this constructor, and the random source, the resolver, reads and writes are typed with it, so no collaborator can produce one of the code's own errors;
  - `CorruptBase64`, which replaces Go's `base64.CorruptInputError`. Go returns that error unchanged, with the offset of the bad byte; the model keeps only the fact that decoding failed.

## Model

| member | source | states |
|---|---|---|
| Bytes.BigEndian | connection.go:71-72 | SetBytes reads an unsigned big-endian number, below 256^len |
| Bytes.FillBytes | connection.go:71-72 | the signer's fixed-width layout: exactly len bytes that SetBytes reads back as n |
| Bytes.BigEndianAppend | connection.go:71-72 | reading a+b gives value(a)·256^&#124;b&#124; + value(b) |
| Bytes.LeadingZeroIgnored | connection.go:71-72 | a leading zero byte does not change the value SetBytes reads |
| Bytes.FillBytesOfBigEndian | connection.go:71-72 | laying out the value read from s over &#124;s&#124; bytes gives s back |
| Base64.DecodeChar | connection.go:51-58 | a decoded alphabet character re-encodes to itself |
| Base64.DecodeEncodeSextet | connection.go:30 | every 6-bit value's character decodes back to it |
| Base64.StripNewlines | connection.go:51-58 | the decoder's input has no CR or LF left and is no longer than before |
| Base64.StripNewlinesAppend | connection.go:51-58 | CR/LF removal works character by character: it distributes over concatenation |
| Base64.StripNewlinesChar | connection.go:51-58 | a single character is removed exactly when it is CR or LF |
| Base64.DecodeSkipsNewline | connection.go:51-58 | inserting a CR or LF anywhere in the text does not change what DecodeString returns |
| Base64.DecodeQuantaLength | connection.go:51-58 | decodable text is whole 4-character quanta giving at most 3 bytes each, and only empty text decodes to no bytes |
| Base64.DecodeFirstQuantum | connection.go:51-58 | helper: a decodable non-empty text has a first quantum of four characters, which gives three bytes unless it is the last one |
| Base64.Decode | connection.go:51-58 | decoded output is at most 3 bytes per 4 input characters; an empty result means the text was only CR/LF |
| Base64.Encode | connection.go:30 | EncodeToString gives at least 4 characters per 3 bytes and fewer than 4 more than that; empty exactly for empty input (the exact padded length is EncodeLength) |
| Base64.EncodeLength | connection.go:30 | the encoding has 4 characters per started 3-byte group |
| Base64.EncodeHasNoNewlines | connection.go:30 | encoder output contains no CR or LF, so the decoder sees it unchanged |
| Base64.DecodeQuantaEncode | connection.go:30 | the quanta of any encoding decode to the encoded bytes |
| Base64.DecodeQuantum | connection.go:30 | a full quantum followed by decodable text decodes to its three bytes plus the rest |
| Base64.DecodeLastOne | connection.go:30 | the "xx==" quantum of one final byte decodes to that byte |
| Base64.DecodeLastTwo | connection.go:30 | the "xxx=" quantum of two final bytes decodes to those bytes |
| Base64.DecodeEncode | connection.go:30 | round trip: Decode(Encode(b)) == Some(b) for all b |
| Text.AsciiSpaces | connection.go:82 | within ASCII, unicode.IsSpace holds exactly for tab, LF, VT, FF, CR and space |
| Text.LeadingSpaces | connection.go:82 | counts exactly the leading white-space run |
| Text.TrailingSpaces | connection.go:82 | counts exactly the trailing white-space run |
| Text.TrailingSpacesStep | connection.go:82 | helper: the trailing white-space run of s without its last character, plus that character when it is a space, is the run of s |
| Text.TrimSpace | connection.go:82 | the result is a contiguous part of the input, obtained by cutting only white space from both ends, and does not start or end with white space |
| Text.TrimSpaceIdempotent | connection.go:82 | trimming a trimmed client ID changes nothing |
| Text.TrimAllSpace | connection.go:82 | an all-white-space client ID trims to the empty string |
| Challenge.ChallengePayload | connection.go:21-31 | the random source's error comes first, then ErrFailedToReadRandomNumbers on a short read; success exactly when no error occurred and 128 bytes were read, and the result is the encoding of the first 128 bytes |
| Challenge.EncodedChallenge | connection.go:30 | a challenge is 172 characters long and decodes back to exactly the 128 drawn bytes |
| Challenge.ReadRandom | connection.go:22-23 | rand.Read fills min(len(b), available) bytes from the source and leaves the rest of the buffer alone |
| Challenge.GetChallengePayload | connection.go:21-31 | allocating, filling and checking a 128-byte buffer gives exactly ChallengePayload |
| Response.ParseChallengeResponse | connection.go:34-61 | an envelope decoding error is passed through; a wrong type gives NotAValidChallengeResponse; a data decoding error is passed through; any later failure is CorruptBase64; a success means every stage succeeded and the pair is the two decoded base64 fields |
| Response.TypeCheckedBeforeData | connection.go:41-46 | for another type tag the result fails and does not depend on how the data field would decode |
| Response.FailingStage | connection.go:34-61 | the error names the stage that failed: JsonError exactly when a JSON decoding failed, NotAValidChallengeResponse exactly when the envelope has another type, CorruptBase64 exactly when both JSON stages succeeded and a base64 field did not decode |
| Response.AllOrNothing | connection.go:34-61 | a pair is produced exactly when all four decodings succeed; a bad payload gives CorruptBase64 before the signature is looked at |
| Response.ParseEncodedResponse | connection.go:45-60 | round trip with the client: base64 fields of pt and sig parse to exactly (pt, sig) |
| Signature.EcdsaCall | connection.go:63-76 | no ECDSA call exactly when the signature is shorter than 64 bytes; otherwise the hash is SHA-256(pt), r < 2^256 and s < 256^(len-32) |
| Signature.VerifySignature | connection.go:63-77 | a signature shorter than 64 bytes is rejected |
| Signature.SignatureSplit | connection.go:68-74 | for 32 bytes r followed by the bytes of s, ECDSA receives SHA-256(pt), the big-endian value of the first 32 bytes and the value of all the remaining bytes |
| Signature.VerdictOfCall | connection.go:74-76 | helper (unfolds VerifySignature): the verdict is ECDSA's answer on the call it is given |
| Signature.ShortSignatureNeverReachesEcdsa | connection.go:64-66 | a short signature is false whatever SHA-256 and ECDSA would answer |
| Signature.TrailingBytesExtendS | connection.go:68-72 | bytes past 64 become low-order digits of s |
| Signature.ZeroPaddedSAccepted | connection.go:64-72 | a 65-byte signature with a zero byte before s gets the 64-byte signature's verdict |
| Connection.Write | connection.go:119-122 | a write either appends the message or fails with the connection's error, leaving the trace unchanged |
| Connection.Start | connection.go:80-122 | the wait begins exactly when the trimmed ID resolves, the challenge is drawn and sent, and the trace is then only that challenge; otherwise an error is returned after at most one message, "Bad client ID" or the challenge error; a failed SERVER_CHALLENGE write returns that write's error with nothing sent |
| Connection.Step | connection.go:123-171 | returned is final; the trace only grows, by at most one message; a read error returns it; control frames change nothing; the wait continues only after one retry error; a failed write returns its error |
| Connection.StepVerdict | connection.go:151-178 | a returning pass can add only AUTHORIZED with nil or the signature-failure error with ErrSignatureDoesNotMatch; nil never comes without AUTHORIZED |
| Connection.StepOnResponse | connection.go:133-178 | helper (unfolds Step): a parsed response decides in that pass: the write's error if the verdict cannot be written, else AUTHORIZED and nil or the rejection and ErrSignatureDoesNotMatch, by the signature verdict |
| Connection.Run | connection.go:123-171 | the loop only appends to what was sent, at most one message per inbound event supplied (events after the return included) |
| Connection.Handshake | connection.go:79-179 | a handshake sends at most one message before the loop and at most one per inbound event supplied |
| Connection.RunFirst | connection.go:123-124 | helper (unfolds Run): while waiting, the loop takes the next event through one pass |
| Connection.RunReturned | connection.go:123-171 | helper (unfolds Run): after returning nothing more is read |
| Connection.HandleAuthConnection | connection.go:79-179 | the method's messages and final result are exactly the reference Handshake's |
| HandshakeProperties.ChallengeThenRetriesHasNoVerdict | connection.go:133-149 | a challenge followed by retry errors holds no verdict |
| HandshakeProperties.AppendRetry | connection.go:136-148 | a retry error keeps the challenge-then-retries shape |
| HandshakeProperties.RunShape | connection.go:123-178 | from an issued challenge, any run keeps challenge-then-retries, ending with at most one verdict: AUTHORIZED exactly with nil, the rejection error only with ErrSignatureDoesNotMatch |
| HandshakeProperties.HandshakeTrace | connection.go:79-179 | every trace that starts with SERVER_CHALLENGE is SERVER_CHALLENGE, CLIENT_ERROR*, then optionally one verdict; AUTHORIZED comes last and exactly when nil is returned; the rejection error is last and comes with ErrSignatureDoesNotMatch; a trace without a challenge is an error after at most one message |
| HandshakeProperties.ReturnedBeforeChallenge | connection.go:84-117 | an error before the challenge leaves a trace of the expected shape |
| HandshakeProperties.TraceAfterChallenge | connection.go:123-178 | every run from an issued challenge leaves a trace of the expected shape |
| HandshakeProperties.AfterChallengeTrace | connection.go:123-178 | the run shape implies the trace shape |
| HandshakeProperties.ResolutionFailure | connection.go:82-100 | an unresolvable ID sends one "Bad client ID was supplied" CLIENT_ERROR (or fails writing it), returns the resolver's error, draws no random bytes and reads no frame |
| HandshakeProperties.ChallengeFailure | connection.go:105-117 | a failed draw sends one "Error generating challenge payload" SERVER_ERROR, no challenge, and returns the draw's error |
| HandshakeProperties.RunErrors | connection.go:123-171 | the receive loop returns only a collaborator's error (read or write) or ErrSignatureDoesNotMatch, and the latter only with the signature-failure CLIENT_ERROR as the last message |
| HandshakeProperties.StartErrors | connection.go:82-121 | before the loop the only error of the code's own is ErrFailedToReadRandomNumbers, returned exactly when the single SERVER_ERROR carrying it was sent |
| HandshakeProperties.RunDistinguishable | connection.go:119-178 | helper (combines RunErrors and RunShape): every run from an issued challenge has distinguishable results |
| HandshakeProperties.DistinguishableResults | connection.go:79-179 | every handshake's result is distinguishable: ErrSignatureDoesNotMatch iff the signature-failure CLIENT_ERROR was sent last, ErrFailedToReadRandomNumbers iff the only message was the SERVER_ERROR carrying it, every other error a collaborator's; the parser's errors never reach the caller |
| HandshakeProperties.ClientIdTrimmed | connection.go:82 | surrounding white space in client_id makes no difference |
| HandshakeProperties.ReturnedIgnoresLaterEvents | connection.go:123-171 | frames after the handshake has returned are never read |
| HandshakeProperties.ReadErrorEnds | connection.go:124-127 | a read error while waiting returns that error with nothing written |
| HandshakeProperties.ParseFailureRetries | connection.go:133-149 | an unparsable data frame costs one retry error and the wait goes on, unless that write fails |
| HandshakeProperties.VerificationFailureIsFatal | connection.go:151-168 | a parsed response that fails verification sends the rejection and returns ErrSignatureDoesNotMatch, whatever follows |
| HandshakeProperties.SignedResponseDecides | connection.go:133-178 | a well-formed response decides the handshake by its signature alone, whatever payload it echoes |
| HandshakeProperties.VerdictWriteFailure | connection.go:151-176 | when the verdict (AUTHORIZED or the rejection) cannot be written, that write's error is returned, nothing is added and no later frame is read |
| HandshakeProperties.ChallengeWriteFailure | connection.go:119-121 | a failed SERVER_CHALLENGE write returns that write's error with nothing sent and no frame read |
| HandshakeProperties.ChallengeIssued | connection.go:82-122 | with a resolvable key, enough randomness and a working connection, the only message sent so far is the challenge of the first 128 random bytes |
| HandshakeProperties.HonestClientAuthorized | connection.go:79-179 | end to end: a verifying signature gives SERVER_CHALLENGE then AUTHORIZED and nil |
| HandshakeProperties.ForgedSignatureRejected | connection.go:79-179 | end to end: a failing signature gives SERVER_CHALLENGE then the rejection, no AUTHORIZED, and ErrSignatureDoesNotMatch |
| HandshakeProperties.Retries | connection.go:136-148 | n retry errors |
| HandshakeProperties.RunOverNoise | connection.go:123-149 | control frames and unparsable data never end the wait; each data frame costs exactly one retry error |
| HandshakeProperties.NoiseThenResponse | connection.go:123-178 | noise before a well-formed response only delays the verdict |
| HandshakeProperties.NoiseThenHonestClient | connection.go:79-179 | end to end with noise: SERVER_CHALLENGE, one retry error per unparsable data frame, AUTHORIZED, nil |

## Left out

- `examples/main.go` (the demo server and client) is not part of this model.
- HTTP request handling: the input is the raw `client_id` query value.
- The client ID is modelled as valid Unicode text (`string`). In Go it is raw bytes after query unescaping. A lone byte such as 0x85 (from `%85`) is not valid UTF-8, so `strings.TrimSpace` sees it as RuneError and keeps it. The model cannot represent that byte: its nearest value, the character U+0085, is a space and is trimmed.
- `ParseKeyFromClientID` is not part of this model. It is the parameter `resolve`, whose success always carries a key, so the `key == nil` panic cannot occur.
- Websocket framing, the blocking `ReadMessage` and `WriteJSON`'s JSON encoding are abstracted:
  - frames are events;
  - a run that uses up its events while waiting ends in `AwaitingResponse`, where Go would block;
  - every write's outcome is given by `writeError`.
- The JSON decoder is the `Json` parameter. Only its outcome is modelled; the envelope structures are not parsed here.
- SHA-256 and the P-256 ECDSA check are the `Crypto` parameter. The curve arithmetic is not modelled.
- The `Meta` maps of the error payloads (client ID, error message, payload and signature) are not modelled. The titles and details are.
- The byte offset carried by Go's `base64.CorruptInputError` is not modelled: any base64 failure is `CorruptBase64`.
- Base64.Decode: does not model Go's exact error position (the offset carried by `base64.CorruptInputError`). Go's strict decoding mode is not modelled either; the code does not use it.
- Freshness of challenges across attempts, and their randomness, cannot be stated about a random source given as a parameter.
