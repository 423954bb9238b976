/**
 * Challenge generation: draw challengeByteLength random bytes into a fresh
 * buffer and return their base64 text.
 */
module Challenge {
  import opened Wrappers
  import opened Bytes
  import opened Messages
  import Base64

  const ChallengeByteLength := 128

  /**
   * What the random source delivers when asked to fill a buffer: the bytes
   * it can produce (possibly fewer than asked) and the error it reports, if any.
   */
  datatype RandomSource = RandomSource(data: seq<Byte>, failure: Option<ExternalErr>)

  /**
   * The reference result of getChallengePayload for a given random source:
   * the source's own error first, then a short read, else the encoding of
   * the first ChallengeByteLength bytes.
   */
  function ChallengePayload(src: RandomSource): (r: Result<string, Error>)
    ensures src.failure.Some? ==> r == Failure(src.failure.value)
    ensures src.failure.None? && |src.data| < ChallengeByteLength ==> r == Failure(ErrFailedToReadRandomNumbers)
    ensures r.Success? <==> src.failure.None? && |src.data| >= ChallengeByteLength
    ensures r.Success? ==> r.value == Base64.Encode(src.data[..ChallengeByteLength])
  {
    if src.failure.Some? then Failure(src.failure.value)
    else if |src.data| < ChallengeByteLength then Failure(ErrFailedToReadRandomNumbers)
    else Success(Base64.Encode(src.data[..ChallengeByteLength]))
  }

  /**
   * The text of a challenge is 172 characters and decodes back to exactly
   * the bytes drawn from the source.
   */
  lemma EncodedChallenge(src: RandomSource)
    requires ChallengePayload(src).Success?
    ensures |ChallengePayload(src).value| == 172
    ensures Base64.Decode(ChallengePayload(src).value) == Some(src.data[..ChallengeByteLength])
  {
    var drawn := src.data[..ChallengeByteLength];
    assert |Base64.Encode(drawn)| == 172 by { Base64.EncodeLength(drawn); }
    assert Base64.Decode(Base64.Encode(drawn)) == Some(drawn) by { Base64.DecodeEncode(drawn); }
  }

  /**
   * Fills b from the source as `rand.Read` does: n is the number of bytes
   * copied, the rest of b is untouched, err is the source's error.
   */
  method ReadRandom(b: array<Byte>, src: RandomSource) returns (n: nat, err: Option<ExternalErr>)
    modifies b
    ensures n == if |src.data| < b.Length then |src.data| else b.Length
    ensures b[..n] == src.data[..n]
    ensures forall k :: n <= k < b.Length ==> b[k] == old(b[k])
    ensures err == src.failure
  {
    n := if |src.data| < b.Length then |src.data| else b.Length;
    var i := 0;
    while i < n
      invariant 0 <= i <= n
      invariant b[..i] == src.data[..i]
      invariant forall k :: i <= k < b.Length ==> b[k] == old(b[k])
    {
      b[i] := src.data[i];
      i := i + 1;
    }
    err := src.failure;
  }

  /** getChallengePayload: allocate the buffer, fill it, check the count, encode. */
  method GetChallengePayload(src: RandomSource) returns (r: Result<string, Error>)
    ensures r == ChallengePayload(src)
  {
    var b := new Byte[ChallengeByteLength];
    var n, err := ReadRandom(b, src);
    if err.Some? {
      return Failure(err.value);
    }
    if n < ChallengeByteLength {
      return Failure(ErrFailedToReadRandomNumbers);
    }
    assert b[..] == b[..n];
    return Success(Base64.Encode(b[..]));
  }
}
