/**
 * Base64 with the standard alphabet and '=' padding (section 4 of RFC 4648),
 * as Go's `base64.StdEncoding` encodes and decodes it.
 *
 * The decoder follows the library's non-strict mode: carriage returns and
 * line feeds anywhere in the input are skipped, padding may only close the
 * last quantum, and unused low bits of the last quantum are not checked.
 */
module Base64 {
  import opened Wrappers
  import opened Bytes

  /** A 6-bit value: the index of one alphabet character. */
  type Sextet = x: int | 0 <= x < 64

  const PadChar: char := '='

  /** The character of the standard alphabet A-Z a-z 0-9 + / that stands for v. */
  function EncodeSextet(v: Sextet): (c: char)
    ensures c != PadChar && c != '\r' && c != '\n'
  {
    if v < 26 then ('A' as int + v) as char
    else if v < 52 then ('a' as int + (v - 26)) as char
    else if v < 62 then ('0' as int + (v - 52)) as char
    else if v == 62 then '+'
    else '/'
  }

  /** The value of an alphabet character; None for any other character. */
  function DecodeChar(c: char): (r: Option<Sextet>)
    ensures r.Some? ==> EncodeSextet(r.value) == c
  {
    if 'A' <= c <= 'Z' then Some(c as int - 'A' as int)
    else if 'a' <= c <= 'z' then Some(c as int - 'a' as int + 26)
    else if '0' <= c <= '9' then Some(c as int - '0' as int + 52)
    else if c == '+' then Some(62)
    else if c == '/' then Some(63)
    else None
  }

  lemma DecodeEncodeSextet(v: Sextet)
    ensures DecodeChar(EncodeSextet(v)) == Some(v)
  {
  }

  /** The four characters that stand for the 24 bits b0 b1 b2. */
  function Quantum(b0: Byte, b1: Byte, b2: Byte): string
  {
    [EncodeSextet(b0 / 4), EncodeSextet((b0 % 4) * 16 + b1 / 16),
     EncodeSextet((b1 % 16) * 4 + b2 / 64), EncodeSextet(b2 % 64)]
  }

  /** The three bytes held by the 24 bits s0 s1 s2 s3. */
  function Bytes3(s0: Sextet, s1: Sextet, s2: Sextet, s3: Sextet): seq<Byte>
  {
    [s0 * 4 + s1 / 16, (s1 % 16) * 16 + s2 / 4, (s2 % 4) * 64 + s3]
  }

  /** Encodes b: one quantum per three bytes, the last one padded with '='. */
  function Encode(b: seq<Byte>): (r: string)
    ensures 4 * |b| <= 3 * |r| < 4 * |b| + 12 && (r == [] <==> b == [])
    decreases |b|
  {
    if |b| == 0 then []
    else if |b| == 1 then Quantum(b[0], 0, 0)[..2] + [PadChar, PadChar]
    else if |b| == 2 then Quantum(b[0], b[1], 0)[..3] + [PadChar]
    else Quantum(b[0], b[1], b[2]) + Encode(b[3..])
  }

  /** The input with every carriage return and line feed removed. */
  function StripNewlines(s: string): (r: string)
    ensures |r| <= |s|
    ensures forall i :: 0 <= i < |r| ==> r[i] != '\r' && r[i] != '\n'
    decreases |s|
  {
    if s == [] then []
    else if s[0] == '\r' || s[0] == '\n' then StripNewlines(s[1..])
    else [s[0]] + StripNewlines(s[1..])
  }

  /** Stripping works character by character: it distributes over concatenation. */
  lemma {:induction false} StripNewlinesAppend(a: string, b: string)
    ensures StripNewlines(a + b) == StripNewlines(a) + StripNewlines(b)
    decreases |a|
  {
    if a == [] {
      assert a + b == b;
    } else {
      assert (a + b)[0] == a[0];
      assert (a + b)[1..] == a[1..] + b;
      StripNewlinesAppend(a[1..], b);
    }
  }

  /** A single character is dropped exactly when it is a carriage return or a line feed. */
  lemma StripNewlinesChar(c: char)
    ensures StripNewlines([c]) == if c == '\r' || c == '\n' then [] else [c]
  {
    assert [c][1..] == [];
  }

  /** A carriage return or line feed anywhere in the text does not change what it decodes to. */
  lemma DecodeSkipsNewline(a: string, c: char, b: string)
    requires c == '\r' || c == '\n'
    ensures Decode(a + [c] + b) == Decode(a + b)
  {
    StripNewlinesAppend(a + [c], b);
    StripNewlinesAppend(a, [c]);
    StripNewlinesChar(c);
    StripNewlinesAppend(a, b);
    assert StripNewlines(a) + [] == StripNewlines(a);
  }

  /** Decodes text; None when it is not valid padded base64. */
  function Decode(s: string): (r: Option<seq<Byte>>)
    ensures r.Some? ==> 4 * |r.value| <= 3 * |s|
    ensures r == Some([]) ==> StripNewlines(s) == []
  {
    DecodeQuantaLength(StripNewlines(s));
    DecodeQuanta(StripNewlines(s))
  }

  /** Decodes a newline-free text quantum by quantum. */
  function DecodeQuanta(t: string): Option<seq<Byte>>
    decreases |t|
  {
    if |t| == 0 then Some([])
    else if |t| < 4 then None
    else
      var c0, c1, c2, c3 := DecodeChar(t[0]), DecodeChar(t[1]), DecodeChar(t[2]), DecodeChar(t[3]);
      if c0.None? || c1.None? then None
      else if c2.Some? && c3.Some? then
        match DecodeQuanta(t[4..])
        case None => None
        case Some(rest) => Some(Bytes3(c0.value, c1.value, c2.value, c3.value) + rest)
      else if |t| > 4 then None
      else if c2.Some? && t[3] == PadChar then Some(Bytes3(c0.value, c1.value, c2.value, 0)[..2])
      else if t[2] == PadChar && t[3] == PadChar then Some(Bytes3(c0.value, c1.value, 0, 0)[..1])
      else None
  }

  /**
   * Text that decodes is whole quanta, each giving at most three bytes, and
   * only the empty text decodes to no bytes.
   */
  lemma {:induction false} DecodeQuantaLength(t: string)
    ensures DecodeQuanta(t).Some? ==> |t| % 4 == 0 && 4 * |DecodeQuanta(t).value| <= 3 * |t|
    ensures DecodeQuanta(t) == Some([]) ==> t == []
    decreases |t|
  {
    if DecodeQuanta(t).Some? && t != [] {
      DecodeFirstQuantum(t);
      var n := |DecodeQuanta(t).value|;
      if |t| > 4 {
        var rest := t[4..];
        DecodeQuantaLength(rest);
        assert |t| == |rest| + 4 && n == |DecodeQuanta(rest).value| + 3;
        QuantumMultiple(|rest|);
      }
    }
  }

  lemma QuantumMultiple(k: nat)
    requires k % 4 == 0
    ensures (k + 4) % 4 == 0
  {
  }

  /** A quantum in front gives three bytes, and only the last one can give fewer. */
  lemma DecodeFirstQuantum(t: string)
    requires t != [] && DecodeQuanta(t).Some?
    ensures |t| >= 4
    ensures |t| == 4 ==> 1 <= |DecodeQuanta(t).value| <= 3
    ensures |t| > 4 ==> DecodeQuanta(t[4..]).Some? && |DecodeQuanta(t).value| == 3 + |DecodeQuanta(t[4..]).value|
  {
    var c0, c1, c2, c3 := DecodeChar(t[0]), DecodeChar(t[1]), DecodeChar(t[2]), DecodeChar(t[3]);
    if c2.Some? && c3.Some? {
      assert DecodeQuanta(t).value == Bytes3(c0.value, c1.value, c2.value, c3.value) + DecodeQuanta(t[4..]).value;
    }
  }

  /** The characters of an encoding are alphabet characters or padding. */
  lemma {:induction false} EncodeHasNoNewlines(b: seq<Byte>)
    ensures StripNewlines(Encode(b)) == Encode(b)
    decreases |b|
  {
    var e := Encode(b);
    if |b| >= 3 {
      EncodeHasNoNewlines(b[3..]);
    }
    NoNewlinesUnchanged(e);
  }

  lemma {:induction false} NoNewlinesUnchanged(s: string)
    requires forall i :: 0 <= i < |s| ==> s[i] != '\r' && s[i] != '\n'
    ensures StripNewlines(s) == s
    decreases |s|
  {
    if s != [] {
      NoNewlinesUnchanged(s[1..]);
    }
  }

  /** Decoding inverts encoding: every byte string survives the round trip. */
  lemma {:induction false} DecodeEncode(b: seq<Byte>)
    ensures Decode(Encode(b)) == Some(b)
  {
    EncodeHasNoNewlines(b);
    DecodeQuantaEncode(b);
  }

  lemma {:induction false} DecodeQuantaEncode(b: seq<Byte>)
    ensures DecodeQuanta(Encode(b)) == Some(b)
    decreases |b|
  {
    if |b| == 1 {
      assert b == [b[0]];
      DecodeLastOne(b[0]);
    } else if |b| == 2 {
      assert b == [b[0], b[1]];
      DecodeLastTwo(b[0], b[1]);
    } else if |b| >= 3 {
      DecodeQuantaEncode(b[3..]);
      DecodeQuantaEncodeStep(b);
    }
  }

  /** One full quantum in front of an encoding that already round-trips. */
  lemma DecodeQuantaEncodeStep(b: seq<Byte>)
    requires |b| >= 3
    requires DecodeQuanta(Encode(b[3..])) == Some(b[3..])
    ensures DecodeQuanta(Encode(b)) == Some(b)
  {
    var rest := Encode(b[3..]);
    EncodeFullQuantum(b);
    DecodeQuantum(b, rest);
  }

  lemma EncodeFullQuantum(b: seq<Byte>)
    requires |b| >= 3
    ensures Encode(b) == Quantum(b[0], b[1], b[2]) + Encode(b[3..])
  {
  }

  /** The quantum of the first three bytes of b, followed by the decodable rest, decodes to b. */
  lemma DecodeQuantum(b: seq<Byte>, rest: string)
    requires |b| >= 3
    requires DecodeQuanta(rest) == Some(b[3..])
    ensures DecodeQuanta(Quantum(b[0], b[1], b[2]) + rest) == Some(b)
  {
    var b0, b1, b2 := b[0], b[1], b[2];
    var s0, s1, s2, s3 := b0 / 4, (b0 % 4) * 16 + b1 / 16, (b1 % 16) * 4 + b2 / 64, b2 % 64;
    DecodeEncodeSextet(s0);
    DecodeEncodeSextet(s1);
    DecodeEncodeSextet(s2);
    DecodeEncodeSextet(s3);
    DecodeQuantaCons(Quantum(b0, b1, b2), s0, s1, s2, s3, rest, b[3..]);
    Regroup(b0, b1, b2);
    assert [b0, b1, b2] + b[3..] == b;
  }

  /** A quantum of four alphabet characters contributes its three bytes. */
  lemma DecodeQuantaCons(q: string, x0: Sextet, x1: Sextet, x2: Sextet, x3: Sextet, rest: string, r: seq<Byte>)
    requires |q| == 4
    requires DecodeChar(q[0]) == Some(x0) && DecodeChar(q[1]) == Some(x1)
    requires DecodeChar(q[2]) == Some(x2) && DecodeChar(q[3]) == Some(x3)
    requires DecodeQuanta(rest) == Some(r)
    ensures DecodeQuanta(q + rest) == Some(Bytes3(x0, x1, x2, x3) + r)
  {
    var t := q + rest;
    assert t[4..] == rest;
    assert t[0] == q[0] && t[1] == q[1] && t[2] == q[2] && t[3] == q[3];
  }

  /** A lone final byte: two characters and "==". */
  lemma DecodeLastOne(b0: Byte)
    ensures DecodeQuanta(Encode([b0])) == Some([b0])
  {
    var t := Encode([b0]);
    DecodeEncodeSextet(b0 / 4);
    DecodeEncodeSextet((b0 % 4) * 16);
    assert t == [EncodeSextet(b0 / 4), EncodeSextet((b0 % 4) * 16), PadChar, PadChar];
    assert Bytes3(b0 / 4, (b0 % 4) * 16, 0, 0)[..1] == [b0];
  }

  /** Two final bytes: three characters and "=". */
  lemma DecodeLastTwo(b0: Byte, b1: Byte)
    ensures DecodeQuanta(Encode([b0, b1])) == Some([b0, b1])
  {
    var s0, s1, s2 := b0 / 4, (b0 % 4) * 16 + b1 / 16, (b1 % 16) * 4;
    var t := [EncodeSextet(s0), EncodeSextet(s1), EncodeSextet(s2), PadChar];
    assert Encode([b0, b1]) == t by {
      assert Quantum(b0, b1, 0)[..3] == t[..3];
    }
    assert Bytes3(s0, s1, s2, 0)[..2] == [b0, b1] by {
      Regroup(b0, b1, 0);
    }
    DecodeEncodeSextet(s0);
    DecodeEncodeSextet(s1);
    DecodeEncodeSextet(s2);
  }

  /** Regrouping 8-bit bytes into sextets and back is the identity. */
  lemma Regroup(b0: Byte, b1: Byte, b2: Byte)
    ensures Bytes3(b0 / 4, (b0 % 4) * 16 + b1 / 16, (b1 % 16) * 4 + b2 / 64, b2 % 64) == [b0, b1, b2]
  {
    var x, y := b0 % 4, b1 / 16;
    assert (x * 16 + y) / 16 == x && (x * 16 + y) % 16 == y;
    var z, w := b1 % 16, b2 / 64;
    assert (z * 4 + w) / 4 == z && (z * 4 + w) % 4 == w;
  }

  /** Four characters for every started group of three bytes. */
  lemma {:induction false} EncodeLength(b: seq<Byte>)
    ensures |Encode(b)| == 4 * ((|b| + 2) / 3)
    decreases |b|
  {
    if |b| >= 3 {
      EncodeLength(b[3..]);
      assert (|b| + 2) / 3 == (|b[3..]| + 2) / 3 + 1;
    }
  }
}
