/**
 * Whitespace trimming as Go's `strings.TrimSpace` does it: leading and
 * trailing code points for which `unicode.IsSpace` holds are removed.
 */
module Text {

  /** Go's `unicode.IsSpace`: the Latin-1 spaces plus Unicode's White_Space property. */
  predicate IsSpace(c: char)
  {
    var u := c as int;
    u == 0x09 || u == 0x0A || u == 0x0B || u == 0x0C || u == 0x0D || u == 0x20
    || u == 0x85 || u == 0xA0 || u == 0x1680 || (0x2000 <= u <= 0x200A)
    || u == 0x2028 || u == 0x2029 || u == 0x202F || u == 0x205F || u == 0x3000
  }

  /** Within ASCII the spaces are exactly tab, line feed, vertical tab, form feed, carriage return and space. */
  lemma AsciiSpaces(c: char)
    requires c as int < 0x80
    ensures IsSpace(c) <==> (0x09 <= c as int <= 0x0D || c == ' ')
  {
  }

  predicate AllSpace(s: string)
  {
    forall i :: 0 <= i < |s| ==> IsSpace(s[i])
  }

  lemma AllSpaceAppend(a: string, b: string)
    requires AllSpace(a) && AllSpace(b)
    ensures AllSpace(a + b)
  {
    forall j | 0 <= j < |a + b|
      ensures IsSpace((a + b)[j])
    {
      if j < |a| {
        assert (a + b)[j] == a[j];
      } else {
        assert (a + b)[j] == b[j - |a|];
      }
    }
  }

  /** The number of space characters s starts with. */
  function LeadingSpaces(s: string): (n: nat)
    ensures n <= |s| && AllSpace(s[..n])
    ensures n < |s| ==> !IsSpace(s[n])
    decreases |s|
  {
    if s == [] || !IsSpace(s[0]) then 0 else 1 + LeadingSpaces(s[1..])
  }

  /** The number of space characters s ends with. */
  function TrailingSpaces(s: string): (n: nat)
    ensures n <= |s| && AllSpace(s[|s| - n..])
    ensures n < |s| ==> !IsSpace(s[|s| - n - 1])
    decreases |s|
  {
    if s == [] || !IsSpace(s[|s| - 1]) then 0
    else
      var k := TrailingSpaces(s[..|s| - 1]);
      TrailingSpacesStep(s, k);
      k + 1
  }

  /** One more trailing space: the run found in s without its last character grows by one. */
  lemma TrailingSpacesStep(s: string, k: nat)
    requires s != [] && IsSpace(s[|s| - 1]) && k <= |s| - 1
    requires AllSpace(s[..|s| - 1][|s| - 1 - k..])
    requires k < |s| - 1 ==> !IsSpace(s[..|s| - 1][|s| - 1 - k - 1])
    ensures AllSpace(s[|s| - (k + 1)..])
    ensures k + 1 < |s| ==> !IsSpace(s[|s| - (k + 1) - 1])
  {
    var p := s[..|s| - 1];
    assert s[|s| - (k + 1)..] == p[|p| - k..] + [s[|s| - 1]];
    AllSpaceAppend(p[|p| - k..], [s[|s| - 1]]);
    if k + 1 < |s| {
      assert s[|s| - (k + 1) - 1] == p[|p| - k - 1];
    }
  }

  /**
   * s without its leading and trailing spaces: a contiguous piece of s
   * that neither starts nor ends with a space, with only spaces cut away.
   */
  function TrimSpace(s: string): (r: string)
    ensures r == [] || (!IsSpace(r[0]) && !IsSpace(r[|r| - 1]))
    ensures exists i :: 0 <= i <= |s| - |r| && r == s[i..i + |r|]
                        && AllSpace(s[..i]) && AllSpace(s[i + |r|..])
  {
    var i := LeadingSpaces(s);
    var t := s[i..];
    var k := TrailingSpaces(t);
    var r := t[..|t| - k];
    assert r == s[i..i + |r|] && AllSpace(s[..i]) by {
      assert |r| == |t| - k;
    }
    assert AllSpace(s[i + |r|..]) by {
      assert s[i + |r|..] == t[|t| - k..];
    }
    r
  }

  /** Trimming twice changes nothing more. */
  lemma TrimSpaceIdempotent(s: string)
    ensures TrimSpace(TrimSpace(s)) == TrimSpace(s)
  {
    var r := TrimSpace(s);
    assert LeadingSpaces(r) == 0;
    assert r[0..] == r;
    assert TrailingSpaces(r) == 0;
  }

  /** An identifier made only of spaces trims to the empty string. */
  lemma TrimAllSpace(s: string)
    requires AllSpace(s)
    ensures TrimSpace(s) == []
  {
  }
}
