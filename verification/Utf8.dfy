/** Well-formed UTF-8 and the shortening of text at a character boundary. */
module Utf8 {

  type Byte = b: nat | b < 256

  predicate Continuation(b: Byte) { 0x80 <= b < 0xC0 }

  /** Length of the character `s` starts with; zero when it starts with none (section 4 of RFC 3629). */
  function CharLength(s: seq<Byte>): (n: nat)
    requires s != []
    ensures n <= 4 && n <= |s|
    ensures forall i :: 0 < i < n ==> Continuation(s[i])
    ensures n > 0 ==> !Continuation(s[0])
  {
    if s[0] < 0x80 then 1
    else if 0xC2 <= s[0] < 0xE0 && |s| >= 2 && Continuation(s[1]) then 2
    else if 0xE0 <= s[0] < 0xF0 && |s| >= 3 && SecondOfThree(s[0], s[1]) && Continuation(s[2]) then 3
    else if 0xF0 <= s[0] < 0xF5 && |s| >= 4 && SecondOfFour(s[0], s[1])
            && Continuation(s[2]) && Continuation(s[3]) then 4
    else 0
  }

  predicate SecondOfThree(lead: Byte, b: Byte) {
    if lead == 0xE0 then 0xA0 <= b < 0xC0 else if lead == 0xED then 0x80 <= b < 0xA0 else Continuation(b)
  }

  predicate SecondOfFour(lead: Byte, b: Byte) {
    if lead == 0xF0 then 0x90 <= b < 0xC0 else if lead == 0xF4 then 0x80 <= b < 0x90 else Continuation(b)
  }

  predicate Valid(s: seq<Byte>) {
    s == [] || (CharLength(s) > 0 && Valid(s[CharLength(s)..]))
  }

  predicate Boundary(s: seq<Byte>, n: nat)
    requires n <= |s|
  {
    n == 0 || n == |s| || !Continuation(s[n])
  }

  lemma CharLengthOfPrefix(s: seq<Byte>, n: nat)
    requires s != [] && CharLength(s) > 0 && 0 < n <= |s|
    ensures CharLength(s[..n]) == if n < CharLength(s) then 0 else CharLength(s)
  {
  }

  lemma CutTwice(s: seq<Byte>, k: nat, n: nat)
    requires k <= n <= |s|
    ensures s[..n][k..] == s[k..][..n - k]
  {
  }

  /** Valid text can be cut exactly at its character boundaries. */
  lemma {:induction false} CutsAtBoundaries(s: seq<Byte>, n: nat)
    requires Valid(s) && n <= |s|
    ensures Boundary(s, n) <==> Valid(s[..n])
    decreases |s|
  {
    if s != [] && n > 0 {
      var k := CharLength(s);
      CharLengthOfPrefix(s, n);
      if n >= k {
        CutsAtBoundaries(s[k..], n - k);
        CutTwice(s, k, n);
        assert n < |s| ==> s[k..][n - k] == s[n];
        if n == k {
          assert s[..n][k..] == [];
        }
      }
    }
  }

  /** A boundary lies within three bytes below any position. */
  lemma {:induction false} BoundaryIsNear(s: seq<Byte>, n: nat) returns (m: nat)
    requires Valid(s) && n <= |s|
    ensures m <= n < m + 4 && Boundary(s, m)
    decreases |s|
  {
    if s == [] || n == 0 {
      m := n;
    } else {
      var k := CharLength(s);
      if n < k {
        m := 0;
      } else {
        var below := BoundaryIsNear(s[k..], n - k);
        m := below + k;
        assert below < |s[k..]| ==> s[k..][below] == s[m];
        CharStartsAtBoundary(s, k);
      }
    }
  }

  lemma CharStartsAtBoundary(s: seq<Byte>, k: nat)
    requires Valid(s) && s != [] && k == CharLength(s)
    ensures Boundary(s, k)
  {
    assert s[k..] != [] ==> s[k..][0] == s[k];
  }

  /** Shortens text to the longest valid prefix of at most `limit` bytes; at most three bytes of
      room are lost. */
  method Truncate(text: seq<Byte>, limit: nat) returns (r: seq<Byte>)
    requires Valid(text)
    ensures r <= text && Valid(r) && |r| <= limit
    ensures forall n :: |r| < n <= limit && n <= |text| ==> !Valid(text[..n])
    ensures if |text| <= limit then r == text else |r| + 3 >= limit
  {
    r := text;
    if |text| > limit {
      var end := limit;
      var near := BoundaryIsNear(text, limit);
      while end > 0 && !Boundary(text, end)
        invariant near <= end <= limit
        invariant forall n :: end < n <= limit ==> !Valid(text[..n])
      {
        CutsAtBoundaries(text, end);
        end := end - 1;
      }
      CutsAtBoundaries(text, end);
      r := text[..end];
    }
  }
}
