/** Dot-separated message subjects and the wildcard patterns handlers declare:
    `*` stands for exactly one token, a terminal `>` for one or more tokens. */
module Subjects {

  // ---- Tokens -------------------------------------------------------------

  function Split(s: string): (tokens: seq<string>)
    ensures |tokens| > 0
  {
    if s == "" then [""]
    else
      var rest := Split(s[1..]);
      if s[0] == '.' then [""] + rest else [[s[0]] + rest[0]] + rest[1..]
  }

  function Join(tokens: seq<string>): string
    requires |tokens| > 0
  {
    if |tokens| == 1 then tokens[0] else tokens[0] + "." + Join(tokens[1..])
  }

  ghost predicate DotFree(token: string) { '.' !in token }

  lemma {:induction false} SplitWithoutDot(s: string)
    requires DotFree(s)
    ensures Split(s) == [s]
  {
    if s != "" {
      assert s[0] in s && s == [s[0]] + s[1..];
      SplitWithoutDot(s[1..]);
    }
  }

  lemma {:induction false} SplitAtDot(token: string, rest: string)
    requires DotFree(token)
    ensures Split(token + "." + rest) == [token] + Split(rest)
  {
    var s := token + "." + rest;
    if token == "" {
      assert s[1..] == rest;
    } else {
      SplitAtDot(token[1..], rest);
      assert token[0] in token && token == [token[0]] + token[1..];
      assert s[1..] == token[1..] + "." + rest;
    }
  }

  lemma {:induction false} SplitJoin(tokens: seq<string>)
    requires |tokens| > 0 && forall t <- tokens :: DotFree(t)
    ensures Split(Join(tokens)) == tokens
  {
    if |tokens| == 1 {
      SplitWithoutDot(tokens[0]);
    } else {
      SplitJoin(tokens[1..]);
      SplitAtDot(tokens[0], Join(tokens[1..]));
    }
  }

  lemma {:induction false} SplitTokens(s: string)
    ensures forall t <- Split(s) :: DotFree(t) && forall c <- t :: c in s
  {
    if s != "" {
      SplitTokens(s[1..]);
      var rest := Split(s[1..]);
      assert rest[0] in rest;
      forall t | t in Split(s) ensures DotFree(t) && forall c <- t :: c in s {
        assert t in rest || t == "" || t == [s[0]] + rest[0];
      }
    }
  }

  lemma {:induction false} JoinChars(tokens: seq<string>)
    requires |tokens| > 0
    ensures forall c <- Join(tokens) :: c == '.' || exists t <- tokens :: c in t
  {
    if |tokens| > 1 {
      JoinChars(tokens[1..]);
      forall c | c in Join(tokens) ensures c == '.' || exists t <- tokens :: c in t {
        if c in tokens[0] {
        } else if c != '.' {
          assert c in Join(tokens[1..]);
          var t :| t in tokens[1..] && c in t;
          assert t in tokens;
        }
      }
    } else {
      assert tokens[0] in tokens;
    }
  }

  // ---- Validity -----------------------------------------------------------

  /** The characters with the Unicode White_Space property. */
  predicate IsWhitespace(c: char) {
    var code := c as int;
    || 0x9 <= code <= 0xD || code == 0x20 || code == 0x85 || code == 0xA0 || code == 0x1680
    || 0x2000 <= code <= 0x200A || code == 0x2028 || code == 0x2029 || code == 0x202F
    || code == 0x205F || code == 0x3000
  }

  predicate HasWhitespace(s: string) { exists c <- s :: IsWhitespace(c) }

  /** A concrete subject, as clients may publish it. */
  predicate ValidNatsSubject(subject: string) {
    && subject != ""
    && !HasWhitespace(subject)
    && forall t <- Split(subject) :: t != "" && t != "*" && t != ">"
  }

  /** A declared pattern; only event handlers may use wildcards. */
  predicate ValidMicroservicePattern(pattern: string, command: bool) {
    && pattern != ""
    && !HasWhitespace(pattern)
    && var tokens := Split(pattern);
      forall i :: 0 <= i < |tokens| ==>
        && tokens[i] != ""
        && ('*' in tokens[i] ==> !command && tokens[i] == "*")
        && ('>' in tokens[i] ==> !command && tokens[i] == ">" && i + 1 == |tokens|)
  }

  ghost predicate ValidPattern(pattern: string) {
    ValidMicroservicePattern(pattern, false)
  }

  lemma CommandPatternIsLiteral(pattern: string)
    requires ValidMicroservicePattern(pattern, true)
    ensures ValidPattern(pattern)
    ensures forall t <- Split(pattern) :: t != "*" && t != ">"
    ensures HeadLength(Split(pattern)) == |Split(pattern)|
  {
    var tokens := Split(pattern);
    forall t | t in tokens ensures t != "*" && t != ">" {
      assert '*' in "*" && '>' in ">";
    }
  }

  // ---- What a pattern means -----------------------------------------------

  /** How many tokens stand before the first `>`. */
  function HeadLength(pattern: seq<string>): (n: nat)
    ensures n <= |pattern|
    ensures forall i :: 0 <= i < n ==> pattern[i] != ">"
    ensures n < |pattern| ==> pattern[n] == ">"
  {
    if pattern == [] || pattern[0] == ">" then 0 else 1 + HeadLength(pattern[1..])
  }

  predicate HasTail(pattern: seq<string>) { HeadLength(pattern) < |pattern| }

  predicate Fits(token: string, word: string) { token == "*" || token == word }

  /** The language of a pattern: every head token fits, and a `>` stands for at least one more. */
  predicate Denotes(pattern: seq<string>, words: seq<string>) {
    var n := HeadLength(pattern);
    && (if HasTail(pattern) then |words| > n else |words| == n)
    && forall i :: 0 <= i < n ==> Fits(pattern[i], words[i])
  }

  predicate Matches(pattern: string, subject: string) {
    Denotes(Split(pattern), Split(subject))
  }

  method NatsPatternMatches(pattern: string, subject: string) returns (r: bool)
    ensures r <==> Matches(pattern, subject)
  {
    var tokens, words := Split(pattern), Split(subject);
    var index := 0;
    while index < |tokens|
      invariant 0 <= index <= HeadLength(tokens)
      invariant index <= |words|
      invariant forall i :: 0 <= i < index ==> Fits(tokens[i], words[i])
    {
      if tokens[index] == ">" {
        return index < |words|;
      } else if tokens[index] == "*" && index < |words| {
      } else if index < |words| && words[index] == tokens[index] {
      } else {
        if index < |words| && HeadLength(tokens) <= |words| {
          assert !Fits(tokens[index], words[index]);
        }
        return false;
      }
      index := index + 1;
    }
    return index == |words|;
  }

  // ---- Overlap ------------------------------------------------------------

  ghost predicate Compatible(a: string, b: string) { a == "*" || b == "*" || a == b }

  /** Token-level condition under which two patterns share a subject. */
  ghost predicate CanMeet(p: seq<string>, q: seq<string>) {
    var n, m := HeadLength(p), HeadLength(q);
    && (forall i :: 0 <= i < n && i < m ==> Compatible(p[i], q[i]))
    && (HasTail(p) || n > m || (n == m && !HasTail(q)))
    && (HasTail(q) || m > n || (n == m && !HasTail(p)))
  }

  method MicroservicePatternsIntersect(first: string, second: string) returns (r: bool)
    ensures r <==> CanMeet(Split(first), Split(second))
    ensures !r ==> forall s: string :: !(Matches(first, s) && Matches(second, s))
    ensures r && ValidPattern(first) && ValidPattern(second) ==>
              exists s: string :: ValidNatsSubject(s) && Matches(first, s) && Matches(second, s)
  {
    var p, q := Split(first), Split(second);
    r := PatternTokensIntersect(p, q);
    if !r {
      forall s: string ensures !(Matches(first, s) && Matches(second, s)) {
        if Matches(first, s) && Matches(second, s) { SharedWordsMeet(p, q, Split(s)); }
      }
    } else if ValidPattern(first) && ValidPattern(second) {
      var s := OverlapWitness(first, second);
    }
  }

  method PatternTokensIntersect(first: seq<string>, second: seq<string>) returns (r: bool)
    ensures r <==> CanMeet(first, second)
  {
    var index := 0;
    while true
      invariant 0 <= index <= HeadLength(first) && index <= HeadLength(second)
      invariant forall i :: 0 <= i < index ==> Compatible(first[i], second[i])
      decreases |first| - index
    {
      if index >= |first| && index >= |second| {
        return true;
      } else if index >= |first| || index >= |second| {
        return false;
      } else if first[index] == ">" || second[index] == ">" {
        return true;
      } else if first[index] == "*" || second[index] == "*" || first[index] == second[index] {
        index := index + 1;
      } else {
        assert !Compatible(first[index], second[index]);
        return false;
      }
    }
  }

  lemma SharedWordsMeet(p: seq<string>, q: seq<string>, words: seq<string>)
    requires Denotes(p, words) && Denotes(q, words)
    ensures CanMeet(p, q)
  {
    forall i | 0 <= i < HeadLength(p) && i < HeadLength(q) ensures Compatible(p[i], q[i]) {
      assert Fits(p[i], words[i]) && Fits(q[i], words[i]);
    }
  }

  function Width(p: seq<string>): nat { HeadLength(p) + (if HasTail(p) then 1 else 0) }

  /** The literal a pattern asks for at a position, or a stand-in where it leaves the choice open. */
  function Literal(p: seq<string>, i: nat, standIn: string): string {
    if i < HeadLength(p) && p[i] != "*" then p[i] else standIn
  }

  /** A subject both patterns match. */
  function Meeting(p: seq<string>, q: seq<string>): seq<string> {
    seq(if Width(p) > Width(q) then Width(p) else Width(q),
        i requires 0 <= i => Literal(p, i, Literal(q, i, "x")))
  }

  lemma MeetingDenoted(p: seq<string>, q: seq<string>)
    requires CanMeet(p, q)
    ensures Denotes(p, Meeting(p, q)) && Denotes(q, Meeting(p, q))
  {
    var words := Meeting(p, q);
    forall i | 0 <= i < HeadLength(q) ensures Fits(q[i], words[i]) {
      if i < HeadLength(p) { assert Compatible(p[i], q[i]); }
    }
  }

  // ---- Concrete words -----------------------------------------------------

  ghost predicate Word(t: string) {
    t != "" && DotFree(t) && !HasWhitespace(t) && t != "*" && t != ">"
  }

  lemma LiteralIsWord(pattern: string, i: nat)
    requires ValidPattern(pattern) && i < HeadLength(Split(pattern)) && Split(pattern)[i] != "*"
    ensures Word(Split(pattern)[i])
  {
    var t := Split(pattern)[i];
    SplitTokens(pattern);
    assert t in Split(pattern);
  }

  lemma WordsFormSubject(words: seq<string>)
    requires |words| > 0 && forall t <- words :: Word(t)
    ensures ValidNatsSubject(Join(words)) && Split(Join(words)) == words
  {
    SplitJoin(words);
    JoinChars(words);
    assert words[0] in words;
    forall c | c in Join(words) ensures !IsWhitespace(c) {
      if c != '.' {
        var t :| t in words && c in t;
        assert !HasWhitespace(t);
      }
    }
  }

  lemma OverlapWitness(first: string, second: string) returns (s: string)
    requires ValidPattern(first) && ValidPattern(second)
    requires CanMeet(Split(first), Split(second))
    ensures ValidNatsSubject(s) && Matches(first, s) && Matches(second, s)
  {
    var p, q := Split(first), Split(second);
    var words := Meeting(p, q);
    MeetingDenoted(p, q);
    forall t | t in words ensures Word(t) {
      var i :| 0 <= i < |words| && words[i] == t;
      MeetingIsWord(first, second, i);
    }
    WordsFormSubject(words);
    s := Join(words);
  }

  lemma MeetingIsWord(first: string, second: string, i: nat)
    requires ValidPattern(first) && ValidPattern(second)
    ensures Word(Literal(Split(first), i, Literal(Split(second), i, "x")))
  {
    if i < HeadLength(Split(first)) && Split(first)[i] != "*" {
      LiteralIsWord(first, i);
    } else if i < HeadLength(Split(second)) && Split(second)[i] != "*" {
      LiteralIsWord(second, i);
    } else {
      LongerWord("");
    }
  }

  ghost predicate Overlap(first: string, second: string) {
    exists s: string :: Matches(first, s) && Matches(second, s)
  }

  /** Overlap of valid patterns is decided by their tokens, and shows on a concrete subject. */
  lemma OverlapExact(first: string, second: string)
    requires ValidPattern(first) && ValidPattern(second)
    ensures Overlap(first, second) <==> CanMeet(Split(first), Split(second))
    ensures Overlap(first, second) <==>
            exists s: string :: ValidNatsSubject(s) && Matches(first, s) && Matches(second, s)
  {
    if CanMeet(Split(first), Split(second)) {
      var s := OverlapWitness(first, second);
    }
    if s: string :| Matches(first, s) && Matches(second, s) {
      SharedWordsMeet(Split(first), Split(second), Split(s));
    }
  }

  // ---- Coverage -----------------------------------------------------------

  /** Token-level condition under which `c` matches everything `d` matches. */
  ghost predicate CoversTokens(c: seq<string>, d: seq<string>) {
    var n, m := HeadLength(c), HeadLength(d);
    && (if HasTail(c) then m > n || (m == n && HasTail(d)) else m == n && !HasTail(d))
    && forall i :: 0 <= i < n ==> Fits(c[i], d[i])
  }

  ghost predicate Covers(configured: string, declared: string) {
    forall s: string :: ValidNatsSubject(s) && Matches(declared, s) ==> Matches(configured, s)
  }

  method NatsPatternCovers(configured: string, declared: string) returns (r: bool)
    ensures r ==> forall s: string :: Matches(declared, s) ==> Matches(configured, s)
    ensures ValidPattern(configured) && ValidPattern(declared) ==>
              (r <==> Covers(configured, declared))
  {
    r := PatternTokensCover(Split(configured), Split(declared));
    if r {
      forall s: string | Matches(declared, s) ensures Matches(configured, s) {
        CoveredWords(Split(configured), Split(declared), Split(s));
      }
    } else if ValidPattern(configured) && ValidPattern(declared) {
      var s := EscapeWitness(configured, declared);
    }
  }

  method PatternTokensCover(configured: seq<string>, declared: seq<string>) returns (r: bool)
    ensures r <==> CoversTokens(configured, declared)
  {
    var index := 0;
    while true
      invariant 0 <= index <= HeadLength(configured) && index <= HeadLength(declared)
      invariant forall i :: 0 <= i < index ==> Fits(configured[i], declared[i])
      decreases |configured| - index
    {
      if index >= |configured| && index >= |declared| {
        return true;
      } else if index < |configured| && configured[index] == ">" && index < |declared| {
        return true;
      } else if index < |configured| && configured[index] == ">" {
        return false;
      } else if index >= |configured| {
        return false;
      } else if index < |declared| && declared[index] == ">" {
        return false;
      } else if index < |declared| && configured[index] == "*" {
        index := index + 1;
      } else if index < |declared| && configured[index] == declared[index] {
        index := index + 1;
      } else {
        if index < HeadLength(declared) { assert !Fits(configured[index], declared[index]); }
        return false;
      }
    }
  }

  lemma CoveredWords(c: seq<string>, d: seq<string>, words: seq<string>)
    requires CoversTokens(c, d) && Denotes(d, words)
    ensures Denotes(c, words)
  {
    forall i | 0 <= i < HeadLength(c) ensures Fits(c[i], words[i]) {
      assert Fits(c[i], d[i]) && Fits(d[i], words[i]);
    }
  }

  /** A subject of `d` built to avoid `c`: where `d` leaves the choice open it never
      picks the literal `c` asks for, and a `>` stands for one token unless two are
      needed to be longer than `c`. */
  function Escape(c: seq<string>, d: seq<string>): seq<string> {
    var tail := if !HasTail(d) then 0 else if !HasTail(c) && |c| == HeadLength(d) + 1 then 2 else 1;
    seq(HeadLength(d) + tail, i requires 0 <= i => Literal(d, i, Literal(c, i, "") + "x"))
  }

  lemma EscapeAvoids(c: seq<string>, d: seq<string>)
    requires !CoversTokens(c, d)
    ensures Denotes(d, Escape(c, d)) && !Denotes(c, Escape(c, d))
  {
    var words := Escape(c, d);
    var n, m := HeadLength(c), HeadLength(d);
    if m < n && HasTail(d) && c[m] != "*" {
      assert |words[m]| == |c[m]| + 1;
    }
    if i :| 0 <= i < n && i < m && !Fits(c[i], d[i]) {
      assert words[i] == if d[i] == "*" then c[i] + "x" else d[i];
    }
  }

  lemma EscapeWitness(configured: string, declared: string) returns (s: string)
    requires ValidPattern(configured) && ValidPattern(declared)
    requires !CoversTokens(Split(configured), Split(declared))
    ensures ValidNatsSubject(s) && Matches(declared, s) && !Matches(configured, s)
  {
    var c, d := Split(configured), Split(declared);
    EscapeAvoids(c, d);
    var words := Escape(c, d);
    forall t | t in words ensures Word(t) {
      var i :| 0 <= i < |words| && words[i] == t;
      EscapeIsWord(configured, declared, i);
    }
    assert |words| > 0;
    WordsFormSubject(words);
    s := Join(words);
  }

  lemma EscapeIsWord(configured: string, declared: string, i: nat)
    requires ValidPattern(configured) && ValidPattern(declared)
    ensures Word(Literal(Split(declared), i, Literal(Split(configured), i, "") + "x"))
  {
    var c, d := Split(configured), Split(declared);
    if i < HeadLength(d) && d[i] != "*" {
      LiteralIsWord(declared, i);
    } else if i < HeadLength(c) && c[i] != "*" {
      LiteralIsWord(configured, i);
      LongerWord(c[i]);
    } else {
      LongerWord("");
    }
  }

  lemma LongerWord(t: string)
    requires t == "" || Word(t)
    ensures Word(t + "x")
  {
    assert forall c <- t + "x" :: c in t || c == 'x';
    assert '*' !in "x" && '>' !in "x";
    assert |t + "x"| > 1 || t + "x" == "x";
  }

  lemma CoverageExact(configured: string, declared: string)
    requires ValidPattern(configured) && ValidPattern(declared)
    ensures Covers(configured, declared) <==> CoversTokens(Split(configured), Split(declared))
  {
    if CoversTokens(Split(configured), Split(declared)) {
      forall s: string | Matches(declared, s) ensures Matches(configured, s) {
        CoveredWords(Split(configured), Split(declared), Split(s));
      }
    } else {
      var s := EscapeWitness(configured, declared);
    }
  }

  /** Coverage is a preorder, and overlap only grows along it. */
  lemma CoverageOrder(a: string, b: string, c: string)
    requires ValidPattern(a) && ValidPattern(b) && ValidPattern(c)
    ensures CoversTokens(Split(a), Split(a))
    ensures CoversTokens(Split(a), Split(b)) && CoversTokens(Split(b), Split(c)) ==>
              CoversTokens(Split(a), Split(c))
    ensures CoversTokens(Split(a), Split(b)) && CanMeet(Split(b), Split(c)) ==>
              CanMeet(Split(a), Split(c))
  {
    CoverageExact(a, a);
    CoverageExact(a, b);
    CoverageExact(b, c);
    CoverageExact(a, c);
    OverlapExact(b, c);
    OverlapExact(a, c);
  }
}
