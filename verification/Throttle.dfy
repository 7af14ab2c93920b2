/** The throttle service: policy validation, the length-prefixed bucket key, and the decision.
    A string here stands for its UTF-8 bytes, one character each. */
module Throttle {
  import opened Decimals
  import opened Wrappers
  import opened FixedWindow
  import opened ThrottleStore

  // ---- Keys ---------------------------------------------------------------

  function Field(value: string): string { Decimal(|value|) + ":" + value }

  function BucketKey(client: string, verb: string, route: string): string {
    Field(client) + Field(verb) + Field(route)
  }

  /** The number of leading digits. */
  function DigitRun(s: string): (n: nat)
    ensures n <= |s|
    ensures n < |s| ==> !IsDigit(s[n])
  {
    if s == "" || !IsDigit(s[0]) then 0 else 1 + DigitRun(s[1..])
  }

  function Number(digits: string): nat
    requires forall c <- digits :: IsDigit(c)
  {
    if digits == "" then 0
    else
      var n := |digits| - 1;
      assert IsDigit(digits[n]);
      Number(digits[..n]) * 10 + (digits[n] - '0') as nat
  }

  lemma {:induction false} RunDigits(s: string, n: nat)
    requires n <= |s| && n == DigitRun(s)
    ensures forall c <- s[..n] :: IsDigit(c)
  {
    if n > 0 {
      RunDigits(s[1..], n - 1);
      assert s[..n] == [s[0]] + s[1..][..n - 1];
    }
  }

  /** Reads one length-prefixed field off the front. */
  function TakeField(key: string): Option<(string, string)> {
    var n := DigitRun(key);
    RunDigits(key, n);
    if n == |key| || key[n] != ':' then None
    else
      var length := Number(key[..n]);
      var rest := key[n + 1..];
      if length > |rest| then None else Some((rest[..length], rest[length..]))
  }

  function DecodeKey(key: string): Option<(string, string, string)> {
    match TakeField(key)
    case None => None
    case Some((client, rest)) =>
      match TakeField(rest)
      case None => None
      case Some((verb, rest)) =>
        match TakeField(rest)
        case None => None
        case Some((route, rest)) => if rest == "" then Some((client, verb, route)) else None
  }

  lemma {:induction false} NumberOfDecimal(n: nat)
    ensures Number(Decimal(n)) == n
  {
    if n >= 10 {
      NumberOfDecimal(n / 10);
      var s := Decimal(n);
      assert s[..|s| - 1] == Decimal(n / 10) && s[|s| - 1] == Digit(n % 10);
    } else {
      var s := Decimal(n);
      assert s[..0] == "" && s[0] == Digit(n);
    }
  }

  lemma {:induction false} RunOfDigits(digits: string, rest: string)
    requires forall c <- digits :: IsDigit(c)
    requires rest != "" && !IsDigit(rest[0])
    ensures DigitRun(digits + rest) == |digits|
  {
    if digits == "" {
      assert digits + rest == rest;
    } else {
      assert digits[0] in digits && (digits + rest)[1..] == digits[1..] + rest;
      RunOfDigits(digits[1..], rest);
    }
  }

  lemma TakeFieldBack(value: string, rest: string)
    ensures TakeField(Field(value) + rest) == Some((value, rest))
  {
    var digits := Decimal(|value|);
    var s := Field(value) + rest;
    assert s == digits + (":" + value + rest);
    RunOfDigits(digits, ":" + value + rest);
    NumberOfDecimal(|value|);
    assert s[..|digits|] == digits && s[|digits| + 1..] == value + rest;
  }

  /** The decoder inverts the key, so no two requests of different clients, verbs or routes
      share a bucket. */
  lemma KeyRoundTrip(client: string, verb: string, route: string)
    ensures DecodeKey(BucketKey(client, verb, route)) == Some((client, verb, route))
  {
    var key := BucketKey(client, verb, route);
    assert key == Field(client) + (Field(verb) + Field(route));
    assert Field(route) == Field(route) + "";
    TakeFieldBack(client, Field(verb) + Field(route));
    TakeFieldBack(verb, Field(route));
    TakeFieldBack(route, "");
  }

  lemma KeysDistinct(a: (string, string, string), b: (string, string, string))
    ensures BucketKey(a.0, a.1, a.2) == BucketKey(b.0, b.1, b.2) <==> a == b
  {
    KeyRoundTrip(a.0, a.1, a.2);
    KeyRoundTrip(b.0, b.1, b.2);
  }

  // ---- Decisions ----------------------------------------------------------

  datatype Policy = Policy(limit: nat, window: nat)

  datatype StartupError = ZeroPolicy | ClockRange

  /** `None` lets the request through; a rejection carries the Retry-After header, if enabled. */
  datatype Rejection = TooManyRequests(retryAfter: Option<nat>)

  function ValidatePolicy(policy: Policy, clockEnd: nat, now: nat): Option<StartupError> {
    if policy.limit == 0 || policy.window == 0 then Some(ZeroPolicy)
    else if now + policy.window > clockEnd then Some(ClockRange)
    else None
  }

  /** One request: `validatedAt` and `countedAt` are the two clock readings. A refused policy
      leaves the store alone; otherwise the store counts the request under its own key and
      the answer is the limit's verdict. */
  method Check(store: MemoryThrottleStore, client: string, verb: string, route: string, policy: Policy,
               header: bool, validatedAt: nat, countedAt: nat)
    returns (outcome: Result<Option<Rejection>, StartupError>)
    requires store.Valid() && store.nextGeneration < U64_MAX
    modifies store
    ensures store.Valid()
    ensures var refused := ValidatePolicy(policy, store.store.clockEnd, validatedAt);
            var call := Call(BucketKey(client, verb, route), policy.window, countedAt);
            var (entries, reply) := Touch(store.store, old(store.entries), call);
            if refused.Some? then outcome == Err(refused.value) && store.entries == old(store.entries)
            else
              && store.entries == entries
              && (outcome.Err? <==> reply.ClockOverflow?)
              && (outcome == Ok(None) <==> Accepted(reply, policy.limit))
              && (outcome.Ok? && outcome.value.Some? && header ==>
                    outcome.value.value.retryAfter == Some(RetryAfterSeconds(reply.retryAfter)))
  {
    var refused := ValidatePolicy(policy, store.store.clockEnd, validatedAt);
    if refused.Some? {
      return Err(refused.value);
    }
    var reply := store.Increment(BucketKey(client, verb, route), policy.window, countedAt);
    match reply {
      case ClockOverflow => return Err(ClockRange);
      case Record(count, retryAfter) =>
        if count <= policy.limit {
          return Ok(None);
        }
        return Ok(Some(TooManyRequests(if header then Some(RetryAfterSeconds(retryAfter)) else None)));
    }
  }
}
