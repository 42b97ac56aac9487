/**
 * The pairing of a display instance, `src/server/api/routers/instanceSecretRequest.ts`:
 * an instance opens a request that carries a nine-digit code and a claim
 * token; the owner of a configuration types the code for one of its
 * instances, which gives that instance a new secret and stores the same
 * secret in the request; the instance then claims the secret once with its
 * token. The clock, the random code, the claim token and the new secret
 * are parameters.
 */
module SecretRequests {
  import opened Wrappers
  import opened Numerals

  type UserId = string
  type InstanceId = string
  type ConfigurationId = string

  datatype SecretError = BadRequest | NotFound | Unauthorized | PreconditionFailed | UniqueConstraintFailed

  /** A pairing request; `createdAt` is in milliseconds. */
  datatype Request = Request(claimToken: string, createdAt: int, instanceSecret: Option<string>)

  /** The part of an instance row that pairing touches. */
  datatype Instance = Instance(configurationId: ConfigurationId, secret: Option<string>, lastSeen: Option<int>)

  /** Requests by their unique request code. */
  type Requests = map<string, Request>

  /** One hour in milliseconds. */
  const RequestLifetime: int := 1000 * 60 * 60

  predicate NonEmpty(s: string)
  {
    |s| >= 1
  }

  // ---------------------------------------------------------------------
  // Request codes

  /** `Array.from(code).filter((c) => "0123456789".includes(c)).join("")`. */
  function FilterDigits(s: string): (r: string)
    ensures DigitsOnly(r) && |r| <= |s|
    ensures forall c :: c in r <==> c in s && IsDigit(c)
  {
    if s == [] then []
    else if IsDigit(s[0]) then [s[0]] + FilterDigits(s[1..])
    else FilterDigits(s[1..])
  }

  /** The filter works character by character, so it keeps the digits in
      their original order. */
  lemma {:induction false} FilterDigitsConcat(a: string, b: string)
    ensures FilterDigits(a + b) == FilterDigits(a) + FilterDigits(b)
  {
    if a != [] {
      var rest := a[1..] + b;
      assert a + b == [a[0]] + rest;
      FilterDigitsConcat(a[1..], b);
      if IsDigit(a[0]) {
        assert FilterDigits(a + b) == [a[0]] + FilterDigits(rest);
      } else {
        assert FilterDigits(a + b) == FilterDigits(rest);
      }
    } else {
      assert a + b == b;
    }
  }

  /** A code of digits passes the filter unchanged. */
  lemma {:induction false} FilterKeepsDigits(s: string)
    requires DigitsOnly(s)
    ensures FilterDigits(s) == s
  {
    if s != [] {
      FilterKeepsDigits(s[1..]);
    }
  }

  /** `Math.floor(100000000 + Math.random() * 900000000).toString()` for a
      random draw `draw` in `[0, 900000000)`: nine digits, so the digit
      filter of `setSecret` gives it back unchanged. */
  function RequestCode(draw: nat): (code: string)
    requires draw < 900000000
    ensures |code| == 9 && DigitsOnly(code) && FilterDigits(code) == code
  {
    var n := 100000000 + draw;
    assert Pow10(8) == 100000000;
    DecimalStringShape(n, 8);
    FilterKeepsDigits(DecimalString(n));
    DecimalString(n)
  }

  // ---------------------------------------------------------------------
  // The request table as values

  /** The cleanup of `create`: every request created at or before one hour
      ago is deleted. */
  function Cleaned(requests: Requests, now: int): (r: Requests)
    ensures forall code :: code in r <==> code in requests && requests[code].createdAt > now - RequestLifetime
    ensures forall code | code in r :: r[code] == requests[code]
  {
    map code | code in requests && requests[code].createdAt > now - RequestLifetime :: requests[code]
  }

  /** What `getSecret` answers. */
  function ClaimResult(requests: Requests, code: string, claimToken: string): Result<Option<string>, SecretError>
  {
    if !NonEmpty(code) || !NonEmpty(claimToken) then Err(BadRequest)
    else if code !in requests || requests[code].claimToken != claimToken then Err(NotFound)
    else Ok(requests[code].instanceSecret)
  }

  /** The request table after `getSecret`: a request whose secret is set is
      deleted once it has been read. */
  function AfterClaim(requests: Requests, code: string, claimToken: string): Requests
  {
    match ClaimResult(requests, code, claimToken)
    case Ok(Some(_)) => requests - {code}
    case _ => requests
  }

  /** A successful claim deletes the request, so the same claim again is
      `NOT_FOUND`; a claim before the secret is set answers `null` and
      keeps the request. */
  lemma ClaimIsOneShot(requests: Requests, code: string, claimToken: string)
    ensures ClaimResult(requests, code, claimToken) == Ok(None) ==> AfterClaim(requests, code, claimToken) == requests
    ensures ClaimResult(requests, code, claimToken).Ok? && ClaimResult(requests, code, claimToken).value.Some? ==>
      ClaimResult(AfterClaim(requests, code, claimToken), code, claimToken) == Err(NotFound)
  {
  }

  /** The table after a successful `setSecret`: the request of the
      filtered code records the secret. */
  function Paired(requests: Requests, code: string, secret: string): Requests
    requires code in requests
  {
    requests[code := requests[code].(instanceSecret := Some(secret))]
  }

  /** `setSecret`'s check on the request table: a request with the code
      that has no secret yet. */
  predicate Awaiting(requests: Requests, code: string)
  {
    code in requests && requests[code].instanceSecret.None?
  }

  /** A request opened with the code of `draw` and paired by an owner who
      typed that code, with any non-digits around or inside it, is then
      claimed by its token for exactly the new secret, once. */
  lemma PairingRoundTrip(requests: Requests, draw: nat, claimToken: string, now: int,
                         typedBefore: string, typedAfter: string, secret: string)
    requires draw < 900000000 && NonEmpty(claimToken)
    requires forall i | 0 <= i < |typedBefore| :: !IsDigit(typedBefore[i])
    requires forall i | 0 <= i < |typedAfter| :: !IsDigit(typedAfter[i])
    ensures var code := RequestCode(draw);
      var created := Cleaned(requests, now)[code := Request(claimToken, now, None)];
      var typed := typedBefore + code + typedAfter;
      && FilterDigits(typed) == code
      && Awaiting(created, FilterDigits(typed))
      && var paired := Paired(created, FilterDigits(typed), secret);
         && ClaimResult(paired, code, claimToken) == Ok(Some(secret))
         && ClaimResult(AfterClaim(paired, code, claimToken), code, claimToken) == Err(NotFound)
  {
    var code := RequestCode(draw);
    TypedCodeFilters(typedBefore, code, typedAfter);
    var created := Cleaned(requests, now)[code := Request(claimToken, now, None)];
    PairThenClaim(created, code, claimToken, secret);
  }

  /** Non-digits typed around a code of digits are dropped by the filter. */
  lemma TypedCodeFilters(before: string, code: string, after: string)
    requires DigitsOnly(code)
    requires forall i | 0 <= i < |before| :: !IsDigit(before[i])
    requires forall i | 0 <= i < |after| :: !IsDigit(after[i])
    ensures FilterDigits(before + code + after) == code
  {
    FilterDigitsConcat(before + code, after);
    FilterDigitsConcat(before, code);
    NoDigits(before);
    NoDigits(after);
    FilterKeepsDigits(code);
  }

  /** Pairing a waiting request lets its token claim the secret, once. */
  lemma PairThenClaim(requests: Requests, code: string, claimToken: string, secret: string)
    requires NonEmpty(code) && NonEmpty(claimToken)
    requires Awaiting(requests, code) && requests[code].claimToken == claimToken
    ensures var paired := Paired(requests, code, secret);
      && ClaimResult(paired, code, claimToken) == Ok(Some(secret))
      && ClaimResult(AfterClaim(paired, code, claimToken), code, claimToken) == Err(NotFound)
  {
    var paired := Paired(requests, code, secret);
    assert paired[code].claimToken == claimToken && paired[code].instanceSecret == Some(secret);
    ClaimIsOneShot(paired, code, claimToken);
  }

  lemma {:induction false} NoDigits(s: string)
    requires forall i | 0 <= i < |s| :: !IsDigit(s[i])
    ensures FilterDigits(s) == []
  {
    if s != [] {
      NoDigits(s[1..]);
    }
  }

  // ---------------------------------------------------------------------
  // The tables and the handlers

  class PairingStore {
    var requests: Requests
    var instances: map<InstanceId, Instance>
    /** The owner of each configuration. */
    var owners: map<ConfigurationId, UserId>

    constructor (instances: map<InstanceId, Instance>, owners: map<ConfigurationId, UserId>)
      ensures requests == map[] && this.instances == instances && this.owners == owners
    {
      this.requests := map[];
      this.instances := instances;
      this.owners := owners;
    }

    /** `create`: clean up, then insert a request with the code of `draw`;
        a code still held by a live request violates its unique
        constraint. */
    method Create(now: int, draw: nat, claimToken: string) returns (r: Result<string, SecretError>)
      requires draw < 900000000
      modifies this`requests
      ensures var cleaned := Cleaned(old(requests), now);
        && (RequestCode(draw) in cleaned ==> r == Err(UniqueConstraintFailed) && requests == cleaned)
        && (RequestCode(draw) !in cleaned ==>
              r == Ok(RequestCode(draw)) && requests == cleaned[RequestCode(draw) := Request(claimToken, now, None)])
    {
      requests := Cleaned(requests, now);
      var code := RequestCode(draw);
      if code in requests {
        return Err(UniqueConstraintFailed);
      }
      requests := requests[code := Request(claimToken, now, None)];
      return Ok(code);
    }

    /** `getSecret`. */
    method GetSecret(code: string, claimToken: string) returns (r: Result<Option<string>, SecretError>)
      modifies this`requests
      ensures r == ClaimResult(old(requests), code, claimToken)
      ensures requests == AfterClaim(old(requests), code, claimToken)
    {
      if !NonEmpty(code) || !NonEmpty(claimToken) {
        return Err(BadRequest);
      }
      if code !in requests || requests[code].claimToken != claimToken {
        return Err(NotFound);
      }
      var secret := requests[code].instanceSecret;
      if secret.None? {
        return Ok(None);
      }
      requests := requests - {code};
      return Ok(secret);
    }

    /** `setSecret`: the typed code loses its non-digits; the instance must
        lie in a configuration of the caller, and a request with the code
        must still wait for its secret. Then the instance gets `secret` and
        forgets when it was last seen, and the request stores the same
        secret. */
    method SetSecret(user: UserId, typedCode: string, instanceId: InstanceId, secret: string)
      returns (r: Result<(), SecretError>)
      modifies this`requests, this`instances
      ensures var code := FilterDigits(typedCode);
        r == if !NonEmpty(typedCode) || !NonEmpty(instanceId) then Err(BadRequest)
             else if !(instanceId in old(instances) && old(instances)[instanceId].configurationId in owners
                       && owners[old(instances)[instanceId].configurationId] == user) then Err(Unauthorized)
             else if !Awaiting(old(requests), code) then Err(PreconditionFailed)
             else Ok(())
      ensures r.Err? ==> requests == old(requests) && instances == old(instances)
      ensures r.Ok? ==>
        && requests == Paired(old(requests), FilterDigits(typedCode), secret)
        && instances == old(instances)[instanceId := old(instances)[instanceId].(secret := Some(secret), lastSeen := None)]
    {
      if !NonEmpty(typedCode) || !NonEmpty(instanceId) {
        return Err(BadRequest);
      }
      var code := FilterDigits(typedCode);
      if !(instanceId in instances && instances[instanceId].configurationId in owners
           && owners[instances[instanceId].configurationId] == user) {
        return Err(Unauthorized);
      }
      if !Awaiting(requests, code) {
        return Err(PreconditionFailed);
      }
      instances := instances[instanceId := instances[instanceId].(secret := Some(secret), lastSeen := None)];
      requests := Paired(requests, code, secret);
      return Ok(());
    }
  }
}
