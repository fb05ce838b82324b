/** The rate-limiting filter: authenticated requests pass untouched; every other
    request is charged to a per-client token bucket, created the first time the
    client is seen, and is refused with 429 when the bucket has no token. The
    bucket's refill arithmetic belongs to the bucket library; whether a bucket
    grants a token is given as `grants`. */
module RateLimit {
  import opened Wrappers
  import opened Text
  import opened Errors

  const TOO_MANY_REQUESTS := 429
  const JSON := "application/json"
  const RATE_LIMIT_BODY :=
    "{\"error\":\"Rate limit exceeded\",\"message\":\"Too many requests. Please try again later.\"}"

  /** Each new bucket holds ten tokens, refilled every minute. */
  const BUCKET_CAPACITY := 10
  const REFILL_PERIOD_MILLIS := 60000

  /** The headers and address the filter reads. A missing header is `None`. */
  datatype Request = Request(forwardedFor: Option<string>, realIp: Option<string>, remoteAddr: string)

  /** The security context's authentication, when there is one. */
  datatype Authentication = Authentication(authenticated: bool, anonymous: bool)

  /** A client's bucket: its limit and how many tokens it has handed out. */
  datatype Bucket = Bucket(capacity: nat, refillPeriodMillis: nat, consumed: nat)

  /** What the filter does with a request it does not throw on. */
  datatype Verdict = Forwarded | Refused(status: int, contentType: string, body: string)

  function NewBucket(): (b: Bucket)
    ensures b.capacity == BUCKET_CAPACITY && b.refillPeriodMillis == REFILL_PERIOD_MILLIS && b.consumed == 0
  {
    Bucket(BUCKET_CAPACITY, REFILL_PERIOD_MILLIS, 0)
  }

  predicate Present(header: Option<string>) {
    header.Some? && header.value != ""
  }

  /** A non-empty X-Forwarded-For gives the trimmed text before its first comma (a
      header of commas only splits into no element, and indexing it throws);
      otherwise a non-empty X-Real-IP, untrimmed; otherwise the remote address. */
  function ClientIdentifier(req: Request): (r: Fallible<string>)
    ensures Present(req.forwardedFor) && AllCommas(req.forwardedFor.value) ==> r == Failure(RUNTIME_FAULT)
    ensures Present(req.forwardedFor) && !AllCommas(req.forwardedFor.value) ==>
      var f := req.forwardedFor.value;
      r == Success(Trim(f[..FirstComma(f)]))
    ensures !Present(req.forwardedFor) && Present(req.realIp) ==> r == Success(req.realIp.value)
    ensures !Present(req.forwardedFor) && !Present(req.realIp) ==> r == Success(req.remoteAddr)
  {
    if Present(req.forwardedFor) then
      var parts := SplitComma(req.forwardedFor.value);
      SplitCommaFirst(req.forwardedFor.value);
      if |parts| == 0 then Failure(RUNTIME_FAULT) else Success(Trim(parts[0]))
    else if Present(req.realIp) then Success(req.realIp.value)
    else Success(req.remoteAddr)
  }

  /** Authenticated, and not as the anonymous user. */
  predicate IsAuthenticated(auth: Option<Authentication>) {
    auth.Some? && auth.value.authenticated && !auth.value.anonymous
  }

  /** `computeIfAbsent` then `tryConsume(1)` for one client: the client's bucket,
      new if the client was not seen, hands out a token when it grants one. */
  function Charge(cache: map<string, Bucket>, clientId: string, grants: Bucket -> bool): (r: (map<string, Bucket>, Verdict))
    ensures r.0.Keys == cache.Keys + {clientId}
    ensures forall k :: k in cache && k != clientId ==> r.0[k] == cache[k]
    ensures var b := if clientId in cache then cache[clientId] else NewBucket();
      && (grants(b) ==> r.1 == Forwarded && r.0[clientId] == b.(consumed := b.consumed + 1))
      && (!grants(b) ==> r.1 == Refused(TOO_MANY_REQUESTS, JSON, RATE_LIMIT_BODY) && r.0[clientId] == b)
  {
    var b := if clientId in cache then cache[clientId] else NewBucket();
    if grants(b) then (cache[clientId := b.(consumed := b.consumed + 1)], Forwarded)
    else (cache[clientId := b], Refused(TOO_MANY_REQUESTS, JSON, RATE_LIMIT_BODY))
  }

  /** A client already seen keeps its bucket: charging it adds no entry. */
  lemma ChargeSeenAddsNothing(cache: map<string, Bucket>, clientId: string, grants: Bucket -> bool)
    requires clientId in cache
    ensures Charge(cache, clientId, grants).0.Keys == cache.Keys
    ensures |Charge(cache, clientId, grants).0| == |cache|
  {
    assert cache.Keys + {clientId} == cache.Keys;
  }

  /** A new client's first two requests share the one bucket created by the
      first: it has handed out one token per forwarded request, and the cache
      gained that client only. */
  lemma TwoRequestsShareBucket(cache: map<string, Bucket>, clientId: string, grants: Bucket -> bool)
    requires clientId !in cache
    ensures var (first, v1) := Charge(cache, clientId, grants);
      var (second, v2) := Charge(first, clientId, grants);
      && second.Keys == cache.Keys + {clientId}
      && second[clientId].capacity == BUCKET_CAPACITY
      && second[clientId].consumed == (if v1.Forwarded? then 1 else 0) + (if v2.Forwarded? then 1 else 0)
  {
    var (first, v1) := Charge(cache, clientId, grants);
    ChargeSeenAddsNothing(first, clientId, grants);
  }

  class RateLimitingFilter {
    var bucketCache: map<string, Bucket>

    constructor ()
      ensures bucketCache == map[]
    {
      bucketCache := map[];
    }

    /** `doFilter`: an authenticated request is forwarded and touches no bucket;
        otherwise the client is identified (which can throw) and charged. */
    method DoFilter(auth: Option<Authentication>, req: Request, grants: Bucket -> bool) returns (r: Fallible<Verdict>)
      modifies this
      ensures IsAuthenticated(auth) ==> r == Success(Forwarded) && bucketCache == old(bucketCache)
      ensures !IsAuthenticated(auth) && ClientIdentifier(req).Failure? ==>
        r == Failure(ClientIdentifier(req).error) && bucketCache == old(bucketCache)
      ensures !IsAuthenticated(auth) && ClientIdentifier(req).Success? ==>
        var (cache, verdict) := Charge(old(bucketCache), ClientIdentifier(req).value, grants);
        r == Success(verdict) && bucketCache == cache
    {
      if IsAuthenticated(auth) {
        return Success(Forwarded);
      }
      var clientId := ClientIdentifier(req);
      if clientId.Failure? {
        return Failure(clientId.error);
      }
      var (cache, verdict) := Charge(bucketCache, clientId.value, grants);
      bucketCache := cache;
      return Success(verdict);
    }
  }
}
