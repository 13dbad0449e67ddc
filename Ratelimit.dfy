/** The `Ratelimit` wrapper of src/index.ts: an allow/deny overlay in front of
    an upstream sliding-window limiter, retry-after arithmetic, the two
    rejection responses and hot replacement of the limiter configuration.

    The clock (`Date.now()`) is the parameter `now`, in milliseconds. The
    upstream limiter, whose counting lives in another package and in a remote
    store, is the parameter `upstream`: an oracle from the limiter in effect
    and the identifier to its answer, or to the error it throws. */
module Ratelimit {
  import opened Wrappers
  import Decimal

  /** A window length such as "10 s"; only the upstream limiter reads it. */
  type Duration = string

  /** Handle on the remote counter store, known by its connection settings. */
  datatype Redis = Redis(url: string, token: string)

  /** The sliding-window algorithm's parameters. */
  datatype SlidingWindow = SlidingWindow(maxRequests: int, window: Duration)

  /** An upstream limiter: the store it counts in and its algorithm. */
  datatype Limiter = Limiter(redis: Redis, limiter: SlidingWindow)

  datatype DenyReason = Timeout | CacheBlock | DenyList

  /** The record the upstream limiter answers with (its `pending` promise is
      not modelled). */
  datatype UpstreamResult = UpstreamResult(
    success: bool,
    limit: int,
    remaining: int,
    reset: int,
    reason: Option<DenyReason>,
    deniedValue: Option<string>)

  /** What `limit` returns: the upstream record unchanged, or the short
      `{success, reset}` record of the overlay. */
  datatype LimitResponse = Upstream(result: UpstreamResult) | Overlay(allowed: bool, resetAt: int) {
    function Success(): bool {
      match this
      case Upstream(u) => u.success
      case Overlay(a, _) => a
    }
    function Reset(): int {
      match this
      case Upstream(u) => u.reset
      case Overlay(_, t) => t
    }
  }

  /** The upstream oracle: per call, an answer or a thrown error message. */
  type UpstreamLimit = (Limiter, string) -> Result<UpstreamResult, string>

  datatype BlacklistConfig = BlacklistConfig(blockDuration: int, message: string)

  /** The constructor's options; `None` stands for an omitted (undefined) option. */
  datatype RatelimitOptions = RatelimitOptions(
    url: string,
    token: string,
    time: Duration,
    maxRequests: int,
    logging: Option<bool>,
    whitelist: Option<seq<string>>,
    blacklist: Option<seq<string>>,
    blacklistConfig: Option<BlacklistConfig>)

  /** A web response reduced to what the code sets: status, body text and
      the headers it passes. */
  datatype Response = Response(status: int, body: string, headers: map<string, string>)

  const DefaultBlockDuration: int := 3600 * 1000
  const DefaultBlockMessage: string := "Access Denied"
  const DefaultBlacklistConfig: BlacklistConfig := BlacklistConfig(DefaultBlockDuration, DefaultBlockMessage)
  const LimitFailedMessage: string := "Rate limiting failed"
  const TooManyRequestsStatus: int := 429
  const TooManyRequestsBody: string := "Too Many Requests"
  const ForbiddenStatus: int := 403
  const RetryAfterHeader: string := "retry-after"

  function ToSet(xs: seq<string>): (s: set<string>)
    ensures forall x :: x in s <==> x in xs
  {
    set x | x in xs
  }

  class Ratelimit {
    var ratelimit: Limiter
    var redis: Redis
    var whitelist: set<string>
    var blacklist: set<string>
    var blacklistConfig: BlacklistConfig
    var logging: bool

    /** The limiter always counts in this object's own store, so replacing
        the configuration keeps the counters already written. */
    ghost predicate Valid()
      reads this
    {
      ratelimit.redis == redis
    }

    constructor (options: RatelimitOptions)
      ensures Valid()
      ensures redis == Redis(options.url, options.token)
      ensures ratelimit == Limiter(redis, SlidingWindow(options.maxRequests, options.time))
      ensures logging == options.logging.GetOr(false)
      ensures forall ip :: ip in whitelist <==> ip in options.whitelist.GetOr([])
      ensures forall ip :: ip in blacklist <==> ip in options.blacklist.GetOr([])
      ensures blacklistConfig == options.blacklistConfig.GetOr(DefaultBlacklistConfig)
    {
      redis := Redis(options.url, options.token);
      ratelimit := Limiter(Redis(options.url, options.token), SlidingWindow(options.maxRequests, options.time));
      whitelist := ToSet(options.whitelist.GetOr([]));
      blacklist := ToSet(options.blacklist.GetOr([]));
      blacklistConfig := options.blacklistConfig.GetOr(DefaultBlacklistConfig);
      logging := options.logging.GetOr(false);
    }

    /** The decision for `ip` at time `now`. Listed identifiers are decided
        by the overlay alone, whatever `upstream` would answer. */
    function Limit(ip: string, now: int, upstream: UpstreamLimit): (r: Result<LimitResponse, string>)
      reads this
      ensures ip in whitelist ==> r == Success(Overlay(true, 0))
      ensures ip !in whitelist && ip in blacklist ==>
        r == Success(Overlay(false, now + blacklistConfig.blockDuration))
      ensures ip !in whitelist && ip !in blacklist ==>
        match upstream(ratelimit, ip)
        case Success(u) => r == Success(Upstream(u))
        case Failure(_) => r == Failure(LimitFailedMessage)
    {
      if ip in whitelist then
        Success(Overlay(true, 0))
      else if ip in blacklist then
        Success(Overlay(false, now + blacklistConfig.blockDuration))
      else
        match upstream(ratelimit, ip)
        case Success(u) => Success(Upstream(u))
        case Failure(_) => Failure(LimitFailedMessage)
    }

    /** Whole seconds until `reset`, rounded down (towards minus infinity);
        there is no clamp, so a past `reset` gives a negative value. */
    static function GetRetryAfter(reset: int, now: int): (r: int)
      ensures r * 1000 <= reset - now < r * 1000 + 1000
    {
      (reset - now) / 1000
    }

    /** The 429 response; its `retry-after` header reads back as `retryAfter`. */
    static function CreateRateLimitResponse(retryAfter: int): (r: Response)
      ensures r.status == TooManyRequestsStatus && r.body == TooManyRequestsBody
      ensures r.headers.Keys == {RetryAfterHeader}
      ensures Decimal.IsCanonicalInt(r.headers[RetryAfterHeader])
      ensures Decimal.ParseInt(r.headers[RetryAfterHeader]) == Some(retryAfter)
    {
      Decimal.IntRoundTrip(retryAfter);
      Response(TooManyRequestsStatus, TooManyRequestsBody, map[RetryAfterHeader := Decimal.IntToString(retryAfter)])
    }

    /** The 403 response carrying the configured block message. */
    function CreateBlacklistResponse(): (r: Response)
      reads this
      ensures r.status == ForbiddenStatus && r.status != TooManyRequestsStatus
      ensures r.body == blacklistConfig.message && r.headers == map[]
    {
      Response(ForbiddenStatus, blacklistConfig.message, map[])
    }

    /** Replaces the limiter by one built from the new parameters over the
        same store; nothing else changes. */
    method UpdateConfig(time: Duration, maxRequests: int)
      requires Valid()
      modifies this`ratelimit
      ensures Valid()
      ensures ratelimit == Limiter(redis, SlidingWindow(maxRequests, time))
      ensures redis == old(redis) && whitelist == old(whitelist) && blacklist == old(blacklist)
      ensures blacklistConfig == old(blacklistConfig) && logging == old(logging)
      ensures forall ip, now, upstream :: ip in whitelist || ip in blacklist ==>
        Limit(ip, now, upstream) == old(Limit(ip, now, upstream))
    {
      ratelimit := Limiter(redis, SlidingWindow(maxRequests, time));
    }
  }
}
