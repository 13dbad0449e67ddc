/** Properties of the `Ratelimit` wrapper that relate several calls, several
    objects or several clock readings. */
module RatelimitFacts {
  import opened Wrappers
  import opened Ratelimit

  // ---- The allow/deny overlay --------------------------------------------

  /** An identifier on both lists is allowed: the whitelist is checked first. */
  lemma WhitelistPrecedence(rl: Ratelimit, ip: string, now: int, upstream: UpstreamLimit)
    requires ip in rl.whitelist && ip in rl.blacklist
    ensures rl.Limit(ip, now, upstream).Success?
    ensures rl.Limit(ip, now, upstream).value.Success()
    ensures rl.Limit(ip, now, upstream).value.Reset() == 0
  {
  }

  /** For a listed identifier the answer does not depend on the upstream
      limiter at all: it is never consulted, so neither its verdict nor an
      outage of its store can change the decision. */
  lemma ListedIgnoresUpstream(rl: Ratelimit, ip: string, now: int, up1: UpstreamLimit, up2: UpstreamLimit)
    requires ip in rl.whitelist || ip in rl.blacklist
    ensures rl.Limit(ip, now, up1) == rl.Limit(ip, now, up2)
  {
  }

  /** Success is reported exactly for whitelisted identifiers and for
      unlisted ones the upstream limiter admits. */
  lemma LimitSucceedsIff(rl: Ratelimit, ip: string, now: int, upstream: UpstreamLimit)
    ensures (rl.Limit(ip, now, upstream).Success? && rl.Limit(ip, now, upstream).value.Success())
      <==> (ip in rl.whitelist
            || (ip !in rl.blacklist && upstream(rl.ratelimit, ip).Success? && upstream(rl.ratelimit, ip).value.success))
  {
  }

  /** `limit` fails exactly when the upstream limiter is consulted and fails,
      and the failure always carries the same message. */
  lemma LimitFailsIff(rl: Ratelimit, ip: string, now: int, upstream: UpstreamLimit)
    ensures rl.Limit(ip, now, upstream).Failure?
      <==> (ip !in rl.whitelist && ip !in rl.blacklist && upstream(rl.ratelimit, ip).Failure?)
    ensures rl.Limit(ip, now, upstream).Failure? ==> rl.Limit(ip, now, upstream).error == LimitFailedMessage
  {
  }

  /** A blocked identifier's reset is recomputed from the clock on every
      call: two calls are always a full block duration away from their own
      clock reading, so later calls get later resets. */
  lemma BlacklistResetFresh(rl: Ratelimit, ip: string, now1: int, now2: int, up1: UpstreamLimit, up2: UpstreamLimit)
    requires ip !in rl.whitelist && ip in rl.blacklist
    ensures rl.Limit(ip, now1, up1).Success? && rl.Limit(ip, now2, up2).Success?
    ensures !rl.Limit(ip, now1, up1).value.Success()
    ensures rl.Limit(ip, now2, up2).value.Reset() - rl.Limit(ip, now1, up1).value.Reset() == now2 - now1
  {
  }

  /** Because the limiter counts in the object's own store, an unlisted
      identifier's decision depends only on what upstream answers for that
      store and the current algorithm. */
  lemma UnlistedUsesOwnStore(rl: Ratelimit, ip: string, now: int, up1: UpstreamLimit, up2: UpstreamLimit)
    requires rl.Valid()
    requires ip !in rl.whitelist && ip !in rl.blacklist
    requires up1(Limiter(rl.redis, rl.ratelimit.limiter), ip) == up2(Limiter(rl.redis, rl.ratelimit.limiter), ip)
    ensures rl.Limit(ip, now, up1) == rl.Limit(ip, now, up2)
  {
  }

  /** Logging has no influence on a decision or on the block response:
      objects that agree on everything but `logging` and the store handle
      answer alike. */
  lemma LoggingIrrelevant(a: Ratelimit, b: Ratelimit, ip: string, now: int, upstream: UpstreamLimit)
    requires a.whitelist == b.whitelist && a.blacklist == b.blacklist
    requires a.blacklistConfig == b.blacklistConfig && a.ratelimit == b.ratelimit
    ensures a.Limit(ip, now, upstream) == b.Limit(ip, now, upstream)
    ensures a.CreateBlacklistResponse() == b.CreateBlacklistResponse()
  {
  }

  // ---- Retry-after arithmetic ---------------------------------------------

  /** The contract of `GetRetryAfter` pins the result down uniquely. */
  lemma FloorUnique(d: int, r1: int, r2: int)
    requires r1 * 1000 <= d < r1 * 1000 + 1000
    requires r2 * 1000 <= d < r2 * 1000 + 1000
    ensures r1 == r2
  {
    assert (r1 - r2) * 1000 < 1000 && (r2 - r1) * 1000 < 1000;
  }

  lemma RetryAfterMonotoneInReset(reset1: int, reset2: int, now: int)
    requires reset1 <= reset2
    ensures Ratelimit.GetRetryAfter(reset1, now) <= Ratelimit.GetRetryAfter(reset2, now)
  {
    var r1, r2 := Ratelimit.GetRetryAfter(reset1, now), Ratelimit.GetRetryAfter(reset2, now);
    assert (r1 - r2) * 1000 < 1000;
  }

  lemma RetryAfterAntitoneInNow(reset: int, now1: int, now2: int)
    requires now1 <= now2
    ensures Ratelimit.GetRetryAfter(reset, now2) <= Ratelimit.GetRetryAfter(reset, now1)
  {
    RetryAfterMonotoneInReset(reset - now2, reset - now1, 0);
  }

  /** The wait reads 0 exactly during the last second before `reset`. */
  lemma RetryAfterZeroIff(reset: int, now: int)
    ensures Ratelimit.GetRetryAfter(reset, now) == 0 <==> 0 <= reset - now < 1000
  {
    if 0 <= reset - now < 1000 {
      FloorUnique(reset - now, Ratelimit.GetRetryAfter(reset, now), 0);
    }
  }

  /** Without a clamp, the wait is negative exactly when `reset` has passed. */
  lemma RetryAfterNegativeIff(reset: int, now: int)
    ensures Ratelimit.GetRetryAfter(reset, now) < 0 <==> reset < now
  {
    var r := Ratelimit.GetRetryAfter(reset, now);
    if r < 0 {
      assert r * 1000 + 1000 <= 0;
    } else {
      assert 0 <= r * 1000;
    }
  }

  /** A reset a whole number of seconds ahead gives exactly that many seconds. */
  lemma RetryAfterWholeSeconds(now: int, k: int)
    ensures Ratelimit.GetRetryAfter(now + 1000 * k, now) == k
  {
    FloorUnique(1000 * k, Ratelimit.GetRetryAfter(now + 1000 * k, now), k);
  }

  /** A blocked identifier is told to wait the block duration, in whole
      seconds, when asked at the same clock reading. */
  lemma BlockedRetryAfter(rl: Ratelimit, ip: string, now: int, upstream: UpstreamLimit)
    requires ip !in rl.whitelist && ip in rl.blacklist
    ensures rl.Limit(ip, now, upstream).Success?
    ensures Ratelimit.GetRetryAfter(rl.Limit(ip, now, upstream).value.Reset(), now)
      == Ratelimit.GetRetryAfter(rl.blacklistConfig.blockDuration, 0)
  {
  }

  /** A whitelisted identifier's reset of 0 yields a negative wait at any
      positive clock reading, since nothing clamps it. */
  lemma WhitelistedRetryAfterNegative(rl: Ratelimit, ip: string, now: int, upstream: UpstreamLimit)
    requires ip in rl.whitelist && now > 0
    ensures Ratelimit.GetRetryAfter(rl.Limit(ip, now, upstream).value.Reset(), now) < 0
  {
    RetryAfterNegativeIff(0, now);
  }

  // ---- The scenario of the repository's tests --------------------------------

  /** The test fixture: window "10 s", one request, one whitelisted and one
      blacklisted address, a two-hour block. The upstream answer for the
      third address is the mocked one, an admission. */
  method TestScenario(now: int, upstream: UpstreamLimit)
    returns (allowed: Result<LimitResponse, string>, blocked: Result<LimitResponse, string>, limited: Result<LimitResponse, string>)
    requires upstream(Limiter(Redis("https://fake-redis-url", "fake-token"), SlidingWindow(1, "10 s")), "192.168.1.1").Success?
    requires upstream(Limiter(Redis("https://fake-redis-url", "fake-token"), SlidingWindow(1, "10 s")), "192.168.1.1").value.success
    ensures allowed == Success(Overlay(true, 0))
    ensures blocked == Success(Overlay(false, now + 7200 * 1000))
    ensures limited.Success? && limited.value.Success()
  {
    var rl := new Ratelimit(RatelimitOptions(
      "https://fake-redis-url", "fake-token", "10 s", 1, Some(true),
      Some(["127.0.0.1"]), Some(["203.0.113.1"]),
      Some(BlacklistConfig(7200 * 1000, "Your IP has been blacklisted."))));
    assert "192.168.1.1" != "127.0.0.1" && "192.168.1.1" != "203.0.113.1";
    assert "203.0.113.1" != "127.0.0.1";
    allowed := rl.Limit("127.0.0.1", now, upstream);
    blocked := rl.Limit("203.0.113.1", now, upstream);
    limited := rl.Limit("192.168.1.1", now, upstream);
  }
}
