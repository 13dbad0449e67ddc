# cutz-redis-ratelimit: the `Ratelimit` wrapper in Dafny

This project models the `Ratelimit` class of `src/index.ts`. The class wraps an
upstream sliding-window rate limiter (the `@upstash/ratelimit` package over a
Redis store) and adds four things of its own:

- an allow/deny overlay. A whitelisted identifier is always admitted with reset 0.
  A blacklisted identifier that is not whitelisted is always refused, with a reset
  one block duration after the current time. Only other identifiers reach the upstream limiter. Its answer is
  passed through unchanged, and a thrown error becomes "Rate limiting failed".
- the retry-after computation: whole seconds until a reset, rounded down.
- the 429 and 403 responses.
- replacing the limiter configuration at run time.

Modelling choices:

- The clock (`Date.now()`) is an explicit `now: int` in milliseconds.
- The upstream limiter is an oracle parameter of type `UpstreamLimit`. It maps the
  limiter in effect and the identifier to the upstream result record or to a
  thrown error. So the lemmas hold for every possible upstream behaviour.
- The class keeps the source's fields: `ratelimit`, `redis`, `whitelist`,
  `blacklist`, `blacklistConfig` and `logging`. The constructor and
  `UpdateConfig` assign them in place. `Limit`, `CreateBlacklistResponse` and
  the rest are functions that read them.

Modules:

- `Wrappers`: Option and Result types.
- `Decimal`: the decimal rendering that a template literal gives an integral
  number, plus its parser. This is what makes the `retry-after` header
  checkable.
- `Ratelimit`: the data types, constants and the class.
- `RatelimitFacts`: lemmas that relate several calls or objects, and the test
  fixture of `__tests__/ratelimit.test.ts`.

Behaviour of the code worth noting:

- `getRetryAfter` (src/index.ts:86) does not clamp at zero. A reset in the past gives a negative
  number (`RetryAfterNegativeIff`), and so does the whitelist's reset of 0 at any
  positive time (`WhitelistedRetryAfterNegative`).
- `updateConfig` (src/index.ts:108-118) does not validate its arguments. It never rejects a
  non-positive window or quota; it simply builds the new limiter.
- There is no separate "store unavailable" result (src/index.ts:78-81). Every
  upstream error becomes the same thrown error, "Rate limiting failed".

## Model

| member | source | states |
|---|---|---|
| `Ratelimit.Ratelimit.constructor` | src/index.ts:28-52 | Defaults apply for omitted options: `logging` false, empty lists, block duration 3600000 ms and message "Access Denied". List membership equals membership in the supplied arrays. The limiter uses the supplied quota and window over the object's own store. |
| `Ratelimit.ToSet` | src/index.ts:48-49 | A string is in the set built from an array exactly when it occurs in the array. |
| `Ratelimit.Ratelimit.Limit` | src/index.ts:60-82 | Whitelisted gives `{success: true, reset: 0}`. Blacklisted and not whitelisted gives `{success: false, reset: now + blockDuration}`. Any other identifier gets the upstream record for `(ratelimit, ip)` unchanged, or the failure "Rate limiting failed" when upstream throws. |
| `Ratelimit.Ratelimit.GetRetryAfter` | src/index.ts:84-87 | The result r is the floor of `(reset - now) / 1000`: `1000*r <= reset - now < 1000*r + 1000`. |
| `Ratelimit.Ratelimit.CreateRateLimitResponse` | src/index.ts:89-97 | Status 429, body "Too Many Requests", exactly one header, `retry-after`. The header's value is a canonical decimal numeral that parses back to `retryAfter`. |
| `Ratelimit.Ratelimit.CreateBlacklistResponse` | src/index.ts:99-106 | Status 403, which differs from 429. The body is the configured block message, and no header is set. |
| `Ratelimit.Ratelimit.UpdateConfig` | src/index.ts:108-118 | The limiter becomes the new `(maxRequests, time)` over the same store. Every other field is unchanged, and so is the decision for every listed identifier. |
| `RatelimitFacts.WhitelistPrecedence` | src/index.ts:61-72 | An identifier on both lists is admitted with reset 0. |
| `RatelimitFacts.ListedIgnoresUpstream` | src/index.ts:61-72 | For a listed identifier, any two upstream oracles give the same decision, so upstream is never consulted. |
| `RatelimitFacts.LimitSucceedsIff` | src/index.ts:60-82 | Success is reported iff the identifier is whitelisted, or it is not blacklisted and upstream answers with `success` true. |
| `RatelimitFacts.LimitFailsIff` | src/index.ts:74-81 | `limit` throws iff the identifier is unlisted and upstream throws. The error is always "Rate limiting failed". |
| `RatelimitFacts.BlacklistResetFresh` | src/index.ts:66-72 | A blocked identifier is refused on every call. The reset is recomputed from the clock each time: resets differ by exactly the difference of the clock readings. |
| `RatelimitFacts.UnlistedUsesOwnStore` | src/index.ts:43-46 | For a valid object and an unlisted identifier, the decision depends only on the upstream answer for a limiter over the object's own store with its current algorithm. |
| `RatelimitFacts.LoggingIrrelevant` | src/index.ts:54-58 | Objects that differ only in `logging` (and the store handle) give the same decisions and the same block response. |
| `RatelimitFacts.FloorUnique` | src/index.ts:86 | The floor contract of `GetRetryAfter` determines its result uniquely. |
| `RatelimitFacts.RetryAfterMonotoneInReset` | src/index.ts:84-87 | A later reset never gives a shorter wait. |
| `RatelimitFacts.RetryAfterAntitoneInNow` | src/index.ts:84-87 | A later clock reading never gives a longer wait. |
| `RatelimitFacts.RetryAfterZeroIff` | src/index.ts:84-87 | The wait is 0 iff `0 <= reset - now < 1000`. |
| `RatelimitFacts.RetryAfterNegativeIff` | src/index.ts:84-87 | The wait is negative iff the reset has passed, because nothing clamps it. |
| `RatelimitFacts.RetryAfterWholeSeconds` | src/index.ts:84-87 | A reset exactly k seconds ahead gives a wait of k. |
| `RatelimitFacts.BlockedRetryAfter` | src/index.ts:66-72 | Asked at the same clock reading, a blocked identifier's wait is the block duration in whole seconds, independent of `now`. |
| `RatelimitFacts.WhitelistedRetryAfterNegative` | src/index.ts:61-64 | Asked at any positive time, a whitelisted identifier's reset of 0 gives a negative wait. |
| `RatelimitFacts.TestScenario` | __tests__/ratelimit.test.ts:8-41 | With the test fixture, "127.0.0.1" is admitted with reset 0. "203.0.113.1" is refused with reset `now + 7200000`. "192.168.1.1" is admitted when the mocked upstream admits it. |
| `Decimal.NatToString` | src/index.ts:94 | Renders a natural number as a canonical numeral: non-empty, digits only, no leading zero. It starts with '0' iff the number is 0. |
| `Decimal.IntToString` | src/index.ts:94 | Renders an integer canonically, with a leading '-' iff it is negative. |
| `Decimal.ParseInt` | src/index.ts:94 | Accepts exactly an optional '-' followed by at least one digit. |
| `Decimal.NatRoundTrip` | src/index.ts:94 | The digits of a rendered natural number evaluate back to it. |
| `Decimal.IntRoundTrip` | src/index.ts:94 | Parsing a rendered integer gives the integer back. |
| `Decimal.CanonicalNatRoundTrip` | src/index.ts:94 | Rendering the value of a canonical numeral gives the same numeral. |
| `Decimal.CanonicalIntRoundTrip` | src/index.ts:94 | A canonical integer text parses and renders back to itself, so rendering is a bijection onto canonical texts. |

## Left out

- The sliding-window counting algorithm of `@upstash/ratelimit` (src/index.ts:45, 116), its Redis store, and the store's network round trips (src/index.ts:38-41). That code is not part of this model. The upstream limiter is an oracle parameter, and the store handle is kept only as its connection settings.
- `Limit`'s oracle is a pure function of the limiter and the identifier for one call. The model does not capture that repeated calls to the real limiter change its counters. The lemmas quantify over all oracles instead.
- async/await and the upstream record's `pending` promise: `limit` is modelled as one sequential step.
- `console.log` output (`log`, src/index.ts:54-58) is a side effect with no influence on any result. The model omits it, and `LoggingIrrelevant` shows the decisions do not depend on `logging`.
- Parsing of `Duration` strings such as "10 s" happens in the upstream package. Here `Duration` is an opaque string.
- The web `Response` object is modelled as a status, body and header map. Headers the `Response` constructor adds on its own, such as the content type of a text body, are not modelled.
- JavaScript numbers are IEEE doubles; the model uses unbounded integers. `GetRetryAfter` and `IntToString` do not model rounding above 2^53, non-integral arguments, NaN, infinities, or the exponent notation a template literal uses from 1e21 upward.
- `blacklistConfig` is held as a value. The source keeps a reference to the caller's object (src/index.ts:50), so later changes by the caller would show in `limit` and `createBlacklistResponse`. The model does not capture this aliasing.
- Exceptions thrown by the upstream limiter are modelled as a `Failure` carrying a message. The message itself is discarded by `limit`, as in the source.
- The compiled `dist/index.js` (an older version without the lists), `dist/index.d.ts` (types only), `gulpfile.js` (build tooling) and the tests' HTTP mocking are not part of this model. The upstream record's shape follows `dist/index.d.ts:25-36`.
