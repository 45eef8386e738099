# Fixed-window rate limiter, modelled in Dafny

This project models the request rate limiter that runs as a Netlify edge
function in front of the site (`netlify/edge-functions/rate-limit.js`). For
every request the handler does three things:

- It decides whether the path is a static asset. Paths starting with
  `/assets/` or `/_next/`, or ending in `.png`, `.js`, `.css` or `.ico`, are
  exempt. They are let through without touching the counters.
- It derives the client identity from the `x-nf-client-connection-ip` header,
  or uses `"unknown"`. It then derives the hour index `floor(now / 3600000)`
  and the counter key `ip:hour`.
- It looks up the counter for that key in the module-level map. A count of 50
  or more gives a 429 response with `Retry-After: 3600`. Otherwise the counter
  becomes `{count + 1, resetAt: hour + 1}`. If the map then holds more than 500
  entries, every entry with `resetAt <= hour` is deleted.

Files:

- `wrappers.dfy` (module `Wrappers`): `Option`, used for the header that may
  be absent.
- `window_key.dfy` (module `WindowKey`): the string key `ip:hour`. The hour is
  written in decimal. `ParseKey` splits a key at its last colon, and the lemmas
  prove that the key determines the identity and the hour, even when the
  identity is an IPv6 address that contains colons.
- `rate_limit.dfy` (module `RateLimit`): the exemption test, the identity, the
  hour, and `Step`. The counter map is keyed by the pair `(ip, hour)`.
  `KeyMatchesStringKey` shows that two requests get the same pair exactly when
  they get the same string key. `Step` is a pure function giving one call's verdict and
  the map after it. `Run` folds `Step` over a sequence of requests. The class
  `RateLimiter` owns `rateMap`. Its method `Handle` updates the map in place,
  and its `SweepExpired` deletes keys one at a time in a loop. `Handle` is
  proved equal to `Step`, and the properties are proved as lemmas about
  `Step` and `Run`.

The map invariant `WellFormed` says that the entry under every key `(ip, h)`
has a count between 1 and 50 and `resetAt == h + 1`. Every call preserves it.

Two points about the code that the model keeps:

- The code does not bound the map: entries of the current hour are never
  swept, so more than 500 identities in one hour simply grow it. The model
  proves no bound.
- An empty header value counts as missing, because `''` is falsy, so it also
  becomes `"unknown"`. `Identity` models both cases.

## Model

| member | source | states |
|---|---|---|
| RateLimit.IsExempt | netlify/edge-functions/rate-limit.js:11-18 | A path is exempt exactly when it starts with one of the prefixes `/assets/`, `/_next/` or ends in one of `.png`, `.js`, `.css`, `.ico`. |
| RateLimit.ExemptAssets | netlify/edge-functions/rate-limit.js:11-18 | `/assets/logo.png`, `/_next/static/app`, `/favicon.ico`, `/main.js` and `/style.css` are exempt. |
| RateLimit.CountedByFirstAndLast | netlify/edge-functions/rate-limit.js:11-18 | A path whose second character is neither `a` nor `_` and whose last character is none of `g`, `s`, `o` is counted. |
| RateLimit.CountedPages | netlify/edge-functions/rate-limit.js:11-18 | `/`, `/merge-pdf` and `/data.json` are counted; an extension that only begins like `.js` is not exempt. |
| RateLimit.Identity | netlify/edge-functions/rate-limit.js:7 | The identity is the header value when it is present and non-empty, and `"unknown"` otherwise; it is never empty. |
| RateLimit.Hour | netlify/edge-functions/rate-limit.js:23 | The hour index is the floor of `now / 3600000`: `hour * 3600000 <= now < (hour + 1) * 3600000`. |
| WindowKey.Decimal | netlify/edge-functions/rate-limit.js:24 | The rendering of the hour in the key is a non-empty string of decimal digits, with no leading zero unless it is `"0"`. |
| WindowKey.DecimalRoundTrip | netlify/edge-functions/rate-limit.js:24 | Reading the decimal rendering back gives the hour. |
| WindowKey.KeyString | netlify/edge-functions/rate-limit.js:24 | The key is the identity, then a colon, then a non-empty run of decimal digits. |
| WindowKey.ParseKeyRoundTrip | netlify/edge-functions/rate-limit.js:24 | Splitting the key `ip:hour` at its last colon recovers `ip` and `hour`, whatever colons `ip` contains. |
| WindowKey.KeyStringInjective | netlify/edge-functions/rate-limit.js:24 | Two keys are equal if and only if they have the same identity and the same hour. |
| RateLimit.KeyOf | netlify/edge-functions/rate-limit.js:7-24 | The counter a request is charged to is its identity, which is never empty, paired with the hour whose window contains `now`. |
| RateLimit.KeyMatchesStringKey | netlify/edge-functions/rate-limit.js:7-24 | Two requests are charged to the same `(ip, hour)` pair if and only if the handler builds the same string key for them. |
| RateLimit.CountOf | netlify/edge-functions/rate-limit.js:27 | The stored count under a key, and 0 when the map has no entry for it. |
| RateLimit.TooManyRequestsResponse | netlify/edge-functions/rate-limit.js:30-36 | The refusal has status 429, content type `text/plain` and the fixed body text. Its `Retry-After` is the window length written in seconds (`"3600"`). |
| RateLimit.Swept | netlify/edge-functions/rate-limit.js:46-52 | The sweep keeps exactly the entries with `resetAt > currentHour`, each unchanged. |
| RateLimit.Written | netlify/edge-functions/rate-limit.js:40-43 | The write stores `{count + 1, resetAt: hour + 1}` under the key and leaves every other entry as it was: the result is the old map with only that key overwritten. The keys are the old keys plus this one, and the size grows by one exactly when the key was new. |
| RateLimit.Admit | netlify/edge-functions/rate-limit.js:39-52 | After the write and any sweep, the key holds `{old count + 1, hour + 1}` and no key outside the old map and this key is present. |
| RateLimit.AdmitEffect | netlify/edge-functions/rate-limit.js:39-52 | After an admitted request the key holds `{old count + 1, hour + 1}`. No other key is added or changed. Another key is removed only when the map has grown past 500 entries and its `resetAt <= currentHour`. |
| RateLimit.Step | netlify/edge-functions/rate-limit.js:6-60 | One call of the handler: the answer is Allow or the 429 response, and an exempt path or a refusal leaves the map unchanged. |
| RateLimit.StepOutcome | netlify/edge-functions/rate-limit.js:11-59 | An exempt path gives Allow with the map unchanged. The verdict is always Allow or the 429 response. It is the 429 response exactly when the path is counted and the stored count is at least 50; the map is then unchanged. Otherwise the map is updated as `Admit` says. |
| RateLimit.Run | netlify/edge-functions/rate-limit.js:6-60 | Handling a sequence of requests gives one verdict per request. |
| RateLimit.StepPreservesWellFormed | netlify/edge-functions/rate-limit.js:27-52 | Every call keeps each entry keyed `(ip, h)` with `1 <= count <= 50` and `resetAt == h + 1`. |
| RateLimit.RunPreservesWellFormed | netlify/edge-functions/rate-limit.js:27-52 | Any sequence of calls from a well-formed map, the empty one included, keeps it well formed. |
| RateLimit.SweepRemovesOnlyPastHours | netlify/edge-functions/rate-limit.js:45-52 | In a well-formed map, a call removes only entries of hours before the current one, and never the entry it writes. |
| RateLimit.VerdictDependsOnOwnCounter | netlify/edge-functions/rate-limit.js:22-29 | The verdict depends on the map only through the counter of the request's own identity and hour, so counts of other hours never affect it. |
| RateLimit.StepLeavesOtherCounters | netlify/edge-functions/rate-limit.js:39-52 | A call never raises the count stored under any other key. |
| RateLimit.StepOnOwnCounter | netlify/edge-functions/rate-limit.js:27-43 | A counted request is admitted exactly when its count is below 50. If admitted, the count goes up by one; if refused, it stays the same. |
| RateLimit.SameCounterRun | netlify/edge-functions/rate-limit.js:27-43 | For n requests charged to one counter, the i-th is admitted exactly when the starting count plus i is below 50. The final count is `min(start + n, 50)`. |
| RateLimit.RunLeavesOtherCounters | netlify/edge-functions/rate-limit.js:22-52 | Requests charged to one counter never raise any other counter. |
| RateLimit.FiftyPerHour | netlify/edge-functions/rate-limit.js:22-43 | 51 requests from one identity in one hour, from a map with no counter of that identity for this hour or the next (a fresh map among them): the first 50 are allowed and the 51st gets the 429 response. A request in the next hour is allowed again. |
| RateLimit.RateLimiter.constructor | netlify/edge-functions/rate-limit.js:3-4 | A fresh instance, as after a cold start, has an empty, well-formed map. |
| RateLimit.RateLimiter.Handle | netlify/edge-functions/rate-limit.js:6-60 | The returned verdict and the new `rateMap` are exactly `Step` of the old map. An exempt path leaves the map untouched. The map invariant is kept. |
| RateLimit.RateLimiter.SweepExpired | netlify/edge-functions/rate-limit.js:46-52 | Deleting stale keys one by one leaves exactly `Swept` of the old map, whatever order the keys are visited in. |

## Left out

- Parsing of `request.url` and reading of the header: the handler takes the pathname and the optional header value as parameters, because both are web-platform APIs.
- `Date.now()`: the time is a parameter `now: nat` in milliseconds. Time is not assumed to be monotonic, so entries of future hours survive a sweep, as they would in the code.
- Construction of the `Response` object: the outcome is a `Verdict` value carrying status, content type, `Retry-After` value and body; `Allow` stands for returning `undefined`.
- The `try`/`catch` fail-open path and `console.error`: map operations cannot fail in the model, so that path cannot be reached. Every call that does not return the 429 response returns Allow.
- `export const config`, cold starts beyond a fresh instance with an empty map, and concurrency across edge isolates: the code does nothing to control concurrency, and each call of `Handle` is atomic in the model.
- Rendering of very large hours: `WindowKey.Decimal` writes the hour the way JavaScript renders integers below 10^21. Larger numbers switch to exponent notation, which a millisecond timestamp divided by 3600000 does not reach.
- A bound on the size of the map: the code does not guarantee one, so none is claimed.
