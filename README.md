# Power BI embed token cache — verified model

This project models the backend of a small Power BI embedding integration: an
Express server whose `/api/embed-dashboard` endpoint returns `{embedUrl, token}`
for one report. The embed token comes from a single-slot, time-based cache
(`cachedToken`, `tokenExpiry`). On a miss, `getEmbedToken` asks the identity
provider for an access token (client-credentials grant), then calls Power BI's
`GenerateToken` with it. Only when both succeed does it store the new token with
an expiry 60 minutes (3,600,000 ms) after the clock reading it took on entry.
The handler then always requests a second, fresh access token and GETs the
report to read its `embedUrl`. Any failure is answered with status 500 and the
fixed text `Failed to generate embed token`.

Files:

- `outcomes.dfy` (`Outcomes`): `Option` (absent = JavaScript `null`/`undefined`) and `Result` (a value, or the error a step threw).
- `js_values.dfy` (`JsValues`): the JavaScript semantics the cache guard depends on: truthiness, the value-returning `&&`, and `<` against `null`.
- `token_cache.dfy` (`TokenCache`): the slot, the upstream calls, the hit test, and `Obtain` (one call of `getEmbedToken` as a pure state transition), with lemmas about consecutive calls.
- `embed_dashboard.dfy` (`EmbedDashboard`): the handler as a pure function `Handle`, and `Serve`, which runs a sequence of requests one after another against the shared slot. It also holds lemmas about whole request sequences.
- `backend.dfy` (`Backend`): the imperative code. `EmbedTokenCache` is a class whose two fields `GetEmbedToken` reads and overwrites in place. `HandleEmbedDashboard` is the straight-line handler. Each method's postcondition equates its result, its calls and the new field values with the pure functions `Obtain` and `Handle`.

The clock and the upstream services are inputs. Each request carries its clock reading and the outcome that each of its upstream calls would have if it is made. Each operation also returns the upstream calls it actually made, in order, with the `Authorization` header each one carries.

Two consequences of `index.js` that the model makes explicit:

- The cache test on line 56 (`cachedToken && tokenExpiry && currentTime < tokenExpiry`) uses JavaScript truthiness. An empty or absent token, or a zero expiry, is therefore a miss, and a stored empty or absent token is regenerated on every call.
- `getEmbedToken` rethrows the upstream error unchanged (lines 87-89). The handler answers every failure with the same 500, whatever the error was.

## Model

| member | source | states |
|---|---|---|
| JsValues.And | powerbi-embed-backend/api/index.js:56 | `a && b` is truthy iff both operands are; it yields `a` when `a` is falsy and `b` otherwise |
| JsValues.LessThan | powerbi-embed-backend/api/index.js:56 | `currentTime < tokenExpiry` compares numerically against a number, against `null` as against 0, and is false against `undefined` |
| TokenCache.GuardIsHit | powerbi-embed-backend/api/index.js:56 | the JavaScript guard is truthy exactly when the token is a non-empty string, the expiry is non-zero, and `now` is strictly before the expiry; every other case is a miss |
| TokenCache.Obtain | powerbi-embed-backend/api/index.js:53-91 | hit: cached token returned, no upstream call, slot unchanged; miss: access token first, then GenerateToken with `Bearer <token>`; both succeed: slot becomes (new token, entry time + 3,600,000) and that token is returned; either fails: that error is rethrown and the slot is untouched; the slot changes only through a successful regeneration |
| TokenCache.RegeneratedTokenLifetime | powerbi-embed-backend/api/index.js:54-86 | after a successful regeneration at `now` with a non-empty token, a later call at `t` makes no upstream call exactly when `t < now + 3,600,000`, and then returns the same token and keeps the slot |
| TokenCache.FalsyTokenNeverCached | powerbi-embed-backend/api/index.js:56-84 | a regeneration that stored an empty or absent token never produces a hit: the next call goes upstream again |
| EmbedDashboard.Handle | powerbi-embed-backend/api/index.js:94-123 | success exactly when getEmbedToken, the fresh access token and the report GET all succeed; the response is then `{embedUrl, token}` with the returned token and the report's embedUrl; otherwise it is the 500 with the fixed body; the calls are getEmbedToken's, then (only if it succeeded) the access-token request, then (only if that succeeded) the report GET with `Bearer <fresh token>`, with nothing called after the first failure; a later failure does not undo the cache write |
| EmbedDashboard.AccessTokensPerRequest | powerbi-embed-backend/api/index.js:96-109 | once getEmbedToken has succeeded, the request makes one access-token call on a cache hit and two on a miss, even if the later steps fail; a fully successful request makes two, respectively four, upstream calls |
| EmbedDashboard.Serve | powerbi-embed-backend/api/index.js:94-123 | serving a sequence of requests yields one response and one call list per request; every response is `{embedUrl, token}` or the fixed 500, with at most four upstream calls per request |
| EmbedDashboard.ServedFromCache | powerbi-embed-backend/api/index.js:54-59 | while every request's clock reading is before the cached expiry, no request calls GenerateToken, every successful response carries the cached token, and the slot never changes |
| EmbedDashboard.OneRegenerationPerLifetime | powerbi-embed-backend/api/index.js:56-86 | after one request regenerates a non-empty token, every later request before its expiry is answered with that token without calling GenerateToken |
| EmbedDashboard.ServeAppend | powerbi-embed-backend/api/index.js:21-22 | serving one more request continues from the slot the earlier requests left: its response and calls are appended and the slot is what that request's handling leaves |
| EmbedDashboard.SlotIsLastRegeneration | powerbi-embed-backend/api/index.js:83-84 | last write wins: after any sequence of requests the slot is exactly the (token, expiry) pair written by the last request that missed the cache and had both upstream calls succeed, or the initial slot when no request did; it never holds a partial update |
| Backend.EmbedTokenCache.constructor | powerbi-embed-backend/api/index.js:21-22 | both slot fields start out absent (`null`) |
| Backend.EmbedTokenCache.GetEmbedToken | powerbi-embed-backend/api/index.js:53-91 | the returned token or error, the calls made and the new field values are exactly those of `Obtain` on the old fields; on an error both fields keep their previous values |
| Backend.HandleEmbedDashboard | powerbi-embed-backend/api/index.js:94-123 | the response, the calls made and the new cache fields are exactly those of `Handle` on the old fields |

## Left out

- The real HTTP calls (the OAuth 2.0 client-credentials token request of section 4.4 of RFC 6749, `GenerateToken`, the report GET): each is an outcome supplied with the request. The access token is treated as an opaque string.
- The CORS registration inside `getAccessToken` (`app.use(cors(...))`, `app.options(...)`), the Express setup, `app.listen`, and environment loading: framework side effects, not cache logic.
- All `console.log` / `console.error` output.
- The system clock: `new Date().getTime()` becomes the `now` field of a request, read once on entry to `getEmbedToken`.
- Concurrency: requests are served one at a time. The interleavings in which two requests race on the unguarded slot are not modelled.
- `null` versus `undefined`: both are `None`, in the slot and in the response. In the slot they are equally falsy, so the cache decision is the same; the model does not distinguish a token that was never set from a `GenerateToken` response without a `token` field. In the response, a `token` or `embedUrl` that the upstream sent as `null` would be serialised as `null`, while an absent one is omitted; `EmbedJson` with `None` does not tell these apart.
- The React frontend (`PowerBIDashboard.js`, `App.js`): UI state, the refresh timer and the embedding library are not part of this model.
