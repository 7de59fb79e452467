# Browser-local URL shortener: link lifecycle model

This project models the store logic of a client-side URL shortener. The page
keeps two maps, `urlDB` (short code → destination and expiry) and `statsDB`
(short code → click history and click counter), plus a session event log.
Two operations change them:

- `createShortUrl` ignores an empty URL. It picks the custom code, or else
  the first six characters of a generated id. It rejects a code that is
  already stored. Otherwise it stores the link and a zero stats entry,
  writes both maps to storage, logs the creation and returns
  `origin/code`.
- The redirect path reports an unknown code and an expired code (expired
  means `now > expiry`, strictly). Otherwise it counts the click, appends
  one click record, writes `statsDB` to storage, logs the redirect and
  navigates to the destination.

Layout:

- `wrappers.dfy`: the `Option` type.
- `logger.dfy` (module `Logger`): the log record, `Append` (the
  specification of one `log` call), and the class `EventLog` with `Log` and
  `GetLogs`.
- `shortener.dfy` (module `Shortener`): the data model, the invariant
  `Consistent` (equal key sets, `total == |clicks|`), and the two operations
  as functions on a `State` value. Their contracts give the outcome
  conditions in both directions and the frame: failures change nothing, and
  nothing but the named key changes.
- `service.dfy` (module `Service`): the class `LinkService`. It holds the
  maps as fields changed in place, the persisted copies, and the shared
  `EventLog`. Its methods run the source's steps in order and are proved to
  end in the state the `Shortener` functions give. They also keep `Valid()`.
- `lifecycle.dfy` (module `Lifecycle`): runs of many requests, with
  inductive proofs about one page session: consistency holds throughout,
  links never change, and click histories and the log only grow at their
  ends. Click histories stay
  in time order while the clock runs forward. Repeated visits count exactly.
  A created link resolves up to and including its expiry instant.

The clock (`now`, integer milliseconds), the generated id, the referrer and
the page origin are parameters. Each operation takes a single clock reading
(see "## Left out" for how the source differs).
Validity is `Option<int>` minutes. `None` stands for an empty form field
(30 minutes). `Some(m)` is used as given, including 0 and negative values,
because the field's non-empty text is truthy.

Two behaviours of the source on inconsistent stored data are modelled as
written:

- When `statsDB` lacks a live code, `statsDB[code].total`
  (build/App.js:179) throws a TypeError before anything changes. The model
  gives the outcome `MissingStats` with no change. It proves this cannot
  happen while the stores are `Consistent`.
- Creating a code that is already in `statsDB` but not in `urlDB`
  overwrites that code's click history (build/App.js:113).
  `Lifecycle.RunExtendsClickHistories` therefore requires `Consistent`.

## Model

| member | source | states |
|---|---|---|
| `Logger.Append` | build/logger.js:3-10 | one record makes the log one longer; every earlier record keeps its place; the new last record carries the given message, type and time |
| `Logger.EventLog.constructor` | build/logger.js:1 | the log of a new session is empty |
| `Logger.EventLog.Log` | build/logger.js:3-10 | `log` appends exactly one record at the end; the type is "INFO" when none is given |
| `Logger.EventLog.GetLogs` | build/logger.js:13 | `getLogs` returns the whole log in append order and changes nothing |
| `Shortener.Prefix` | build/App.js:102 | `slice(0, 6)` returns a prefix of the id, of length 6 or the whole id when it is shorter |
| `Shortener.ChosenCode` | build/App.js:102 | a non-empty custom code is used verbatim; otherwise the code is a prefix of the generated id, 6 characters long when the id has at least 6 |
| `Shortener.CreateShortUrl` | build/App.js:99-123 | the result is `Ignored` exactly when the URL is empty, and `Created` exactly when the URL is non-empty and the chosen code is not a key of `urlDB`; the alert occurs exactly when the chosen code is already a key; every failure leaves stores and log unchanged. On success: the code is new; `urlDB[code]` is the URL with expiry `now + m*60000`, where m is the validity or 30; `statsDB[code]` is empty with counter 0; every other entry is unchanged; one log record is added; the result is `origin + "/" + code` |
| `Shortener.Redirect` | build/App.js:167-192 | "invalid or expired" exactly when the code is missing; "expired" exactly when `now > expiry`; neither changes anything. Otherwise the counter rises by 1 and exactly one click (time, referrer or "Direct", placeholder location) is appended; `urlDB` and all other stats entries are unchanged; one log record is added; the destination is the stored long URL |
| `Shortener.CreatePreservesConsistency` | build/App.js:112-113 | creation keeps the key sets of both stores equal and every counter equal to its history length |
| `Shortener.RedirectPreservesConsistency` | build/App.js:179-184 | a visit keeps both stores consistent |
| `Shortener.ConsistentRedirectNeverThrows` | build/App.js:170-180 | on consistent stores, a visit never reaches a missing stats entry; it resolves exactly when the code is stored and not past its expiry |
| `Service.LinkService.Load` | build/App.js:7-8 | page load sets both in-memory stores and their stored copies from storage |
| `Service.LinkService.CreateShortUrl` | build/App.js:99-123 | the in-place updates and the log call end in the state `Shortener.CreateShortUrl` gives; both maps are written to storage only on success; `Valid()` is kept |
| `Service.LinkService.Redirect` | build/App.js:167-192 | the counter increment and the click push end in the state `Shortener.Redirect` gives; only `statsDB` is written to storage, and only on success; `Valid()` is kept |
| `Lifecycle.StepPreservesConsistency` | build/App.js:99-192 | either request keeps the stores consistent |
| `Lifecycle.RunPreservesConsistency` | build/App.js:99-192 | after any sequence of creations and visits, both stores still have the same keys and every counter equals its history length |
| `Lifecycle.RunKeepsLinks` | build/App.js:103-113 | a stored link, expired or not, is never changed or removed |
| `Lifecycle.RunExtendsClickHistories` | build/App.js:179-184 | on consistent stores, stats entries are never removed and a click history is only ever extended at its end |
| `Lifecycle.RunExtendsLog` | build/logger.js:3-10 | across any run, the earlier log is a prefix of the later one, with at most one new record per request |
| `Lifecycle.StepKeepsClicksChronological` | build/App.js:180-184 | a request whose clock is not earlier than any recorded click keeps every history in time order |
| `Lifecycle.RunKeepsClicksChronological` | build/App.js:180-184 | while the clock never runs backwards, every click history stays in time order |
| `Lifecycle.RepeatedVisits` | build/App.js:179-184 | n visits to a live code raise its counter by exactly n and append exactly the n clicks in visit order; `urlDB` is untouched; n log records are added |
| `Lifecycle.VisitsToNewLink` | build/App.js:179-184 | a new link visited n times before expiry has counter n and n clicks, carrying the visit times in order |
| `Lifecycle.CreateThenRedirect` | build/App.js:108-177 | after a successful creation, visiting the new code resolves to the long URL up to and including the expiry instant, and reports "expired" after it |
| `Lifecycle.OneMinuteBoundary` | build/App.js:108-177 | a link valid for one minute resolves 59 s and 60 s later and is expired 61 s later |

## Left out

- React rendering, hooks and styles (build/App.js:10-97, 125-165, 195-222). They are presentation only. The statistics view only reads `statsDB` and `getLogs()`.
- Routing (build/App.js:224-232). The model's `Redirect` takes the code directly. In the source, a code reaches `Redirector` only through the `/:code` route. The custom code "stats" is accepted by `createShortUrl`, but `/stats` shows the statistics view. A code containing "/", "?" or "#" does not arrive at `/:code` intact. So `Lifecycle.CreateThenRedirect` speaks of the code passed to `Redirect`, not of every short URL a user can open.
- Separate clock readings within one operation. The model uses one `now` per operation. The source reads the clock separately: creation for the expiry (build/App.js:109) and for the log record (build/logger.js:7); a redirect for the expiry check (build/App.js:175), the click stamp (build/App.js:181) and the log record. So in the source a click can be stamped after the instant the check passed, and even after the link's expiry. In the model a click's timestamp is the check instant and never lies after the expiry.
- `localStorage` and JSON. Storage is modelled as plain copies of the maps (`storedUrlDB`, `storedStatsDB`), assigned where the source writes them.
- `Service.LinkService.Load`: a service built by `Load` still holds each expiry as a number, so a later `Redirect` reports a link past its expiry as expired. In the source, `JSON.parse` (build/App.js:7) gives back `expiry` as ISO text, and `new Date() > entry.expiry` (build/App.js:175) is then always false. So in the source a link read back from storage never expires, and every visit to it redirects and records a click. The model's expiry check matches only the page session that created the link.
- `Lifecycle.Run`: a run models one page session, with one pair of in-memory maps and one log. The short link opens in a new tab (build/App.js:158). Each page loads both maps from storage (build/App.js:7-8) and starts with an empty log (build/logger.js:1). Pages share the stores only through whole-map writes (build/App.js:116-117, 187), and the last writer wins. So across pages, links and clicks can be lost. For example, two pages load an empty `urlDB`, one creates "x" and then the other creates "y": storage holds only "y". Likewise, a page loaded earlier can create a link and wipe out a click that a visit page stored. `Lifecycle.RunKeepsLinks` and `Lifecycle.RunExtendsClickHistories` hold for one page's in-memory maps, not for what storage holds across pages.
- `uuidv4`, `Date.now()`/`new Date()`, `document.referrer` and `window.location`. These become parameters. Navigation becomes the `Redirecting` outcome. The alert becomes the `Rejected` outcome.
- Timestamps are integer milliseconds. Their ISO-8601 text, the `Date` range limit and fractional or non-numeric validity input are not modelled.
- Keys inherited from `Object.prototype` (for example "toString") look like existing entries to the source's truthiness checks. The model treats keys as plain map keys.
- `Logger.EventLog.GetLogs`: returns a copy of the log. The source hands out the live array, so a caller's changes would be visible to the log. This aliasing is not modelled.
- Render-time side effects (StrictMode double invocation, re-renders counting a click again). These are framework behaviour.
