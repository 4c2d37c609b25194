# Paste lifecycle model

A Dafny model of the core of a small pastebin service. Clients submit text and
get back a short id. They can then read the text until it expires, either by
elapsed time (`ttl_seconds`) or by view count (`max_views`).

The model covers three parts of the service:

- **Helpers** (`helpers.dfy`, module `Helpers`), from `src/utils/helpers.ts`:
  - the id alphabet and the id generator;
  - `calculateExpiry`, `isExpired` and `isViewLimitExceeded`;
  - `escapeHtml`, proved equal to a per-character escape, distributive over
    concatenation, free of `<`, `>`, `"` and `'`, and reversible.
- **Paste store** (`paste.dfy`, module `PasteModel`), from `src/models/paste.ts`:
  - the `pastes` table is a `map<string, Paste>` field of the class `PasteStore`;
  - `CreatePaste`, `GetPaste`, `DeleteExpiredPastes` and `GetStats` are methods
    proved against the specification functions `NewPaste`, `ReadResult`/`AfterRead`,
    `Swept` and `ActiveIds`;
  - the lemmas cover: views never pass the limit, a paste with limit N is
    readable exactly N times, the sweep removes exactly the non-live rows and is
    idempotent, and after a sweep every row is active.
- **Controller** (`paste_controller.dfy`, module `PasteController`), from
  `src/controllers/pasteController.ts`:
  - the acceptance rules for a new paste, checked in source order;
  - JavaScript `trim()`, applied to the content before it is stored;
  - the `remaining_views` and `expires_at` fields of a successful read;
  - the two JSON handlers as methods over the store.

`base.dfy` (module `Base`) holds `Option` and `Result`.

Conventions:
- Instants are integer milliseconds.
- The current instant is always a parameter `now`. It stands for the request
  time in `getPaste` and for the database's `NOW()` in the sweep and the statistics.
- The id generator's randomness is a parameter: ten draws, each a position in
  the 62-symbol alphabet.
- JavaScript truthiness of an optional number is `Truthy`: absent and 0 are falsy.
  `calculateExpiry`, `isViewLimitExceeded`, the `|| null` of `createPaste` and
  `remaining_views` all use it.

Behaviour of the code worth noting:
- An id collision is not retried. The INSERT fails on the primary key, nothing
  is written, and the handler answers 500. This is `DuplicateId` / `ServerError`.
- `deleteExpiredPastes` returns nothing, not a count.
- `calculateExpiry` does not reject a non-positive TTL. A TTL of 0 means no
  expiry. A negative TTL gives an expiry in the past. Only the handler rejects
  both.
- `getPaste` reads and then updates in two steps. The model makes the read one
  sequential step (see "Left out").
- The sweep's view test is `max_views IS NOT NULL AND views >= max_views`. The
  read's test treats a `max_views` of 0 as unlimited. The two differ only on a
  stored `max_views` of 0. `createPaste` never stores 0 (`|| null`), so the
  table invariant excludes it. `PredicatesAgree` proves the two tests agree
  under that invariant.

## Model

| member | source | states |
|---|---|---|
| `Helpers.IdFromDraws` | src/utils/helpers.ts:3-8 | the generated id has 10 symbols, each the alphabet symbol chosen by its draw |
| `Helpers.IdGeneratorRange` | src/utils/helpers.ts:3-4 | the alphabet has 62 symbols; the generator produces exactly the 10-symbol strings over it |
| `Helpers.OrNull` | src/models/paste.ts:34 | a truthy number is kept; an absent number or 0 becomes null |
| `Helpers.CalculateExpiry` | src/utils/helpers.ts:10-15 | no expiry iff the TTL is absent or 0; otherwise the expiry is `now` plus the TTL in milliseconds, strictly later than `now` for a TTL of at least 1 |
| `Helpers.ExpiryBoundary` | src/utils/helpers.ts:17-20 | without an expiry nothing is expired; with one, expired iff `now >= expiresAt`, so already at the boundary instant and not 1 ms before |
| `Helpers.ExpiredStaysExpired` | src/utils/helpers.ts:17-20 | once time-expired, expired at every later instant |
| `Helpers.TtlBoundary` | src/utils/helpers.ts:10-20 | a paste with TTL T is not expired at creation, and is expired at `now` iff `now >= created + T*1000` |
| `Helpers.ViewLimitCases` | src/utils/helpers.ts:22-25 | no limit and limit 0 never exceed; otherwise exceeded iff `views >= maxViews` |
| `Helpers.IsExpired` | src/utils/helpers.ts:17-20 | no expiry is never expired; otherwise expired iff `now >= expiresAt` (its properties are stated by `ExpiryBoundary` and `ExpiredStaysExpired`) |
| `Helpers.IsViewLimitExceeded` | src/utils/helpers.ts:22-25 | a falsy limit is never exceeded; otherwise exceeded iff `views >= maxViews` (its cases are stated by `ViewLimitCases`) |
| `Helpers.ReplaceAll` | src/utils/helpers.ts:37-41 | `replace(/c/g, rep)`: every occurrence of one character replaced by a string, left to right (its properties are stated by `ReplaceAllAppend` and `ReplaceAllAbsent`) |
| `Helpers.EscapeHtml` | src/utils/helpers.ts:35-42 | the five global replaces in source order, `&` first (its properties are stated by the lemmas below) |
| `Helpers.EscapeChar` | src/utils/helpers.ts:35-42 | a character maps to itself iff it is none of `& < > " '`; each of those five maps to a longer entity |
| `Helpers.ReplaceAllAppend` | src/utils/helpers.ts:37-41 | each global single-character replace distributes over concatenation |
| `Helpers.ReplaceAllAbsent` | src/utils/helpers.ts:37-41 | replacing a character that does not occur changes nothing |
| `Helpers.EscapeHtmlChar` | src/utils/helpers.ts:35-42 | the five-step chain maps a one-character string to that character's entity |
| `Helpers.EscapeHtmlAppendChain` | src/utils/helpers.ts:35-42 | the chain of replaces distributes over concatenation |
| `Helpers.EscapeHtmlIsPerCharacter` | src/utils/helpers.ts:35-42 | because `&` is replaced first, the chain equals escaping each character on its own |
| `Helpers.EscapeHtmlHasNoMarkup` | src/utils/helpers.ts:35-42 | escaped text contains none of `<`, `>`, `"`, `'` |
| `Helpers.EscapeHtmlIdentity` | src/utils/helpers.ts:35-42 | text with none of `& < > " '` is returned unchanged |
| `Helpers.EscapeHtmlRoundTrip` | src/utils/helpers.ts:35-42 | decoding the five entities gives back the original text |
| `Helpers.EscapeHtmlInjective` | src/utils/helpers.ts:35-42 | distinct texts escape to distinct markup |
| `PasteModel.IsLive` | src/models/paste.ts:66-76 | the read's test: not time-expired (`isExpired` semantics) and not out of views (`isViewLimitExceeded` semantics) |
| `PasteModel.MatchesSweep` | src/models/paste.ts:97-99 | the sweep's WHERE clause: expiry set and not after `now`, or a limit set and reached |
| `PasteModel.CountsAsActive` | src/models/paste.ts:105-109 | the statistics' WHERE clause: no expiry or one after `now`, and no limit or views below it |
| `PasteModel.ReadResult` | src/models/paste.ts:58-88 | nothing for a missing or non-live paste; otherwise the row with one more view (its cases are stated by `ReadCases`) |
| `PasteModel.AfterRead` | src/models/paste.ts:78-82 | a read never adds or removes a row: the table keeps its ids |
| `PasteModel.Swept` | src/models/paste.ts:95-101 | the sweep only deletes: the rows kept are a subset, each unchanged |
| `PasteModel.ActiveIds` | src/models/paste.ts:105-109 | the active ids are ids of the table |
| `PasteModel.NewPaste` | src/models/paste.ts:23-35 | the inserted row satisfies the table invariant and has no views |
| `PasteModel.PasteStore.constructor` | src/db/database.ts:20-30 | the table starts empty and satisfies the invariant |
| `PasteModel.PasteStore.CreatePaste` | src/models/paste.ts:20-43 | under a fresh generated id, inserts exactly one row with views 0, created at `now`, falsy TTL and limit stored as null, and `expiresAt == calculateExpiry(ttl)`; every other row is unchanged; a taken id fails and writes nothing |
| `PasteModel.InsertKeepsInvariant` | src/models/paste.ts:30-35 | an insert under a fresh id keeps every row well formed and leaves the other rows as they were |
| `PasteModel.PasteStore.GetPaste` | src/models/paste.ts:45-93 | returns and writes back exactly what `ReadResult`/`AfterRead` prescribe, and keeps the table invariant |
| `PasteModel.ReadCases` | src/models/paste.ts:58-88 | missing id, time-expired or view-exhausted: nothing returned and the table unchanged; live: the stored row becomes the old row with `views` one higher and every other field (id, content, TTL, limit, creation time, expiry) the same, and the returned row is the stored one; no other row changes |
| `PasteModel.ReadKeepsInvariant` | src/models/paste.ts:73-87 | a read counts a view only below a truthy limit, so the invariant `ViewsWithinLimit` is preserved: no limit, or `views <= max_views`, or no views yet (a row inserted by a direct `createPaste` call with a negative limit keeps `views == 0`, since every read refuses it) |
| `PasteModel.ViewsNeverExceedLimit` | src/models/paste.ts:73-87 | under the invariant a paste with a limit of at least 1 never has more views than its limit |
| `PasteModel.ReadsWithinLimit` | src/models/paste.ts:66-88 | unexpired reads up to the remaining views all succeed, the i-th returning the paste with `views + i + 1` |
| `PasteModel.ReadableExactlyMaxViews` | src/models/paste.ts:66-88 | a fresh paste with `max_views = N` succeeds on reads 1..N with views 1..N and read N+1 returns nothing and changes nothing |
| `PasteModel.CreateThenRead` | src/models/paste.ts:20-88 | a validated paste read at its creation instant returns the same content with `views == 1` |
| `PasteModel.TtlReadBoundary` | src/models/paste.ts:20-70 | a paste with TTL T is readable 1 ms before `created + T*1000` and not at that instant |
| `PasteModel.PasteStore.DeleteExpiredPastes` | src/models/paste.ts:95-101 | the table becomes `Swept`: the rows the sweep's WHERE clause does not match, unchanged; the invariant is kept |
| `PasteModel.PredicatesAgree` | src/models/paste.ts:95-115 | the statistics' active test is the exact complement of the sweep test; for a limit other than 0 the sweep matches exactly the rows a read refuses |
| `PasteModel.SweepRemovesExactlyNonLive` | src/models/paste.ts:95-101 | on a well-formed table the sweep keeps exactly the live rows, unchanged |
| `PasteModel.SweepIdempotent` | src/models/paste.ts:95-101 | a second sweep at the same instant removes nothing |
| `PasteModel.SweepKeepsInvariant` | src/models/paste.ts:95-101 | the sweep keeps every row well formed |
| `PasteModel.PasteStore.GetStats` | src/models/paste.ts:103-115 | `total` is the row count, `active` the count of active rows, and `active <= total` |
| `PasteModel.ActiveAtMostTotal` | src/models/paste.ts:103-115 | the active rows are a subset of all rows |
| `PasteModel.StatsAfterSweep` | src/models/paste.ts:95-115 | the active rows are exactly the rows the sweep keeps; after a sweep `total == active` |
| `PasteController.TrimStart` | src/controllers/pasteController.ts:10 | the result is a suffix of the input; only white space was removed and the result does not start with white space |
| `PasteController.TrimEnd` | src/controllers/pasteController.ts:10 | the result is a prefix of the input; only white space was removed and the result does not end with white space |
| `PasteController.Trim` | src/controllers/pasteController.ts:10 | `trim()` never lengthens the text, and what it returns neither starts nor ends with white space |
| `PasteController.TrimKeepsMiddle` | src/controllers/pasteController.ts:23 | `trim()` keeps a contiguous middle of the text, removes only white space around it, and what it keeps neither starts nor ends with white space |
| `PasteController.TrimIdempotent` | src/controllers/pasteController.ts:23 | trimming twice is trimming once |
| `PasteController.TrimEmptyIffBlank` | src/controllers/pasteController.ts:10 | trim gives the empty string exactly for all-white-space text |
| `PasteController.Falsy` | src/controllers/pasteController.ts:10 | JavaScript `!v` on a JSON value: missing, null, false, 0 or the empty string |
| `PasteController.IsInteger` | src/controllers/pasteController.ts:14 | `Number.isInteger` on a finite number: the number has no fractional part |
| `PasteController.ContentRejected` | src/controllers/pasteController.ts:10 | the content check: falsy, not a string, or empty once trimmed |
| `PasteController.CountRejected` | src/controllers/pasteController.ts:14 | the `ttl_seconds` and `max_views` check: present and not a number, below 1 or fractional |
| `PasteController.ErrorMessage` | src/controllers/pasteController.ts:11-19 | the 400 response's error text, the source's three messages; each opens with the name of the field it refuses |
| `PasteController.CountValue` | src/controllers/pasteController.ts:14-20 | an accepted count is absent iff the field is missing, else an integer of at least 1 equal to the number sent |
| `PasteController.ValidateCreate` | src/controllers/pasteController.ts:10-26 | accepted iff content is a string that is not blank after trim, and each of `ttl_seconds`, `max_views` is missing or an integer number of at least 1; the content error exactly when the content check fails, the ttl error exactly when the content check passes and the ttl check fails, the max_views error exactly when both earlier checks pass and the max_views check fails; accepted data carries the trimmed, non-empty content and, for `ttl_seconds` and `max_views`, exactly the integers sent (none when missing), each at least 1 |
| `PasteController.ContentRule` | src/controllers/pasteController.ts:10-12 | content is accepted exactly when it is a string with a character that is not white space |
| `PasteController.AcceptedContentIsTrimmed` | src/controllers/pasteController.ts:22-26 | the content handed to the store equals its own `trim()` |
| `PasteController.CreateStatus` | src/controllers/pasteController.ts:11-34 | 201 for a created paste, 400 for a refused body, 500 for a server error |
| `PasteController.GetStatus` | src/controllers/pasteController.ts:45-54 | 200 for a found paste, 404 otherwise |
| `PasteController.RemainingViews` | src/controllers/pasteController.ts:50-52 | null iff the paste has no (truthy) limit; otherwise `views + remaining == max_views` |
| `PasteController.ToView` | src/controllers/pasteController.ts:54-58 | the payload carries the paste's content and remaining views, and `expires_at` is null exactly when the stored expiry is |
| `PasteController.RemainingViewsNonNegative` | src/controllers/pasteController.ts:50-52 | on every successful read `remaining_views` is null or at least 0; when it is 0 the next read finds nothing |
| `PasteController.CreatePasteHandler` | src/controllers/pasteController.ts:5-36 | status 400 exactly when validation refuses the body; then it carries the first failing check's error and creates nothing; an accepted body with a fresh id creates exactly the row with the trimmed content and the TTL and limit sent, and answers 201 with its id; an accepted body whose generated id is taken answers 500 and writes nothing |
| `PasteController.GetPasteHandler` | src/controllers/pasteController.ts:38-63 | status 404 exactly when the read returns nothing; otherwise 200 with the stored content, non-negative or null `remaining_views` and `expires_at` null iff the stored one is |

## Left out

- Concurrency: `getPaste` selects and then updates in two statements, so two
  simultaneous reads can both succeed. The model runs operations one at a time.
- Randomness: nanoid's random source is a parameter (the draws). How nanoid
  maps random bytes to alphabet positions is not modelled.
- Database failures: `getPaste` returns null on any database error, and
  `createPaste` rethrows any error as a 500. Only the duplicate-key failure of
  the INSERT is modelled.
- `PasteController.CreatePasteHandler`: the INSERT also fails for inputs the
  validation lets through, and the source then answers 500. A `ttl_seconds`
  or `max_views` above 2^31-1 passes `Number.isInteger` but does not fit the
  32-bit `INTEGER` column. Content containing U+0000 is refused by the `TEXT`
  column. The model has neither column limit, so it promises 201 for these
  bodies.
- Integer widths: the `INTEGER` columns are 32-bit, `ttl_seconds * 1000` is a
  double-precision product, and JavaScript dates have a bounded range. The model
  uses unbounded integers, so it does not model an overflowing counter or an
  invalid date.
- Clocks and time zones: the request clock, the database's `CURRENT_TIMESTAMP`
  and `NOW()` are all the parameter `now`. Conversions of the `TIMESTAMP`
  column between time zones are not modelled. The expiry is written from
  Node's local time into a `TIMESTAMP` column without a time zone; the sweep
  compares it with `NOW()` in the database session's time zone, while a read
  compares it in Node. The model assumes the two zones agree. When they
  differ, the sweep removes rows a read would still serve, or keeps rows a
  read refuses (Node at UTC-5 and the session at UTC delete a paste 5 hours
  before its expiry), so `SweepRemovesExactlyNonLive` and `StatsAfterSweep`
  hold only when the zones agree. `toISOString` and
  `toLocaleString` formatting is not modelled; the response carries the
  instant as milliseconds.
- `Helpers.CalculateExpiry`: the source adds the TTL with `setSeconds(getSeconds() + ttl)`,
  which works in the process's local time. When the local UTC offset changes
  between `now` and the expiry (a daylight-saving switch), the source's expiry
  moves by that change; the model's expiry is always exactly `now + ttl * 1000`
  milliseconds, as in a time zone without offset changes.
- `getTestTime`: it reads an environment variable and a request header. The
  instant it yields is the parameter `now`.
- JSON numbers: `NaN`, infinities and `-0` are not modelled. `Number.isInteger`
  is modelled on finite numbers.
- JavaScript strings are UTF-16; the model's strings are sequences of Unicode
  scalar values, so lone surrogates are not represented.
- The `url` field of the 201 response is left out, because it is built from
  the request's protocol and host.
- The HTML page handler (`getPasteHtmlHandler`), the page templates, the
  client script and the routing are left out. `escapeHtml`, which the page
  uses, is modelled.
- `initializeDatabase`, the `expires_at` index, the connection pool, and the
  hourly sweep scheduling and logging in `src/server.ts` are left out. The
  sweep itself is `DeleteExpiredPastes`.
- The health check and the two connection test scripts have no logic to model.
