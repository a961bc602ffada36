# TOR Online: a verified model of its self-contained logic

TOR Online is a Next.js and Prisma application for writing and approving
terms of reference (TORs). This project models in Dafny the parts of it
that compute rather than talk to a database or a browser, and proves what
they promise:

- `avr_rewriter.dfy`: the AVR seed-data line rewriter `scripts/fix-avr-data.py`.
  It classifies lines and extracts `description` and `required` with Python's
  leftmost regular-expression search. It then moves the description under
  the condition as Python parses it, uses global `str.replace`, and fills
  empty `proposedGuaranteed` values.
- `rate_limit.dfy`: the token-bucket `RateLimiter` of `src/lib/rate-limit.ts`.
  It is a class whose `store` map `Check`, `Cleanup` and `Reset` update.
- `tor_number.dfy`: `generateTorNumber` of `src/app/api/tor/route.ts`. This
  covers the title slug, the `ddmmyyyy` date and the six-digit suffix, and
  reads a number back. It also covers the bidang fallback of `POST`.
- `fix_tor_numbers.dfy`: `prisma/fix-tor-numbers.ts`. This is the script's
  own copy of the generator, proved equal to the route's, and the loop that
  numbers every TOR without a number.
- `middleware.dfy`: the redirect decision of `middleware.ts`.
- `api_response.dfy`: the response helpers of `src/lib/api-response.ts`. This
  covers the Prisma error table, the 429 answer, and the rate-limit headers
  set on a mutable `Response`.
- `prisma_retry.dfy`: `withRetry` of `src/lib/prisma.ts`, a loop proved
  against a recursive specification.
- `director_migration.dfy` and `migration_status.dfy`: the director-field
  migration and its status check. They work on JSON values with JavaScript
  truthiness (`json.dfy`).
- `load_test.dfy`: the pure parts of `scripts/load-test.js`: the cookie
  token extraction, the round-robin user choice, the success/failure split
  and the final verdict.
- Shared helpers: `wrappers.dfy` (`Option`), `text.dfy` (prefixes,
  substrings, decimal rendering, `padStart`, `slice(-n)`) and `seqs.dfy`
  (`filter`).

The current time, the HTTP answers, token verification, and database
updates that may fail are all parameters. The clock is `now` or the date
fields. The HTTP answers and failing updates are oracle functions. Token
verification is `verify`.

Where the code and its comments disagree, the model follows the code:

- The move condition on `scripts/fix-avr-data.py:41` is
  `(desc and req in ['Yes','No']) or req.isdigit()`. An all-digit `required`
  moves even when the description is empty (`MoveConditionCases`,
  `DigitsMoveWithEmptyDescription`).
- Both `replace` calls (lines 43 and 45) replace every occurrence, not the
  first. They replace only the literal with exactly one space after the
  colon (`ReplaceAllStep`, `ReplaceAllEveryCopy`, `MoveNeedsSingleSpaceLiteral`).
- The rewrite as a whole is not idempotent: a line whose description is
  moved can qualify again, because its `required` may now be all digits.
  A description "5" with `required` "Yes" becomes `required: "5"`, and a
  second run empties it (`RewriteNotIdempotent`). What holds is the
  narrower fixed point `SettledLineUnchanged`.
- The "No data" count of `prisma/check-migration-status.ts:40` can be
  negative, because the two filters overlap (`NoDataMayBeNegative`).

## Model

| member | source | states |
|---|---|---|
| AvrRewriter.CommentTestIgnoresTrailingSpace | scripts/fix-avr-data.py:25 | `strip().startswith('//')` depends only on the leading whitespace |
| AvrRewriter.FieldAt | scripts/fix-avr-data.py:32-33 | a captured `"…"` value never contains a quote |
| AvrRewriter.FieldAtIsRegexMatch | scripts/fix-avr-data.py:32-33 | `FieldAt` yields `v` at `i` exactly when `key\s*"([^"]*)"` matches there with group `v` |
| AvrRewriter.SearchFieldIsLeftmost | scripts/fix-avr-data.py:32-33 | `re.search` fails iff no position matches, and otherwise returns the group of the leftmost match |
| AvrRewriter.MoveConditionCases | scripts/fix-avr-data.py:41 | digits always move; Yes/No move iff the description is non-empty; anything else never moves; `("", "No")` stays, `("", "7")` moves |
| AvrRewriter.ReplaceAllAbsent | scripts/fix-avr-data.py:43-45 | `replace` with an absent pattern leaves the line as it is |
| AvrRewriter.ReplaceAllSelf | scripts/fix-avr-data.py:43-45 | replacing a pattern by itself changes nothing |
| AvrRewriter.ReplaceAllEveryCopy | scripts/fix-avr-data.py:43-45 | `replace` is global: n back-to-back copies of the pattern become n copies of the replacement |
| AvrRewriter.ReplaceAllStep | scripts/fix-avr-data.py:43-45 | anywhere in a line, the text before the first occurrence is kept, that occurrence becomes the replacement, and the scan goes on after it |
| AvrRewriter.NoMoveWithoutMatches | scripts/fix-avr-data.py:35-41 | no move when either search fails or the condition is false |
| AvrRewriter.DigitsMoveWithEmptyDescription | scripts/fix-avr-data.py:41-45 | in `MoveDescription` (lines 35-45), an all-digit `required` with an empty description is replaced by `required: ""` |
| AvrRewriter.NoWithEmptyDescriptionStays | scripts/fix-avr-data.py:41-48 | "No" with an empty description only gets the `proposedGuaranteed` fill |
| AvrRewriter.MoveNeedsSingleSpaceLiteral | scripts/fix-avr-data.py:32-45 | when the single-space literals are absent, the move does nothing |
| AvrRewriter.EmptyGuaranteedEndOfMatch | scripts/fix-avr-data.py:48 | where `proposedGuaranteed:\s*""` matches, the match end is found |
| AvrRewriter.MatchOfEmptyGuaranteedEnd | scripts/fix-avr-data.py:48 | a reported match is the key, whitespace and `""` |
| AvrRewriter.FillGuaranteedNoMatch | scripts/fix-avr-data.py:48 | `re.sub` without an empty `proposedGuaranteed` changes nothing |
| AvrRewriter.FillGuaranteedAtStart | scripts/fix-avr-data.py:48 | an empty `proposedGuaranteed` at the start of the text, with any whitespace after the colon, becomes the vendor placeholder |
| AvrRewriter.FillGuaranteedStep | scripts/fix-avr-data.py:48 | `FillGuaranteed` (the line-48 `re.sub`): anywhere in a line, the text before the first empty `proposedGuaranteed` is kept, that match becomes the placeholder, and the scan goes on after it |
| AvrRewriter.FillGuaranteedComplete | scripts/fix-avr-data.py:48 | after `re.sub` no empty `proposedGuaranteed` is left: the placeholder and its joins with the kept text never form a new match |
| AvrRewriter.PassThrough | scripts/fix-avr-data.py:25-30 | comment lines, `-0"` header rows and non-data lines are emitted unchanged |
| AvrRewriter.SettledLineUnchanged | scripts/fix-avr-data.py:35-48 | a line with no description to move and no empty `proposedGuaranteed` is a fixed point |
| AvrRewriter.RewriteSample | scripts/fix-avr-data.py:30-48 | on the sample line `SampleLine(desc, req)` (description, `unit:`, `required` and a bare `proposedGuaranteed:`) with plain values and the move condition true, `RewriteLine` moves the description: it ends up empty and `required` holds the old description |
| AvrRewriter.RewriteNotIdempotent | scripts/fix-avr-data.py:35-48 | a line with description "5" and `required` "Yes" becomes `required: "5"`; a second run moves again and empties `required`, so rewriting twice differs from rewriting once |
| AvrRewriter.RewriteLineNoNewline | scripts/fix-avr-data.py:43-48 | a rewritten line never gains a newline |
| AvrRewriter.Split | scripts/fix-avr-data.py:20 | `split('\n')` gives at least one piece, none holding a newline |
| AvrRewriter.JoinSplit | scripts/fix-avr-data.py:20 | joining the pieces of a split with `\n` gives the text back |
| AvrRewriter.SplitJoin | scripts/fix-avr-data.py:54 | splitting joined newline-free lines gives the lines back |
| AvrRewriter.LineCountPreserved | scripts/fix-avr-data.py:20-54 | the output has as many lines as the input, line k being `RewriteLine` (the loop body, lines 24-50) of line k |
| AvrRewriter.NothingQualifiesUnchanged | scripts/fix-avr-data.py:20-54 | when no line qualifies the output is the decoded input, character for character |
| AvrRewriter.FixAvrData | scripts/fix-avr-data.py:20-54 | the loop builds the rewritten content, line by line |
| RateLimit.PresetValues | src/lib/rate-limit.ts:119-143 | presets are 100, 5, 10 and 50 requests per 900000 ms |
| RateLimit.Refill | src/lib/rate-limit.ts:57-63 | a refill sets `lastRefill := now` and caps the tokens at `maxRequests`; otherwise the entry is unchanged |
| RateLimit.RefillFires | src/lib/rate-limit.ts:57-60 | tokens are due iff at least one whole window has passed (and `maxRequests > 0`), or both factors are negative |
| RateLimit.CheckStep | src/lib/rate-limit.ts:37-83 | only the key's entry changes; `resetAt` is `lastRefill + windowMs`; an allowed request reports the stored tokens, a denied one 0 |
| RateLimit.FirstCheckAllowed | src/lib/rate-limit.ts:41-54 | an unseen key is allowed and stores `maxRequests - 1` tokens refilled at `now` |
| RateLimit.KnownKeyCheck | src/lib/rate-limit.ts:56-82 | on a known key: allowed iff refilled tokens > 0, which then drop by exactly one; denied leaves them |
| RateLimit.CheckKeepsRange | src/lib/rate-limit.ts:44-67 | with one limit per key, stored tokens stay within 0..maxRequests for every key |
| RateLimit.BurstDrainsBucket | src/lib/rate-limit.ts:66-82 | n requests at the refill instant get `min(n, tokens)` through |
| RateLimit.FreshBurst | src/lib/rate-limit.ts:41-82 | a burst from an unseen key gets exactly `min(n, maxRequests)` through |
| RateLimit.Cleaned | src/lib/rate-limit.ts:88-97 | the cleanup keeps a sub-map with unchanged entries |
| RateLimit.CleanedKeeps | src/lib/rate-limit.ts:88-97 | a key survives iff `lastRefill >= now - 3600000`; cleaning twice is cleaning once |
| RateLimit.RateLimiter.constructor | src/lib/rate-limit.ts:22-29 | a new limiter has an empty store |
| RateLimit.RateLimiter.Check | src/lib/rate-limit.ts:37-83 | the store and the answer are those of `CheckStep` |
| RateLimit.RateLimiter.Cleanup | src/lib/rate-limit.ts:88-97 | deleting one key at a time leaves `Cleaned(old store, now)` |
| RateLimit.RateLimiter.Reset | src/lib/rate-limit.ts:102-104 | the store is emptied |
| TorNumber.LowerChar | src/app/api/tor/route.ts:39 | ASCII capitals become small letters; other characters stay, apart from the two whose lower case holds ASCII letters |
| TorNumber.DropRun | src/app/api/tor/route.ts:40 | drops the leading run outside `[a-z0-9]`, leaving a suffix that starts with a letter or digit |
| TorNumber.CollapseShape | src/app/api/tor/route.ts:40 | after `replace(/[^a-z0-9]+/g, "-")` only `a-z0-9-` remain, with no double dash |
| TorNumber.CollapseKeepsAlnums | src/app/api/tor/route.ts:40 | collapsing keeps every letter and digit, in order |
| TorNumber.DropLeadingDashes | src/app/api/tor/route.ts:41 | removes only dashes, and the rest does not start with one |
| TorNumber.DropLeadingIsSuffix | src/app/api/tor/route.ts:41 | what remains is a suffix of the text |
| TorNumber.DropTrailingDashes | src/app/api/tor/route.ts:41 | removes only trailing dashes and keeps a prefix |
| TorNumber.TrimIsSlice | src/app/api/tor/route.ts:41 | the trimmed text is the slice between the two edge runs of dashes |
| TorNumber.Cut | src/app/api/tor/route.ts:42 | `substring(0, 30)` is a prefix of at most 30 characters |
| TorNumber.TrimCutIsSlice | src/app/api/tor/route.ts:41-42 | trimmed and cut, the text is still a slice of itself not starting with a dash |
| TorNumber.TrimKeepsAlnums | src/app/api/tor/route.ts:41 | trimming keeps the letters and digits |
| TorNumber.TrimCutShape | src/app/api/tor/route.ts:41-42 | trimming and cutting keep slug characters and single dashes |
| TorNumber.SlugShape | src/app/api/tor/route.ts:38-42 | the slug has only `a-z0-9-`, no double dash, at most 30 characters, no leading dash |
| TorNumber.SlugOfShape | src/app/api/tor/route.ts:39-42 | the same for the slug of any title text |
| TorNumber.SlugKeepsAlnums | src/app/api/tor/route.ts:39-42 | the slug is a prefix of the trimmed collapse, which keeps all letters and digits |
| TorNumber.EmptySlug | src/app/api/tor/route.ts:38-42 | a non-empty title with no letters or digits gives the empty slug |
| TorNumber.FalsyTitleIsDraft | src/app/api/tor/route.ts:38 | `undefined`, `null` and `""` give the slug "draft" |
| TorNumber.WordTitleSlug | src/app/api/tor/route.ts:38-42 | a title that is one short word of letters and digits is its own slug |
| TorNumber.WordIsOwnSlug | src/app/api/tor/route.ts:39-42 | a word of at most 30 small letters and digits is its own slug |
| TorNumber.SlugMayEndInDash | src/app/api/tor/route.ts:41-42 | trimming happens before truncation, so 29 letters, a space and a word give a slug ending in '-' |
| TorNumber.DateStrLayout | src/app/api/tor/route.ts:44-47 | for a four-digit year the date is 8 digits that read back as day, month + 1 and year |
| TorNumber.SuffixValue | src/app/api/tor/route.ts:49 | the suffix is `epochMs mod 1000000` in decimal, 6 characters once `epochMs >= 100000` |
| TorNumber.ReadTorNumberOf | src/app/api/tor/route.ts:51 | slug, dash, eight digits, dash, six digits read back from the right |
| TorNumber.TorNumberRoundTrip | src/app/api/tor/route.ts:37-52 | reading a number made by `GenerateTorNumber` gives back the slug, the date fields and the suffix value |
| TorNumber.ChooseBidangCases | src/app/api/tor/route.ts:125-132 | a truthy requested bidang wins, else the position's; the 400 "Bidang is required" answer iff both are falsy |
| FixTorNumbers.SameAsRoute | prisma/fix-tor-numbers.ts:8-24 | the script's `GenerateTorNumber` gives the route's number for every input |
| FixTorNumbers.Selected | prisma/fix-tor-numbers.ts:29-40 | the selected rows are rows without a number |
| FixTorNumbers.SelectedRows | prisma/fix-tor-numbers.ts:29-40 | every selected row is a table row, and every row without a number is selected |
| FixTorNumbers.NothingSelected | prisma/fix-tor-numbers.ts:44-47 | nothing is selected iff every TOR has a number |
| FixTorNumbers.SelectedUnique | prisma/fix-tor-numbers.ts:29-40 | unique ids in the table give unique ids among the selected rows |
| FixTorNumbers.FirstFailure | prisma/fix-tor-numbers.ts:51-66 | no failure iff every update succeeds; otherwise the first update that throws, all earlier ones having succeeded |
| FixTorNumbers.NumberTors | prisma/fix-tor-numbers.ts:51-66 | the loop issues one update per selected TOR, in order, with its generated number, and stops at the first update that throws |
| FixTorNumbers.FixTorNumbers | prisma/fix-tor-numbers.ts:26-75 | no update and the early message when nothing is selected; otherwise the updates up to the first one that throws, and the success count or the failure (exit 1) |
| FixTorNumbers.ReportMeans | prisma/fix-tor-numbers.ts:44-75 | "all have numbers" iff nothing is selected; the success line iff every update succeeded, with the number selected; a failure names the update that threw, all before it having succeeded |
| FixTorNumbers.ApplyKeeps | prisma/fix-tor-numbers.ts:60-63 | updates change only numbers, and a row no update names is unchanged |
| FixTorNumbers.ApplySets | prisma/fix-tor-numbers.ts:60-63 | the one update naming a row sets its number |
| FixTorNumbers.NumberedPrefix | prisma/fix-tor-numbers.ts:51-63 | after the first k updates, with unique ids, the first k selected TORs hold their generated number and every other row is unchanged |
| FixTorNumbers.AllNumbered | prisma/fix-tor-numbers.ts:29-66 | afterwards each TOR without a number has its generated number, and every other TOR is unchanged |
| Middleware.TokenOf | middleware.ts:9 | a missing cookie or an empty value gives no token |
| Middleware.Authenticate | middleware.ts:11-23 | authenticated iff a token verifies; super admin iff it verifies with a truthy claim; super admin implies authenticated |
| Middleware.SomePrefix | middleware.ts:28-33 | `some(startsWith)` holds iff some listed prefix starts the path |
| Middleware.PathClasses | middleware.ts:25-33 | protected iff the path starts with "/dashboard" or "/admin"; admin iff it starts with "/admin" |
| Middleware.AdminIsProtected | middleware.ts:25-26 | every admin path is protected |
| Middleware.GuardProtects | middleware.ts:36-53 | for `Guard` (the middleware, with `Decide` for lines 42-53): passing through a protected path needs a verified token, an admin path a verified super admin |
| Middleware.NoTokenGuard | middleware.ts:36-53 | without a token: protected paths go to /login, the others pass |
| Middleware.RejectedTokenIsNoToken | middleware.ts:14-23 | a token that fails verification acts as no token |
| Middleware.VerifiedUserGuard | middleware.ts:42-53 | a verified user on /login goes to /dashboard; a super admin passes elsewhere; others are sent from admin paths to /dashboard |
| Middleware.Target | middleware.ts:36-53 | only a redirect has a target page |
| Middleware.RedirectSettles | middleware.ts:36-53 | with the same credentials, the page a redirect leads to lets the request through |
| ApiResponse.DefaultStatuses | src/lib/api-response.ts:26-59 | a success defaults to 200 and an error to 500 |
| ApiResponse.DuplicateField | src/lib/api-response.ts:69 | first target element, or "field" when it is missing or empty |
| ApiResponse.PrismaErrorTable | src/lib/api-response.ts:64-125 | `HandlePrismaError`: every error gets an error body; the status and code of each known code, both directions; every other code gets 500 DB_ERROR |
| ApiResponse.DuplicateEntryMessage | src/lib/api-response.ts:68-76 | P2002 names the field and says "<field> sudah digunakan" |
| ApiResponse.CeilDiv | src/lib/api-response.ts:144 | `Math.ceil(n / d)` is the q with `d(q-1) < n <= dq` |
| ApiResponse.CeilDivUnique | src/lib/api-response.ts:144 | that q is unique |
| ApiResponse.Response.SetHeader | src/lib/api-response.ts:144 | sets one header and keeps the rest of the response |
| ApiResponse.RateLimitResponse | src/lib/api-response.ts:130-147 | a fresh 429 RATE_LIMIT_EXCEEDED response whose headers are exactly the JSON content type and Retry-After = ⌈(resetAt − now)/1000⌉ |
| ApiResponse.RetryAfterCovers | src/lib/api-response.ts:144 | waiting Retry-After seconds reaches the reset, never a full second late; a future reset gives at least 1 |
| ApiResponse.AddRateLimitHeaders | src/lib/api-response.ts:152-163 | sets exactly the Limit, Remaining and Reset = ⌈resetAt/1000⌉ headers and returns the same response |
| ApiResponse.ResetHeaderSeconds | src/lib/api-response.ts:160 | the reset header is the reset time rounded up to whole seconds |
| PrismaRetry.RetryableByCode | src/lib/prisma.ts:57-64 | `Retryable`: with no telling message, an error is retryable iff its code is P2024, P2034, P1001 or P1002 |
| PrismaRetry.RetryableCodesAreTransient | src/lib/prisma.ts:57-64 | the retryable codes are exactly those answered 503 or TRANSACTION_CONFLICT |
| PrismaRetry.WithRetry | src/lib/prisma.ts:43-79 | the loop's result, call count and delays are those of `RetrySpec` |
| PrismaRetry.RetryFacts | src/lib/prisma.ts:50-78 | from any attempt within the limit: earlier calls failed retryably, the last call is the success returned or the error thrown, and the delays double |
| PrismaRetry.RetryContract | src/lib/prisma.ts:43-79 | at most maxRetries calls; the first success is returned; a non-retryable error is rethrown at once, the last error after maxRetries; the k-th wait is delayMs·2^k; maxRetries < 1 throws `undefined` with no call |
| PrismaRetry.FirstTrySucceeds | src/lib/prisma.ts:50-52 | an immediate success means one call and no wait |
| PrismaRetry.AlwaysTransient | src/lib/prisma.ts:66-78 | an operation that always fails retryably is called maxRetries times and its last error is thrown |
| DirectorMigration.ConvertItem | prisma/migrations/migrate-director-fields.ts:60-63 | item i becomes `{id: item.id or String(i+1), name: the string item, or item.name or ""}`; a null item throws |
| DirectorMigration.ConvertedEntries | prisma/migrations/migrate-director-fields.ts:58-63 | without null items, every converted entry is an `{id, name}` object with a truthy id: the item's own truthy id, or else its position from 1; a string item is the name |
| DirectorMigration.ConvertField | prisma/migrations/migrate-director-fields.ts:48-76 | a string becomes `[{id:"1",name}]`; an object `[{id or "1", name or ""}]`; an array is mapped; other values `[]`; the result is always an array |
| DirectorMigration.PlanForCases | prisma/migrations/migrate-director-fields.ts:31-80 | `PlanFor`: a field is written iff it is pending, so a truthy new field is never overwritten; the legacy director becomes `[{id:"1",name}]` |
| DirectorMigration.SelectedNeedsUpdate | prisma/migrations/migrate-director-fields.ts:82-95 | every selected TOR that does not throw needs an update |
| DirectorMigration.MigrationSettles | prisma/migrations/migrate-director-fields.ts:21-80 | a migrated TOR is no longer selected |
| DirectorMigration.MigrateDirectorFields | prisma/migrations/migrate-director-fields.ts:9-98 | selects with the filter of lines 21-24, then sends the updates and counts successes as `Migration` does |
| DirectorMigration.MigrationStaysAborted | prisma/migrations/migrate-director-fields.ts:101-109 | a thrown TypeError ends the run with the updates sent so far |
| DirectorMigration.MigrationFacts | prisma/migrations/migrate-director-fields.ts:28-98 | for `Migration`, the loop of lines 28-98: 0 ≤ migratedCount ≤ updates ≤ selected; abort iff some conversion throws; otherwise one update per TOR, in order; all succeed ⇒ count = selected |
| MigrationStatus.SameFilter | prisma/check-migration-status.ts:28-31 | the status filter equals the migration script's filter |
| MigrationStatus.CheckMigrationStatus | prisma/check-migration-status.ts:20-60 | an empty list stops before any count; otherwise noData = total − alreadyMigrated − needsMigration |
| MigrationStatus.VerdictCases | prisma/check-migration-status.ts:42-60 | migration required iff some TOR needs it; else completed iff some TOR has new data; else no director data |
| MigrationStatus.PendingFlags | prisma/check-migration-status.ts:42-53 | the list has one entry per TOR counted as needing migration; each entry is such a TOR with at least one pending field, and every such TOR is listed |
| MigrationStatus.NoDataCount | prisma/check-migration-status.ts:38-40 | "No data" is the TORs in neither class minus those in both |
| MigrationStatus.NoDataMayBeNegative | prisma/check-migration-status.ts:33-40 | a TOR in both classes alone gives "No data: -1" |
| MigrationStatus.MigrationCompletes | prisma/check-migration-status.ts:28-31 | after a migration that throws nothing and writes every update, no TOR needs migration |
| Seqs.FilterSplit | scripts/load-test.js:173-174 | `filter(p)` and `filter(!p)` split a sequence: lengths add up and the multisets sum to it |
| Seqs.FilterCount | scripts/load-test.js:173-174 | everything is kept iff all satisfy p; nothing iff none does |
| LoadTest.FirstMatch | scripts/load-test.js:106 | the leftmost position where "auth-token=" is followed by a non-';' character |
| LoadTest.RunEnd | scripts/load-test.js:106 | the greedy `[^;]+` stops at ';' or the end |
| LoadTest.TokenIn | scripts/load-test.js:106-108 | no token iff nothing matches; otherwise the token at the leftmost match |
| LoadTest.TokenAtShape | scripts/load-test.js:106-108 | the token is "auth-token=" plus the longest non-empty run of non-';' characters, as it stands in the cookie |
| LoadTest.ExtractAuthToken | scripts/load-test.js:102-113 | the loop returns `FirstToken`: null for no list, else the token of the first cookie that has one |
| LoadTest.FirstToken | scripts/load-test.js:102-113 | a missing list gives null, and so does a list in which no cookie matches |
| LoadTest.FirstTokenAt | scripts/load-test.js:105-110 | after cookies without a token, the next cookie's token is the result |
| LoadTest.FirstCookieWins | scripts/load-test.js:105-110 | a matching first cookie decides, whatever follows |
| LoadTest.UnanchoredMatch | scripts/load-test.js:106 | "auth-token=" may follow other characters, as in "xauth-token=v" |
| LoadTest.UserIndex | scripts/load-test.js:124 | `i % TEST_USERS.length` is a valid index |
| LoadTest.RoundRobin | scripts/load-test.js:124 | the choice repeats every ten users, and ten consecutive users get ten accounts |
| LoadTest.Summarise | scripts/load-test.js:173-198 | the reported total is the one given; successful + failed = the number of results; failed = 0 iff every request succeeded iff every result is successful |
| LoadTest.LoginOutcome | scripts/load-test.js:123-174 | request i logs in as `TEST_USERS[i % 10]` and succeeds iff it answered 200; no failure iff every one of the users answered 200; for a non-negative count, PASSED iff no failure |
| LoadTest.NegativeUsersDisagree | scripts/load-test.js:18 | a negative `CONCURRENT_USERS` runs nothing: no failure, yet 0 successes differ from the total, so the login line reads FAILED |
| LoadTest.ResultsPartition | scripts/load-test.js:292-293 | the successful and failed lists split the results |
| LoadTest.VerdictMeans | scripts/load-test.js:380-410 | `Verdict` (through `AllPassed`): allPassed iff the health check passed and every request of every scenario that ran succeeded |

## Left out

- File reading and writing in `scripts/fix-avr-data.py`: the model takes and returns the content. The non-atomic write and the final prints are not modelled.
- Python `str.isdigit` and `str.strip`/`\s` are modelled on ASCII. Unicode digits and non-ASCII whitespace are not.
- JavaScript `toLowerCase` is modelled for ASCII, plus the two characters whose lower case holds ASCII letters (U+0130 and U+212A). Other non-ASCII case mappings do not matter to the slug, which keeps only `a-z0-9`.
- Dates: `getDate`, `getMonth`, `getFullYear` and `getTime` become integer inputs. Time zones and `toISOString` are not modelled. The 429 body's `resetAt` is kept as the millisecond number, not as ISO text.
- Clocks and timers: `Date.now()`, the five-minute `setInterval`, `destroy`/`clearInterval`, and the sleeps of `withRetry` are not modelled. The time is the parameter `now`, and the sleeps are returned as a list of delays.
- RateLimit.RateLimiter.Check requires `windowMs > 0`: with 0 the source divides by zero and computes with `Infinity`/`NaN`.
- Numbers are unbounded integers. JavaScript's floating point (`NaN`, fractional `maxRetries` or JSON numbers, `Math.pow` rounding for huge exponents) is left out.
- JWT verification, bcrypt and every Prisma/PostgreSQL call are foreign code. They appear as the `verify` parameter, the `updateOk` oracle, and row sequences read and written.
- The middleware `config.matcher` (middleware.ts:56-58) is Next.js routing configuration. The model decides for every path, as the function itself does.
- `console` output of every script is not modelled: the lists of pending TORs, the update messages, and the load-test report.
- `scripts/load-test.js`: the HTTP requests, `Promise.all` concurrency, timings, averages and percentages are not modelled. The HTTP status of each request is an oracle.
- `withRetry` is modelled on errors that are records with an optional code and message. A thrown `null` (where `error.code` would itself throw) is not modelled.
- DirectorMigration.MigrateDirectorFields: an update that throws is counted as not migrated and the loop goes on, as in the source. The failure itself is the oracle `updateOk`, by position in the selected list.
- ReplaceAllEveryCopy: states only the case of back-to-back copies. The general case, an occurrence anywhere in a line, is `ReplaceAllStep` together with `ReplaceAllAbsent`.
- FillGuaranteedAtStart: states only a match at the start of the text. The general case is `FillGuaranteedStep` with `FillGuaranteedNoMatch`, and `FillGuaranteedComplete` states that no empty value is left.
- `scripts/fix-avr-data.py` opens the file in text mode, which turns `\r\n` and a lone `\r` into `\n` on reading. The model takes the content after that decoding.
- TorNumber.ChooseBidangCases: `bidangId` is a number in the source, where 0 is falsy. The model takes it as an optional text id whose only falsy value is the empty one.
- LoadTest.Summarise: `CONCURRENT_USERS` from `parseInt` can be `NaN`. The model takes an integer; a negative one is covered (`NegativeUsersDisagree`), `NaN` is not.
- The `code` of an error body is typed `code?: string` in `src/lib/api-response.ts`. The model narrows it to the datatype `ErrorCode` of the seven codes the helpers emit; a caller passing any other string is not modelled.
- HTTP header names are case-insensitive. The model keys the header map by the spelling used in the source (`content-type`, `Retry-After`, `X-RateLimit-*`).
- FixTorNumbers.FixTorNumbers: whether each update throws is the oracle `updateOk`. An update that throws is taken as not applied, and the run stops there with exit code 1.
- AvrRewriter.RewriteSample: the completed move is stated only for the sample line `SampleLine(desc, req)`. On other data lines the effect of the move is stated piecewise (`ReplaceAllStep`, `ReplaceAllAbsent`, `MoveNeedsSingleSpaceLiteral`, `DigitsMoveWithEmptyDescription`), not as one lemma over every qualifying layout.
- Neither `findMany` in `prisma/fix-tor-numbers.ts` nor the one in `prisma/migrations/migrate-director-fields.ts` has an `orderBy`. The row sequences stand for the rows in the order the database returns them, which the model takes as given. That order decides which TORs are updated before a failure.
- The remaining API route handlers, the seed, cleanup and verify scripts, the email helpers, the React components and `src/lib/prisma-clean.ts` are not part of this model.
