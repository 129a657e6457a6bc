# Titan node bot — a Dafny model of its deterministic core

The bot (`index.js`) logs many accounts in to a node-rewards platform. For each account it:

- optionally routes the account through a proxy;
- registers a virtual device;
- keeps the tokens fresh;
- holds a WebSocket open that answers the platform's pings and logs point reports.

This project models the decisions the bot makes around that I/O, and proves what those decisions guarantee.

- `base.dfy` (`Base`): `Option`, `Result` and the JavaScript line terminators.
- `proxy.dfy` (`Proxy`): three pieces of proxy handling.
  - `checkProxySchemes` scheme normalisation.
  - The round-robin cursor of `assignProxyForAccount` and the assignment loop of `main`.
  - `buildProxyConfig`: its `socks` / `http` / unsupported classification, and the credentials pattern `http://(.*?):(.*?)@(.*)`. The pattern is modelled as the unanchored, leftmost, lazy match that `String.prototype.match` performs. `.` does not cross a line end.
- `retry.dfy` (`HttpRetry`): the bounded retry loop shared by `authLogin`, `authRefresh` and `registerWebnodes`. The three copies, at `index.js` lines 182-198, 212-228 and 247-263, differ only in the request they make and the failure they log.
  - The outcome of each HTTP attempt is an input sequence.
  - The loop allows 5 attempts, with 5 s between attempts and no pause after the last.
  - A call whose attempts all fail returns `null`. A bound of 0 or less makes no attempt.
- `session.dfy` (`Session`): the token triple (access, refresh, expiry).
  - Accepted login and refresh responses replace the triple.
  - The refresh loop's sleep before each refresh.
  - One pass of that loop.
- `pipeline.dfy` (`Pipeline`):
  - the per-account order login → register → loops of `processAccounts`;
  - the gating in `main`: no accounts means stop; proxies are assigned to every entry; entries without '@' or without a password are skipped; one pipeline is launched per valid entry;
  - an entry without an `Email` field makes the launch loop throw, which ends `main` (see Findings).
- `frames.dfy` (`Frames`): the message handler of `connectWebsocket`.
  - Point reports (`cmd` 1) are logged with their today/total counters. A missing counter reads as 0.
  - Echo requests (`cmd` 2) are sent back verbatim.
  - Other frames are ignored.
  - The heartbeats a connection sends while it is open, and the start times of the reconnect loop's attempts.
- `format.dfy` (`Format`): `maskAccount` and `formatSeconds`.

Clock reads (`Date.now()`), network outcomes and file contents are parameters of the model.

Three behaviours of the code worth knowing, each modelled as `index.js` has it:

- **Point reports.** Every point report is logged, even when neither counter increased: the message handler has no increase filter (`Frames.RepeatedPointsLogged`).
- **Refresh delay.** The delay is `refreshAt * 1000` whenever `refreshAt > 0`, and otherwise 5000 ms. There is no lower bound of 5 s, so a wake-up instant one second ahead gives a 1000 ms sleep (`Session.RefreshDelayNotClamped`).
- **Exhausted retries.** A retry loop whose attempts all fail returns `null`, not the last error.

Node's `setTimeout` runs its callback after 1 ms when asked for a delay above 2^31 - 1 ms (about 24.8 days), as its documentation states. The model applies that rule to the refresh loop's sleep (`Session.TimerDelayMs`).

## Model

| member | source | states |
|---|---|---|
| Proxy.NormalizeScheme | index.js:92-98 | a line that starts with one of the four schemes is kept as is; any other line gets `http://` prepended; the result always starts with a known scheme |
| Proxy.NormalizeIdempotent | index.js:92-98 | normalising an already normalised line changes nothing |
| Proxy.Assign | index.js:100-106 | an empty proxy list hands out nothing and leaves the cursor alone; otherwise a proxy with a known scheme is handed out and the cursor stays inside the list |
| Proxy.AssignCursor | index.js:100-106 | after the assignment loop over n entries the cursor is n mod L (0 with no proxies) |
| Proxy.AssignRoundRobin | index.js:431-434 | the k-th entry of the file receives the normalised proxy k mod L; with no proxies every entry receives none |
| Proxy.AssignKeys | index.js:431-434 | `account_proxies` is keyed by exactly the e-mails of the file |
| Proxy.AssignLastEntryWins | index.js:431-434 | for an e-mail that occurs more than once, `account_proxies` keeps the proxy handed to its last entry |
| Proxy.AssignAccounts | index.js:431-434 | the assignment loop hands out one proxy per entry of the file and leaves a cursor that stays inside the proxy list |
| Proxy.FindOnLine | index.js:114 | the search for the end of a lazy group returns the first occurrence of the delimiter before any line end |
| Proxy.LineEnd | index.js:114 | the greedy host group ends at the first line terminator or the end of the string |
| Proxy.MatchAt | index.js:114 | the match of `http://(.*?):(.*?)@(.*)` that starts at one index: the marker, then the shortest user up to ':', the shortest password up to '@', then the host up to the line end; its contract is stated by `Proxy.MatchAtExact` |
| Proxy.MatchAtExact | index.js:114 | a match of `http://(.*?):(.*?)@(.*)` at a given start is computed exactly when the independent match description holds, in both directions, so the captured groups are determined by the input |
| Proxy.MatchFrom | index.js:114 | a match found by the unanchored search starts at some index at or after the search start |
| Proxy.MatchFromLeftmost | index.js:114 | the unanchored search finds nothing only when no match starts anywhere after the search start, and what it finds is the match at the leftmost start that has one |
| Proxy.NoMarkerNoMatch | index.js:114 | a string without the literal `http://` has no match |
| Proxy.HttpConfig | index.js:113-121 | an `http`-prefixed string yields credentials exactly when the pattern matches somewhere in it, and then those of the leftmost match; otherwise the string is used whole |
| Proxy.BuildProxyConfig | index.js:108-124 | no proxy or the empty string gives a direct connection; a `socks` prefix gives a SOCKS agent for the whole string and no proxy URL; an `http` prefix gives an agent with `user:password` for the host exactly when the credentials pattern matches somewhere, those of the leftmost match, and the proxy URL `http://host`; an `http` prefix without any match gives an agent for the whole string with the string as proxy URL; anything else is the unsupported-type error |
| Proxy.HttpCredentialsSplit | index.js:113-118 | `http://u:p@h` with no ':' in u, no '@' in p and no line end gives the credentials u:p for host h and the proxy URL `http://h` |
| Proxy.HttpWithoutMarkerKeptWhole | index.js:119-121 | an `http`-prefixed string that does not contain `http://` is used whole |
| Proxy.HttpsCredentialsKeptWhole | index.js:113-121 | `https://u:p@h` with no '/' after the scheme keeps its credentials inside the URL and is used whole |
| Proxy.NormalizedProxySupported | index.js:92-124 | every proxy the cursor hands out is accepted by the classification and yields a proxied transport |
| HttpRetry.RetryFrom | index.js:182-198 | from a given attempt on, the loop stops at the first answered request, pauses once between consecutive attempts, and gives up only after the last allowed attempt failed |
| HttpRetry.Retry | index.js:182-198 | the call returns a body exactly when one of the first `retries` requests was answered; the body is that of the first answered request, with every earlier request failed; it makes one pause fewer than it makes requests; with all requests failed it made `retries` of them; a bound of 0 or less makes none |
| HttpRetry.RetryStopsAtFirstSuccess | index.js:182-190 | requests after the answered one are never made: outcomes beyond the attempts made do not change the result |
| HttpRetry.RetrySucceedsOnLastAttempt | index.js:182-198 | four failures then an answer give that answer after five requests and four pauses |
| HttpRetry.RetryExhausted | index.js:182-198 | five failures give no body after five requests and 20 s of pauses |
| Session.ApplyAuth | index.js:363-373 | the triple changes only on an accepted response (`code === 0`), and then becomes exactly the response's triple |
| Session.ApplyAuthIdempotent | index.js:363-373 | applying a response twice is applying it once; a rejected response changes no state |
| Session.ProcessAuthLogin | index.js:357-374 | login reports success exactly when the retried call returned an accepted body; then the triple is that of the first answered request; on failure the triple is unchanged |
| Session.LoginUsesFirstAnswer | index.js:182-198 | the first answered login request decides alone: its code says whether login succeeds, its triple is stored, and a rejected answer is not retried |
| Session.LoginUnreachable | index.js:182-198 | when all five login requests fail, login fails and the triple is unchanged |
| Session.RefreshDelayMs | index.js:378-380 | the sleep before a refresh is always positive |
| Session.TimerDelayMs | index.js:380 | the timer runs its callback after the requested delay when that lies between 1 and 2^31 - 1 ms, and after 1 ms otherwise |
| Session.RefreshWakesBeforeExpiry | index.js:376-380 | when expiry minus 300 s lies ahead within the timer's range, the loop wakes no earlier than that instant and less than a second after it; when it lies further ahead, the loop wakes after 1 ms; otherwise it wakes 5 s from now |
| Session.RefreshDelayNotClamped | index.js:378-380 | a wake-up instant one second ahead gives a 1000 ms sleep |
| Session.RefreshAfterFiveMinutes | index.js:378-380 | a token valid for ten more minutes is refreshed after five |
| Session.RefreshStep | index.js:376-391 | one refresh pass sends the current refresh token, sleeps for what the timer makes of the computed delay, and replaces the triple with the first answered body exactly when it is accepted |
| Session.FailedRefreshRetriesQuickly | index.js:376-391 | after a failed refresh whose wake-up instant has passed, the next sleep is the 5 s fallback |
| Session.LongTokenRefreshedAtOnce | index.js:378-380 | a token whose wake-up instant lies more than 2^31 - 1 ms ahead is refreshed after 1 ms, on every pass |
| Session.ThirtyDayTokenRefreshedAtOnce | index.js:378-380 | a token valid for 30 more days is refreshed 1 ms after the pass starts |
| Session.CappedWake | index.js:378-380 | the corrected wake-up: whenever the computed delay fits the timer it sleeps exactly that delay and refreshes, as the source intends; it skips the refresh exactly when the delay exceeds the timer's range; every sleep lies within the range and lasts at least one second |
| Session.CappedWakeNeverEarly | index.js:378-380 | with the corrected wake-up, a refresh while the wake-up instant lies ahead happens no earlier than it and less than a second after it, and a wait cut short by the timer's range ends, without refreshing, no later than that instant's second |
| Pipeline.ProcessAccount | index.js:395-418 | the pipeline always logs in; it registers, with the fresh access token as bearer, exactly when login succeeded; it starts the loops exactly when login and registration (`code === 0`) both succeeded; the triple it keeps is the one login stored |
| Pipeline.PipelineOrder | index.js:407-418 | the steps appear in the order login, register, loops, and the loops never start without a registration |
| Pipeline.EmailKey | index.js:432-433 | a present e-mail is its own key in the proxy map; a missing one becomes the key "undefined" |
| Pipeline.IsValid | index.js:450 | an entry is launched when its e-mail contains '@' and its password is non-empty |
| Pipeline.FirstMalformed | index.js:446-450 | the index of the first entry without an e-mail: every earlier entry has one |
| Pipeline.ValidIn | index.js:446-452 | the entries of a range that the launch loop launches are valid and in file order |
| Pipeline.ValidInComplete | index.js:446-452 | no valid entry of the range is skipped, and one pipeline is launched per valid entry |
| Pipeline.LaunchOf | index.js:492-493 | the launch for a valid entry carries its file index and its own e-mail, and runs through a proxy exactly when the proxy map binds that e-mail to a proxy (`!!this.account_proxies[email]`) |
| Pipeline.LaunchLoop | index.js:446-494 | over the entries below a bound, one pipeline per valid entry, in file order, with its own e-mail; every valid entry is launched; the skip tally counts the rest |
| Pipeline.Main | index.js:420-500 | with no accounts nothing happens; otherwise every entry takes part in the proxy assignment; the launch loop throws at the first entry without an e-mail, so only valid entries before it are launched, in file order; main ends in error exactly when such an entry exists |
| Pipeline.MainLaunchesValid | index.js:446-500 | every valid entry before the first entry without an e-mail is launched, one pipeline each, and the skipped ones before it are exactly the invalid ones |
| Pipeline.MainSkippingMalformed | index.js:446-494 | the corrected main: an entry without an e-mail is skipped like any invalid entry and the loop reaches the end of the file |
| Pipeline.MainSkippingLaunchesValid | index.js:446-494 | with the correction every valid entry is launched, one pipeline each, and the skipped ones are exactly the invalid ones |
| Pipeline.MainAgreesWhenWellFormed | index.js:446-500 | when every entry has an e-mail, main as written and the corrected main decide the same |
| Pipeline.MissingEmailStopsLaunches | index.js:446-500 | a first entry without an e-mail stops main before the valid second entry, which the corrected main launches |
| Pipeline.LoopProxy | index.js:431-434 | for the launch loop up to any bound, a launched pipeline uses a proxy exactly when the proxy list is non-empty, and an entry whose e-mail does not recur later uses proxy (file index mod L) |
| Pipeline.LaunchedProxy | index.js:431-434 | for main as written, a launched pipeline uses a proxy exactly when the proxy list is non-empty; an entry whose e-mail does not recur later uses proxy (file index mod L), invalid entries having consumed theirs |
| Pipeline.LaunchedProxySkipping | index.js:431-434 | the same two facts for the corrected main |
| Frames.Points | index.js:304-305 | the logged counters are those of `userDataUpdate`, a missing object or field reading as 0 |
| Frames.Dispatch | index.js:302-317 | a frame is answered exactly when it is an echo request, and then with itself; its counters are logged exactly when it is a point report; other commands do nothing |
| Frames.EchoIdempotent | index.js:313-315 | the reply to an echo request is again an echo request with the same reply |
| Frames.Heartbeats | index.js:288-299 | a connection open for t ms sends floor(t / 30000) heartbeats, all the same `cmd` 1 frame |
| Frames.HeartbeatsGrow | index.js:288-299 | a longer-lived connection sends the heartbeats of a shorter one and more, at most one more per full period between them and at least one once a full period lies between them |
| Frames.AttemptStarts | index.js:265-341 | each reconnect attempt starts 5 s after the previous connection ended |
| Frames.AttemptStartsClosed | index.js:265-341 | attempt i starts after the total lifetime of the i earlier connections plus i pauses of 5 s |
| Frames.AttemptsSpaced | index.js:265-341 | attempts i and j lie at least (j - i) times 5 s apart, whatever the connections did |
| Frames.DispatchAll | index.js:302-317 | over one connection, the replies are echo requests taken from the received frames |
| Frames.DispatchAllPositions | index.js:302-317 | the echo request with n echo requests before it is the n-th reply, unchanged; the point report with n reports before it gives the n-th log line |
| Frames.DispatchAllCounts | index.js:302-317 | exactly one reply per echo request and one log line per point report |
| Frames.PointReportsAllLogged | index.js:303-312 | a run of point reports is logged in full, in order, with nothing sent back |
| Frames.RepeatedPointsLogged | index.js:303-312 | reports that repeat the previous counters are logged again |
| Format.MaskPart | index.js:133 | the first three and last three characters surround `***`; a part of three characters or fewer appears whole on both sides; no other character appears |
| Format.LocalPart | index.js:132 | the text before the first '@', or the whole account without one |
| Format.DomainPart | index.js:132 | the text between the first '@' and the next '@' or the end, empty without an '@' |
| Format.MaskAccount | index.js:130-137 | the masked name contains '@' exactly when the account does; an account without '@' is masked whole, its first three and last three characters around `***` |
| Format.MaskKeepsDomain | index.js:130-135 | reading the masked name back gives the account's domain and the masked local part |
| Format.MaskDropsLaterParts | index.js:132-134 | only the first two '@'-separated parts survive; anything after a second '@' is dropped |
| Format.Decompose | index.js:50-53 | hours, minutes and seconds add back up to the duration, with minutes and seconds below 60 |
| Format.DecomposeUnique | index.js:50-53 | that decomposition is the only one with minutes and seconds below 60 |
| Format.Decimal | index.js:54 | `toString()` of a natural number is a non-empty run of digits, of length 1 exactly below 10, with no leading zero except for 0 itself |
| Format.Pad2 | index.js:54 | `padStart(2, '0')`: the result ends with the input, unchanged, and everything before it is '0'; its length is 2 for shorter inputs and the input's own otherwise; digits stay digits |
| Format.DecimalRoundTrip | index.js:54 | reading the digits back gives the number |
| Format.FormatSeconds | index.js:50-55 | the rendering is digits with colons three and six places from the end, so minutes and seconds take two digits each and hours at least two; a duration below 100 hours takes eight characters; from 10 hours on the hours carry no leading zero |
| Format.Render | index.js:54 | the three parts of a clock reading, each padded, joined by ':'; its shape is stated by `Format.RenderShape` |
| Format.RenderShape | index.js:54 | a reading with minutes and seconds below 60 renders as digits with colons three and six places from the end, in eight characters below 100 hours, and without a leading zero from 10 hours on |
| Format.PaddedPart | index.js:54 | a padded `toString()` is at least two digits, exactly two below 100, and starts with a non-zero digit from 10 on |
| Format.ClockShape | index.js:54 | an hours run and two two-digit runs joined by ':' have their colons three and six places from the end and digits elsewhere |
| Format.FormatSecondsRoundTrip | index.js:50-55 | parsing `HH:MM:SS` back gives exactly the hours, minutes and seconds of the duration's decomposition, which add up to the duration |

## Left out

- HTTP, WebSocket and proxy agents (axios, `ws`, `SocksProxyAgent`, `HttpsProxyAgent`) are left out: the model keeps only the configuration that `buildProxyConfig` chooses and the outcome of each request, given as input.
- The reachability probe of `processCheckConnection` (a request retried every second without bound) is left out. The model starts each pipeline after the probe has let it through.
- The wall clock, timers and concurrency are left out: `setTimeout`, `setInterval` and `Promise.all` are not run. The model keeps the durations they use, the 1 ms fallback of `setTimeout`, the heartbeat count and the reconnect start times; how heartbeats interleave with inbound frames is not modelled.
- The endless loops of `processAuthRefresh` and `connectWebsocket` are modelled one pass at a time (`Session.RefreshStep`) or as one connection's frame sequence (`Frames.DispatchAll`), not as non-terminating processes.
- File loading (`loadAccounts`, `loadProxies`) is left out. Accounts and proxy lines are inputs. So are JSON parsing and serialisation: frames are already-parsed records.
- Device ids (`generateDeviceId`, random) and user agents are left out, as are the request and WebSocket headers and the WebSocket URL.
- Console output is left out: `log`, `printMessage`, `welcome`, `clearTerminal`, colours. Only what is logged for a point report is modelled.
- The passwords of duplicate e-mails are left out. `main` keeps one password per e-mail in a map; the model keeps the entries as read.
- HttpRetry.Retry: requires one outcome per attempt the loop may make, that is `retries <= |outcomes|`. The environment supplies the outcomes.
- Session.ProcessAuthLogin: assumes that a body with `code === 0` carries `data`. A malformed accepted body, which would throw in the source, is not modelled.
- Pipeline.IsValid: models the password's truthiness as "non-empty string". Non-string passwords from the JSON file are not modelled.
- Format.FormatSeconds: covers whole, non-negative durations only. Negative or fractional seconds are not modelled. Nothing in `index.js` calls it.
- Session.RefreshDelayMs: the JavaScript number arithmetic is modelled on unbounded integers. Expiry values beyond 2^53, where doubles lose precision, are not modelled.
- Format.MaskPart: counts characters as Unicode scalar values, while `slice` counts UTF-16 code units. A part with a character outside the Basic Multilingual Plane (an emoji, say) can be cut inside a surrogate pair in the source; the model keeps that character whole.
- Format.Decimal: gives the plain digits of any natural number. JavaScript's `toString()` switches to exponent notation from 1e21 on and loses exactness above 2^53; hour counts that large are not modelled.
- Pipeline.Account: an `Email` that is a number, a boolean, an object or `null` is modelled as missing. In the source it throws at the same place, but its proxy-map key is its own string form rather than "undefined". An array-valued `Email` is not modelled: arrays have their own `includes`, so the check at `index.js` line 450 does not throw for it and tests for an element equal to '@'.
- Pipeline.Main: a `null` entry in the accounts array, which throws already in the assignment loop (`index.js` line 432) before any launch, is not modelled.

## Findings

| source | as written | input that shows it | evidently intended | confidence | as-written member | corrected member |
|---|---|---|---|---|---|---|
| index.js:446-450 | `email.includes('@')` is called on an entry's `Email` without checking it is a string; a missing `Email` throws, the catch at lines 497-500 rethrows, and no later entry is launched | accounts `[{Password: "pw"}, {Email: "a@b", Password: "pw"}]`: nothing is launched and main fails | the entry is reported as invalid and skipped like one without '@' | medium, not executed | Pipeline.MissingEmailStopsLaunches | Pipeline.MainSkippingMalformed |
| index.js:378-380 | the refresh sleep `refreshAt * 1000` is handed to `setTimeout`, which runs after 1 ms when the delay exceeds 2^31 - 1 ms | a token that expires 30 days from now: the loop refreshes after 1 ms, and again on every pass while the renewed token stays that long | sleep at most 2^31 - 1 ms and look again without refreshing | medium, not executed | Session.ThirtyDayTokenRefreshedAtOnce | Session.CappedWake |
