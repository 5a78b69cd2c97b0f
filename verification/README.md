# webPunchy core, modelled in Dafny

webPunchy is a small time clock. A user identified by an `auth_token` punches in
(which opens a time record), punches out (which closes the newest open record and stores
its duration in milliseconds), and lists their records. Around that ledger sit the
account operations (`authUser`, `changeLang`), an admin listing of site visits grouped
by username, and the browser-side authentication helpers.

The model is purely functional. The database is a value: a `Ledger.Store` holds the
users table, the `time_records` rows and the next `AUTO_INCREMENT` id. The two punch
operations are functions from the store and the request fields to a reply and a new
store; `changeLang` takes and returns the users table; the read-only endpoints
(`authUser`, the time-record listing) return only a reply, and the site-visit listing
is a method over its own table of visits. Time is
an integer count of seconds. PHP's `strtotime` is an abstract partial parse
`string -> Option<int>` passed in by the caller. Request fields that may be absent are
`Option<string>`. PHP's `!$x` test is `Text.Falsy`: absent, `""` or `"0"`.

Modules, one per concern:

- `Wrappers`: `Option`.
- `Text`: PHP `trim` (space, tab, LF, CR, NUL, vertical tab), ASCII upper-casing, PHP falsiness of a string field.
- `Ordering`: `ORDER BY key DESC` as a stable insertion sort, plus `LIMIT` and `LIMIT … OFFSET`.
- `Accounts`: back/api/Account.php.
- `Ledger`: time-record rows, the store, the ledger invariant `Valid`, and the open-record lookup.
- `Punch`: back/api/time_records/punch_in.php and punch_out.php.
- `Listing`: back/api/time_records/list.php, plus a worked day of punching.
- `UserRecords`: back/api/userRecords.php.
- `AuthService`: services/authService.js.

`Ledger.Valid` is the invariant both punch operations preserve:

- ids are unique and below the next id;
- each user has at most one open row;
- a closed row has `clock_out >= clock_in` and `duration_ms == (clock_out - clock_in) * 1000`;
- an open row has no duration.

## Model

| member | source | states |
|---|---|---|
| Text.Trim | back/api/Account.php:41 | the result is no longer than the input, and neither its first nor its last character is one of PHP's trim characters |
| Text.TrimIsInfix | back/api/userRecords.php:20 | trimming removes only trim characters, and only from the two ends: the result is a contiguous slice of the input with trim characters on both sides |
| Text.TrimIdempotent | back/api/userRecords.php:20 | trimming twice gives the same string as trimming once |
| Text.UpperShape | back/api/Account.php:24 | `strtoupper` keeps the length, maps each ASCII lower-case letter to its capital, leaves no lower-case letter, and keeps every other character |
| Text.UpperIdempotent | back/api/Account.php:77 | upper-casing an upper-cased string changes nothing |
| Ordering.InsertDesc | back/api/time_records/list.php:71 | inserting into a descending sequence keeps it descending and adds exactly that one element |
| Ordering.SortDesc | back/api/time_records/list.php:71 | `ORDER BY … DESC` returns a permutation of its input with keys in non-increasing order |
| Ordering.Take | back/api/time_records/list.php:71 | `LIMIT n` is the prefix of length min(n, size) |
| Ordering.Page | back/api/userRecords.php:28-39 | `LIMIT n OFFSET k` has at most n elements, is empty when k is past the end, and is otherwise the first n elements after position k |
| Ordering.TakeKeepsLargest | back/api/time_records/list.php:71 | a limited prefix of a sorted sequence is sorted, is drawn from the sequence, and every element it keeps has a key at least that of every element it drops |
| Ordering.PageKeepsOrder | back/api/userRecords.php:28-41 | a page of a sorted sequence is sorted and drawn from it |
| Accounts.FirstWithToken | back/api/Account.php:15-17 | the row found by `WHERE auth_token = ?` carries that token, and no row is found exactly when no user has it |
| Accounts.Resolve | back/api/time_records/punch_in.php:44-51 | a token resolves to a user exactly when some user holds it, and the user returned holds it |
| Accounts.AuthUser | back/api/Account.php:14-36 | `authenticated` exactly when a user holds the token, with that user's username, email and upper-cased lang; otherwise `invalid_token`; the received token is echoed in both cases |
| Accounts.SetLang | back/api/Account.php:65-66 | the `UPDATE` sets the lang of every user holding the token and leaves every other user unchanged |
| Accounts.ChangeLang | back/api/Account.php:38-82 | `invalid_lang` exactly when trim-then-upper of the input is not EN, PT or FR, reporting the normalised value, checked before the token; then `invalid_token` exactly when no user holds the token; both leave the users unchanged; `updated` sets the matching users' lang to the normalised value, returns it, and leaves other users unchanged |
| Accounts.ResolveAfterSetLang | back/api/Account.php:65-71 | after the `UPDATE`, the re-read by token finds the same first user, now carrying the new language |
| Accounts.ChangeLangIdempotent | back/api/Account.php:65-81 | applying `changeLang` a second time with the same inputs yields the same users and the same reply |
| Accounts.ChangeLangSeesOnlyNormalized | back/api/Account.php:41-42 | two lang inputs with the same normalised form give identical replies and identical users |
| Accounts.LangExampleBlanks | back/api/Account.php:41 | " en " normalises to EN |
| Accounts.LangExampleCase | back/api/Account.php:41 | "eN" normalises to EN and "FR" stays FR |
| Accounts.LangExampleRejected | back/api/Account.php:42-49 | "DE" and an absent lang are rejected as `invalid_lang` whatever the token, with the users unchanged |
| Ledger.LatestOpen | back/api/time_records/punch_in.php:67-69 | the open-record query finds nothing exactly when the user has no open row; otherwise it returns one of the user's open rows with the greatest `clock_in` |
| Ledger.LatestOpenIsTheOpenRow | back/api/time_records/punch_out.php:67-69 | under the at-most-one-open invariant, the lookup returns the user's single open row |
| Punch.PunchIn | back/api/time_records/punch_in.php:34-96 | checks in source order, each an if-and-only-if: missing token or `when` gives `fail`; unknown token gives `invalid_token`; an open row gives `open_exists` with the id and `clock_in` of the user's open row with the latest `clock_in`, before any parsing; an unparsable `when` gives `fail`; every rejection leaves the store unchanged; success appends exactly one open row with the fresh id and `clock_in = when`, and keeps the other rows |
| Punch.CloseRows | back/api/time_records/punch_out.php:95-96 | the `UPDATE … WHERE id = ?` sets `clock_out` and `duration_ms` on the row with that id, keeps its other fields, and leaves every other row unchanged |
| Punch.PunchOut | back/api/time_records/punch_out.php:34-104 | checks in source order, each an if-and-only-if: missing input, unknown token, no open row (`no_open_record`), unparsable `when`, and `when` before `clock_in` (`invalid_range`); every rejection leaves the store unchanged; success closes the open row found, keeping its id and `clock_in`, with `duration_ms = (when - clock_in) * 1000`, which is non-negative and a multiple of 1000, and leaves every other row unchanged |
| Punch.PunchInPreservesValid | back/api/time_records/punch_in.php:67-96 | punch-in preserves the ledger invariant |
| Punch.PunchInOpens | back/api/time_records/punch_in.php:67-96 | after a successful punch-in the new row is the user's only open row, and every other user's open or closed state is unchanged |
| Punch.PunchOutPreservesValid | back/api/time_records/punch_out.php:84-96 | punch-out preserves the ledger invariant |
| Punch.PunchOutCloses | back/api/time_records/punch_out.php:67-96 | given the invariant, after a successful punch-out the user has no open row, and every other user's state is unchanged |
| Punch.PunchInThenOut | back/api/time_records/punch_out.php:85-104 | punch-in at t1 and then punch-out at t2 >= t1 closes the row just opened, with the same id, `clock_in = t1`, `clock_out = t2` and `duration_ms = (t2 - t1) * 1000` |
| Listing.ClosedOf | back/api/time_records/list.php:71 | the filter keeps exactly the user's rows with a `clock_out`, each as many times as it occurs in the store, and nothing else |
| Listing.ClosedOfStep | back/api/time_records/list.php:71 | one step of the filter: keeping or dropping the head row keeps the result equal, as a multiset, to the user's closed rows |
| Listing.ClosedRecords | back/api/time_records/list.php:71-73 | the closed-record list has min(500, number of closed rows) entries, is sorted by `clock_in` descending, and is drawn from the user's closed rows |
| Listing.ClosedRecordsAreLatest | back/api/time_records/list.php:71 | every listed record is the user's own closed row, and any closed row left out by the cap has a `clock_in` no later than every listed one |
| Listing.List | back/api/time_records/list.php:34-79 | missing token gives `fail`, unknown token `invalid_token`, each an if-and-only-if; otherwise `open_record` is null exactly when the user has no open row, else one of their open rows with the latest `clock_in`, never among `records`; `records` is the closed-record list and has at most 500 entries; the store is an input only, so listing changes nothing |
| Listing.WorkingDay | back/api/time_records/punch_in.php:67-96 | a full day for one user: punch-in, a second punch-in refused with the same open record and no change, punch-out eight hours later with 28 800 000 ms, and a listing with no open record and that one closed record |
| UserRecords.EffectiveLimit | back/api/userRecords.php:21-23 | `limit` defaults to 500; a value in 1..500 is kept; anything else, including the 0 of a non-numeric cast, becomes 500 |
| UserRecords.EffectiveOffset | back/api/userRecords.php:22-24 | `offset` defaults to 0; a non-negative value is kept; a negative one becomes 0 |
| UserRecords.UsernameFilter | back/api/userRecords.php:20-27 | the username is trimmed, and an empty or absent one means no filter |
| UserRecords.Matching | back/api/userRecords.php:27-39 | the `WHERE username = ?` filter returns exactly the rows of that user, each as many times as it occurs in the table; with no filter it returns the whole table |
| UserRecords.Fetch | back/api/userRecords.php:27-41 | the fetched page is the `LIMIT … OFFSET` slice of some timestamp-descending ordering of exactly the matching rows; it has at most `limit` rows, all from the table and matching the filter |
| UserRecords.FirstSeenSpec | back/api/userRecords.php:56-67 | the group keys are distinct and are exactly the usernames of the fetched rows |
| UserRecords.FirstSeenOrder | back/api/userRecords.php:56-62 | groups appear in the order in which their usernames first occur |
| UserRecords.EntriesOfAppend | back/api/userRecords.php:63-66 | a group's entries over a concatenation are its entries over the first part followed by those over the second, so the rows' relative order is kept |
| UserRecords.EntriesOfCount | back/api/userRecords.php:56-67 | a group holds exactly as many entries as there are rows with its username |
| UserRecords.GroupSizesSum | back/api/userRecords.php:55-73 | the sizes of all groups add up to the number of fetched rows |
| UserRecords.CountIsDistinctUsernames | back/api/userRecords.php:72 | the number of groups equals the number of distinct usernames |
| UserRecords.UnseenHasNoEntries | back/api/userRecords.php:57-62 | a username not seen so far has no entries, so a new group starts empty before its first entry |
| UserRecords.NewGroupStep | back/api/userRecords.php:57-66 | one loop step for a new username appends a group holding just that row's entry, and the grouping stays exact |
| UserRecords.ExtendGroupStep | back/api/userRecords.php:63-66 | one loop step for a known username appends the entry to that group only, and the grouping stays exact |
| UserRecords.GroupByUsername | back/api/userRecords.php:55-67 | the grouping loop yields one group per username in first-seen order, each holding that user's entries in row order |
| UserRecords.FirstSeenGroupsDescribePage | back/api/userRecords.php:55-73 | groups in first-seen order describe the page: one per distinct username, each with that user's entries, sizes summing to the page size |
| UserRecords.GroupPage | back/api/userRecords.php:55-73 | the reply's `count` equals the number of groups, and the groups describe the page: one per distinct username in first-seen order, each with that user's entries |
| UserRecords.ListAll | back/api/userRecords.php:20-74 | the whole endpoint: the reply describes, in first-seen username order, the page fetched with the trimmed username filter and the clamped limit and offset |
| AuthService.LastIndexOf | services/authService.js:89-90 | the position found holds the key and no later member has it; nothing is found exactly when the key is absent |
| AuthService.Member | services/authService.js:89-90 | a property read finds a value exactly when the key is present, and with a repeated key it is the last one |
| AuthService.IsValidAuthResponse | services/authService.js:87-95 | true only for objects; false whenever `error` is truthy; otherwise true exactly when `valid`, `success` or `ok` is `true` or one of user, user_id, uid, email, name is a key |
| AuthService.AuthenticatedReplyAccepted | back/api/Account.php:20-28 | the `authenticated` reply shape, which has a `user` key and no `error`, is accepted by the client predicate |
| AuthService.InvalidReplyRejected | back/api/Account.php:30-34 | the `invalid_token` reply shape has no `error`, no `valid`/`success`/`ok` and no identity key, so the client predicate rejects it |
| AuthService.ServerReplyAccepted | services/authService.js:87-95 | the client accepts the server's `authUser` reply exactly when the server found a user for the token: `authenticated` carries `user`, `invalid_token` carries no hint key |
| AuthService.FromStorage | services/authService.js:74-75 | the stored value is the local item when it is non-empty; when the local item is missing or empty and the session item is non-empty, it is the session item; a throwing storage gives nothing; an empty value is never returned |
| AuthService.CurrentLang | services/authService.js:21-31 | a stored lang is returned upper-cased; otherwise the result is FR exactly when the upper-cased first two characters of the browser language (default "en") are FR, and EN otherwise |
| AuthService.NavigatorLanguage | services/authService.js:27-28 | with no stored lang, a browser language gives FR exactly when it starts with "fr" in any case |
| AuthService.ValueFrom | services/authService.js:80 | the `[^;]*` run: a slice of the cookie string with no semicolon, ending at a semicolon or at the end |
| AuthService.KeysExclusive | services/authService.js:80 | the two cookie names cannot both start at the same position, so the alternation is never ambiguous |
| AuthService.MatchAt | services/authService.js:80 | a position matches exactly when it starts a cookie (string start or after "; "), the key `auth_token=` or `token=` starts there, and the `[^;]` run after the key is non-empty; the captured value is that whole run |
| AuthService.FirstCookieMatch | services/authService.js:80-81 | the cookie lookup finds nothing exactly when no position matches, and otherwise returns the leftmost match |
| AuthService.GetToken | services/authService.js:51-85 | priority: a non-empty `au` URL parameter, else the stored `auth_token`, else the decoded value of the leftmost cookie match, else null; a returned token comes from one of these sources |
| AuthService.GetTokenFirstOfTwoCookies | services/authService.js:79-81 | with no URL parameter and empty storage, "token=a; token=b" yields the decoded a |
| AuthService.EnsureAuthenticated | services/authService.js:97-109 | proceeds exactly when there is a token and the session response is valid, returning that response; redirects as `No token` exactly when the token is absent or empty, and as `Invalid token` exactly when a token is present but the response is not a valid auth response |
| AuthService.SessionGate | services/authService.js:97-109 | for a non-empty token and the server's `authUser` reply to it, the client proceeds exactly when some user holds the token, and otherwise redirects as invalid |
| AuthService.CookieExampleToken | services/authService.js:80-81 | the cookie string "token=abc" yields abc |
| AuthService.CookieExampleLeftmost | services/authService.js:80-81 | in "auth_token=x; token=y" the leftmost cookie wins and yields x |
| AuthService.CookieExampleNotAtStart | services/authService.js:80 | "mytoken=z" has no match at its inner "token", which does not start a cookie |

## Left out

- HTTP plumbing is not modelled: the CORS allow-list and headers, the OPTIONS short-circuit, request-method checks, status codes and JSON encoding. The same goes for back/api/check_session.php and back/api/change_lang.php, which only forward to `Account`.
- Connection setup, credentials and the global timezone are not modelled (back/config/Database.php, back/config/config.php, back/config/AccountConfig.php).
- The `CREATE TABLE IF NOT EXISTS` statements are schema definitions, not behaviour.
- Exceptions from the database (the `catch (Throwable …)` replies with status 500) are not modelled; every query is taken to succeed.
- PHP's `strtotime` and `date` are not modelled concretely. The parse is a caller-supplied function `string -> Option<int>`. Writing the time as a `DATETIME` and reading it back with `strtotime` is taken to give the same second, so time zones and DST play no part.
- Concurrency is not modelled. Requests run one after another, so the read-then-insert race of punch_in.php:67-87 cannot occur in the model.
- Token and username comparisons are exact string equality. This covers `WHERE auth_token = ?` and `WHERE username = ?` (back/api/userRecords.php:30, back/api/time_records/punch_in.php:67, back/api/time_records/list.php:66 and 71). MySQL's usual collation, which ignores case and trailing spaces, is not modelled. Under it the filter "alice" would also return rows of "Alice", and PHP's exact-key grouping would then give them a group of their own; UserRecords.Matching states the exact-equality behaviour only.
- Integer widths are not modelled: ids, `duration_ms` and PHP integers are unbounded.
- Request fields other than strings or null are not modelled. The `(int)` casts of `limit` and `offset` in userRecords.php are given as already-cast integers.
- Accounts.Resolve: with a token held by several users, `SELECT … WHERE auth_token = ?` has no `ORDER BY` and may return any of them, even a different one on the re-read after the `UPDATE`. The model takes the first in table order, which Accounts.ResolveAfterSetLang and Accounts.ChangeLangIdempotent rely on. Tokens are meant to be unique.
- Ledger.LatestOpen: when two open rows of a user share the greatest `clock_in`, the SQL `ORDER BY clock_in DESC LIMIT 1` may return either. The model picks the first in store order. Under `Valid` there is at most one open row, so the choice never matters.
- Ordering.SortDesc: rows with equal keys keep their store order. SQL leaves that order unspecified, so the contract states sortedness and permutation, not which tie order.
- Listing.List: `open_record` is returned as the whole row. The query at back/api/time_records/list.php:66 projects it to `id`, `username` and `clock_in`, so the model's `clock_out` and `duration_ms` fields of that row (both absent for an open row) are not part of the reply.
- The site-visit table of userRecords.php is a separate sequence of `UserRecords.Visit` rows and is not connected to the ledger store.
- AuthService.CurrentLang: JavaScript `toUpperCase` is modelled as ASCII upper-casing. `navigator` is taken to exist, so the final `return 'EN'` after a throwing `navigator` is not reachable in the model.
- AuthService.GetToken: `decodeURIComponent` is a caller-supplied function that returns `None` where it would throw. Storage writes and the `history.replaceState` URL cleanup are browser side effects and are not modelled.
- `buildLoginUrl`, `getSessionData` and services/punchService.js only build URLs or wrap `fetch`, and are not modelled. `ensureAuthenticated` receives the session response as an input.
- JSON numbers are integers in `AuthService.Json`. Fractions and NaN are not modelled.
