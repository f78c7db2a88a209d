# Verified model of the dating service's transactional core

The repository is a dating service: a Go backend over PostgreSQL and Redis and a TypeScript client. This
project models the parts where several steps, stores or requests have to agree, and proves what they
promise, as statements about every run and every interleaving.

- **Daily swipe budget** (`SwipeBudget`, `SwipeLoss`, `SwipePastLoss`, `SwipeConservation`,
  `SwipeService`). A swipe request
  finds, counts, reserves, records and releases in separate steps, over a Redis counter and a table of rows;
  `SwipeStores` runs it together with the tables of swipes, matches and blocks that decide its answers.
- **Refresh tokens** (`Sessions`, `SessionRepository`): the families linked by `replaced_by`.
- **Access-token denylist** (`Denylist`, `TokenDenylist`) and the session calls over both stores (`Auth`,
  `AuthService`); `AuthRace` interleaves the steps of refreshes and logouts over both.
- **Keyset pagination** (`Keyset`), proved once over any strict total order and instantiated for history,
  matches and discovery (`Paging`).
- **Swipes, matches and blocks** (`Matching`, `MatchingRepository`), the four SQL predicates that have to
  agree, and the two orders on UUIDs (`Uuids`).
- **Discovery** and **match list** (`Discovery`, `MatchList`): what those two queries list, paged.
- **Limiters** (`Lockout`, `FrameLimiter`), **idempotent send** (`Messaging`, `MessagingService`, `Text`, and
  `Conversations` with the matches that admit it), **photo
  reordering** (`PhotoOrder`) and the **reconnecting socket** (`RealtimeProtocol`, `RealtimeSocket`).

Each part has a state value, a step function and lemmas over runs. What the source does by changing things in
place is a class beside it, whose methods are proved to make exactly the steps of that function.

## Assumptions

- Each repository method and each Lua script is one atomic step. For two rotations of one token, and for
  swipes and blocks of one pair, the source enforces this with row locks; between a rotation and a
  family-wide update it is an assumption.
- A `RecordSwipe` that returns an error stored nothing.
- New UUIDs and new token hashes are fresh; a hash identifies its token.
- There is one clock. It counts seconds, and milliseconds where access tokens need them.
- A Redis call may fail before the script, or after it with its reply lost; both are steps of the models.
- Distances and ages are functions of their arguments, and distance is symmetric where that is needed.
- A user has at most one primary photo, as the schema's unique index demands.
- Match ids drawn by a swipe and message ids drawn by a send are not in use.
- In `Matching` other features may replace users, profiles, preferences, consents and photos at any moment.
- Callbacks of the socket run to completion, as they do in a browser.

## Where the code and its own words differ

- `ReorderPhotos` is commented as safe because it stages photos at negative positions, but the schema checks
  positions to be zero to five: the first update of every nonempty list fails
  (`PhotoOrder.SchemaRefusesReorder`). `ReorderExact` says for which ranges the loops do work.
- The denylist script is commented as excluding a race with a token being issued. A token registered after
  the script has run is not ended by it (`Denylist.RaceExact`, `Denylist.LateTokenSurvives`). A refresh that
  has rotated may even register after the whole logout (`AuthRace.LateGrantSurvives`), and no other can
  (`AuthRace.LateGrantExactly`).
- `withDefaults` replaces an unusable default page size by 20 even when the configured maximum is smaller
  (`Paging.DefaultWithinMaximum`, `Paging.DefaultExceedsMaximum`).
- `CountSwipesSince` has no upper bound, so a request that counts after midnight also counts the new day
  (`SwipeBudget.CountIsDay`). That can refuse too early (`SwipeLoss.LateCountRefuses`) but never admit too many.
- A lost Redis key keeps the swipe limit only under the condition of `SwipeLoss.LossExact`, or of
  `SwipePastLoss.PastLossExact` for a day that is over; the counterexample lemmas build the runs that exceed it.
- A replayed nonce returns the message of the call that created it, also when match or content differ
  (`Messaging.ReplayReturnsCreators`, `Messaging.ReplayOfOther`).
- A block is meant to cut messaging in both directions (PLAN.md:245). Sending checks the match first and inserts
  later: a message admitted before a block is stored and published after it (`Conversations.StoredAfterBlock`).
  `StoredTogetherExactly` and `PublishedTogetherExactly` say when the two users are still together.
- A swipe may be stored for a user whom discovery would turn away for want of a primary photo
  (`Matching.CreatedButNotReady`, `Matching.SwipedWithoutPhoto`).
- The branch of the socket that handles a refused ticket does not compare generations. With a single start
  that is harmless; after a restart it is not (`RealtimeProtocol.RestartDoubles`). `stop` clears the timer it
  remembers and no other, so a restart can also leave a timer behind it (`RealtimeProtocol.StopForgetsTimer`);
  `RealtimeProtocol.StopExact` says when it does.
- The delay before a reconnect is described as full jitter; it is never less than half its ceiling
  (`RealtimeProtocol.DelayExactly`).

## Model

| member | source | states |
|---|---|---|
| `SwipeBudget.ReserveScript` | backend/internal/adapters/redis/swipe_limiter.go:12-29 | A reservation is granted exactly when neither the stored counter nor the rows counted by the request has reached the limit; a grant leaves the larger of the two plus one, a refusal leaves the larger. |
| `SwipeBudget.ReleaseScript` | backend/internal/adapters/redis/swipe_limiter.go:31-38 | A release takes one unit back unless that would go below the rows counted by its request; it never creates a key or moves its expiry. |
| `SwipeBudget.RetryAfter` | backend/internal/application/matching/service.go:358-364 | The advised wait is at least one second and never ends before the UTC day does. |
| `SwipeBudget.CountCoversDay` | backend/internal/adapters/postgres/sqlc/matching.sql.go:80-82 | The SQL count since the start of a day is never less than the rows of that day. |
| `SwipeBudget.CountIsDay` | backend/internal/adapters/postgres/sqlc/matching.sql.go:80-82 | The SQL count, which has no upper bound, is the count of the day exactly when the user has no row of a later day. |
| `SwipeBudget.InFlightAfter` | backend/internal/application/matching/service.go:168-219 | Moving one request to another phase changes the number of reservations held by exactly that request, by nothing or one. |
| `SwipeBudget.FindExactly` | backend/internal/application/matching/service.go:160-168 | A request that finds nothing reads the clock; a stored swipe ends it as existing and an error as a failed search. |
| `SwipeBudget.CountExactly` | backend/internal/application/matching/service.go:168-176 | The count starts at the start of the UTC day the clock was read on; at the limit the request is refused with the seconds that were left of that day. |
| `SwipeBudget.ReserveExactly` | backend/internal/adapters/redis/swipe_limiter.go:12-65 | Granted while counter and count are both below the limit; what is written is the larger plus one, or the lifted count on refusal, and lives until an hour after the day; each way a call can end has its answer. |
| `SwipeBudget.RecordExactly` | backend/internal/application/matching/service.go:195-202 | A stored swipe adds the row of its actor at the instant the clock was read; a duplicate and a failure are told apart and both owe the reservation. |
| `SwipeBudget.ReleaseExactly` | backend/internal/application/matching/service.go:202-219 | A release that runs takes one unit unless the counter is down to the count, and is reported with its reason and with whether its reply came. |
| `SwipeBudget.StepKeepsKey` | backend/internal/application/matching/service.go:160-219 | Every step of every request (find, count, reserve, record, release, lost replies, crashes, the clock, dropped keys that are safe to drop) keeps the per-key invariant: counter and rows at most the limit, and either the counter covers rows plus reservations or losing it is harmless. |
| `SwipeBudget.BudgetKept` | backend/internal/application/matching/service.go:148-222 | Over every interleaving of any number of swipe requests, with stale counts and crashes anywhere, in which keys are only lost when that is safe, the invariant holds, so no rows of a day and no counter exceed the daily limit. |
| `SwipeBudget.InitInv` | backend/internal/application/matching/service.go:330-333 | The invariant holds before the first request, for every positive limit. |
| `SwipeLoss.LossExact` | backend/internal/adapters/redis/swipe_limiter.go:18-28 | Losing the key of the current day keeps the limit in all continuations if and only if no request waits with an outdated count, none holds a reservation it may still use, and a release is owed only once the day is full. |
| `SwipePastLoss.PastLossExact` | backend/internal/adapters/redis/swipe_limiter.go:18-28 | Losing the key of a day that is over keeps the limit in all continuations if and only if all requests left of that day have room to store, or for some number the requests that counted fewer rows, the rows, the reservations and the owed releases are together no more than it. |
| `SwipePastLoss.ContainedKeepsLimit` | backend/internal/application/matching/service.go:168-219 | That condition, said of any counter, is kept by every step of every request of a day that is over, and keeps its rows within the limit. |
| `SwipePastLoss.Overrun` | backend/internal/application/matching/service.go:168-219 | And where it does not hold, some run of the requests that are left, without any loss, stores more rows than the limit. |
| `SwipePastLoss.FutureLossHarmless` | backend/internal/adapters/redis/swipe_limiter.go:18-28 | Losing a key of a day to come is always harmless. |
| `SwipeLoss.CoveredWithoutLoss` | backend/internal/application/matching/service.go:168-219 | In every run without key loss, rows of the day plus reservations in flight are at most the counter, and the counter is at most the limit. |
| `SwipeLoss.BudgetSurvivesExpiry` | backend/internal/adapters/redis/swipe_limiter.go:48-65 | Counters live until an hour after their day; if requests finish within an hour, no expiry in any run can break the limit. |
| `SwipeLoss.Fill` | backend/internal/application/matching/service.go:148-222 | From any state whose counter does not exceed the rows, fresh requests alone can bring the rows of the day to any number up to the limit without disturbing the requests already there. |
| `SwipeLoss.OverByReserved` | backend/internal/application/matching/service.go:195-201 | A reservation forgotten by a lost counter leads to a run whose rows exceed the limit. |
| `SwipeLoss.OverByOwing` | backend/internal/application/matching/service.go:202-219 | A release still owed when the counter is lost leads, while the day has room, to a run whose rows exceed the limit. |
| `SwipeLoss.OverByWaiting` | backend/internal/application/matching/service.go:170-193 | A count that is behind the rows when the counter is lost leads to a run whose rows exceed the limit. |
| `SwipeLoss.LateCountRefuses` | backend/internal/application/matching/service.go:168-176 | For every limit and user a run without failures in which a request stamped in the last second of a day counts after midnight and is refused by rows although its own day has none. |
| `SwipeLoss.EarlyRefusalExactly` | backend/internal/application/matching/service.go:170-176 | A request is refused by rows on a day with room exactly when the rows of its day are below the limit and the open-ended count is not. |
| `SwipeConservation.Conserved` | backend/internal/application/matching/service.go:168-219 | From any balanced state: with no crash, no failed Redis call, no key loss and counts taken on the day of the request, every run leaves the counter of every key equal to rows plus reservations in flight. |
| `SwipeConservation.ConservedFromStart` | backend/internal/application/matching/service.go:148-222 | From empty stores: after every such run the counter of every user and day is exactly the rows of the day plus the reservations in flight. |
| `SwipeConservation.RefusedExactly` | backend/internal/application/matching/service.go:174-193 | In such runs a reservation is refused exactly when rows plus reservations have reached the limit, and the earlier check refuses exactly when the rows alone have. |
| `SwipeConservation.ReleaseNeverSuppressed` | backend/internal/adapters/redis/swipe_limiter.go:31-38 | In such runs the floor guard of the release never holds back a decrement that is due. |
| `SwipeService.SwipeLimiter.Reserve` | backend/internal/adapters/redis/swipe_limiter.go:48-65 | The script read, lift, compare, increment, as statements on the stored counters, is the reservation function, with the same expiry and retry time. |
| `SwipeService.SwipeLimiter.Release` | backend/internal/adapters/redis/swipe_limiter.go:67-72 | The script as statements is the release function; other keys are untouched. |
| `MatchingRepository.Repository.CountSwipesSince` | backend/internal/adapters/postgres/sqlc/matching.sql.go:80-82 | The rows counted one by one, in any order, are the swipes of the user in the table from the given instant on. |
| `SwipeService.Service.Swipe` | backend/internal/application/matching/service.go:148-222 | Self-interaction and unknown actions change nothing; otherwise one undisturbed request changes both stores exactly as the run of its own events does, and its answer is given by the old tables, the counter and the failures: each of the nine answers has its exact condition, and the swipe is stored exactly when it is created. |
| `SwipeService.SoloAnswers` | backend/internal/application/matching/service.go:148-222 | The same of the run: the condition of each answer in terms of block, earlier swipe, rows of the day, counter, target and failures, with the seconds left in the refusals. |
| `SwipeService.Service.Record` | backend/internal/application/matching/service.go:195-202 | The transaction of the repository and how the service reads its answer. |
| `SwipeService.ActionsExactly` | backend/internal/domain/matching/entity.go:17-19 | The three names are the three actions and no other name is one. |
| `SwipeStores.RunProjects` | backend/internal/application/matching/service.go:148-222 | With the answers of the repository decided by the tables of swipes, matches and blocks, which other requests change, every run over both stores is a run of the budget. |
| `SwipeStores.SearchExactly` | backend/internal/adapters/postgres/repositories/matching_repository.go:87-101 | A search fails for a database error or a block, finds a stored swipe, and otherwise lets the request go on, as the tables stand. |
| `SwipeStores.RecordingExactly` | backend/internal/adapters/postgres/repositories/matching_repository.go:103-184 | A held reservation becomes a stored swipe exactly when the target would be offered; a swipe that is there is a duplicate, and nothing else changes the tables. |
| `SwipeStores.CountIsTable` | backend/internal/adapters/postgres/sqlc/matching.sql.go:80-82 | In every reachable state of both stores what a request counts is the number of its user's swipes in the table from that instant on. |
| `SwipeStores.DailySwipesLimited` | backend/internal/application/matching/service.go:148-222 | Over every interleaving of swipe requests with blocks, unmatches and edits in which keys are only lost when that is safe, the table of swipes never holds more of one user and day than the limit. |
| `SwipeStores.DailySwipesPrompt` | backend/internal/application/matching/service.go:148-222 | The same under conditions seen from outside: requests finish within an hour and Redis evicts nothing, while counters may expire. |
| `Sessions.StepGrows` | backend/internal/adapters/postgres/sqlc/sessions.sql.go:95-139 | In every step a token row keeps owner, family and hash, and once revoked never changes again: its time and reason of revocation are written once. |
| `Sessions.RotationExtendsChain` | backend/internal/adapters/postgres/repositories/session_repository.go:55-112 | Rotating an unconsumed token of a chain appends the new token at the end of that chain. |
| `Sessions.RunGrows` | backend/internal/adapters/postgres/repositories/session_repository.go:26-128 | Over every run the session invariant and the growth of rows hold. |
| `Sessions.RotationExactly` | backend/internal/adapters/postgres/repositories/session_repository.go:55-112 | Each of the four answers of a rotation has its exact condition, and for each the new table row by row: nothing, the family revoked for reuse, or the row replaced by the new one. |
| `Sessions.FamilyRevocationExactly` | backend/internal/adapters/postgres/sqlc/sessions.sql.go:135-139 | Exactly the unrevoked rows of the family get that time and reason. |
| `Sessions.UserRevocationExactly` | backend/internal/adapters/postgres/sqlc/sessions.sql.go:118-122 | Exactly the unrevoked rows of that user, and of no other, get that time and reason. |
| `Sessions.LookUpExactly` | backend/internal/application/auth/service.go:204-234 | A refresh gets past its lookup exactly with the hash of a row that has not expired, for an active user, and carries that row. |
| `Sessions.StepExactly` | backend/internal/adapters/postgres/repositories/session_repository.go:26-128 | A login stores its row under new id, hash and family; a rotation stays with user and family; the two logouts revoke with their own reasons. |
| `Sessions.FamilyShape` | backend/internal/adapters/postgres/repositories/session_repository.go:55-128 | In every reachable state the tokens of a family form one linear chain with one root and one owner, in which all but the last are replaced by their successor and revoked. |
| `Sessions.ChainAcyclic` | backend/internal/adapters/postgres/sqlc/sessions.sql.go:95-99 | Following the replacement link moves strictly forward in that chain, never to an earlier token, and only the tip can be unrevoked. |
| `Sessions.AtMostOneLive` | backend/internal/adapters/postgres/repositories/session_repository.go:55-128 | No two different tokens of a family are unrevoked. |
| `Sessions.DeadStays` | backend/internal/adapters/postgres/repositories/session_repository.go:114-128 | A family without an unrevoked token gains none in any step. |
| `Sessions.SingleUse` | backend/internal/application/auth/service.go:204-277 | When two refreshes reach the rotation with the same token, at most one succeeds, and the family has no unrevoked token then and in every later state. |
| `Sessions.DeadForever` | backend/internal/adapters/postgres/repositories/session_repository.go:72-84 | A family that is dead stays dead over every run. |
| `Sessions.OtherFamiliesUntouched` | backend/internal/adapters/postgres/repositories/session_repository.go:72-112 | A rotation, successful or detecting reuse, leaves every row of every other family as it was and adds rows to its own family only. |
| `Sessions.RevokedNeverRotates` | backend/internal/adapters/postgres/repositories/session_repository.go:72-84 | A token that was revoked is reported as reused by every later rotation, in every later state. |
| `SessionRepository.Repository.Create` | backend/internal/adapters/postgres/repositories/session_repository.go:26-37 | Inserts the row, or fails and changes nothing when the id or hash is taken. |
| `SessionRepository.Repository.FindByHash` | backend/internal/adapters/postgres/repositories/session_repository.go:39-49 | Returns a row with that hash, or none exactly when there is none. |
| `SessionRepository.Repository.Rotate` | backend/internal/adapters/postgres/repositories/session_repository.go:51-112 | The transaction statement by statement is the rotation function, its rollback included. |
| `SessionRepository.Repository.RevokeFamily` | backend/internal/adapters/postgres/repositories/session_repository.go:114-120 | Revokes exactly the unrevoked rows of the family. |
| `SessionRepository.Repository.RevokeAllForUser` | backend/internal/adapters/postgres/repositories/session_repository.go:122-128 | Revokes exactly the unrevoked rows of the user. |
| `Denylist.SweepOutlives` | backend/internal/adapters/redis/token_denylist.go:21-33 | However late after its caller read the clock the script runs, each tracked token of the user is afterwards expired or denied for at least the rest of its life. |
| `Denylist.RunKeepsToken` | backend/internal/adapters/redis/token_denylist.go:51-79 | A token that is expired or denied to its end stays so in every later state, whatever is registered or denied. |
| `Denylist.DeniedForGood` | backend/internal/adapters/redis/token_denylist.go:72-79 | After the script has run for a user, no token registered for that user before is accepted at any later instant. |
| `Denylist.RaceExact` | backend/internal/adapters/redis/token_denylist.go:17-33 | Once the script has run, all tokens of the user have ended if and only if those registered since have expired by themselves: a concurrent issue is not covered. |
| `Denylist.SweepExactly` | backend/internal/adapters/redis/token_denylist.go:21-33 | Each active token of the user with time left is denied for exactly that many seconds from when the script runs; no other key and no other user's set is touched. |
| `Denylist.OthersUnaffected` | backend/internal/adapters/redis/token_denylist.go:21-33 | Tokens of other users are accepted after the script exactly as before. |
| `Denylist.DenyExactly` | backend/internal/adapters/redis/token_denylist.go:51-60 | Denying a token ends it until its own expiry and leaves every other as it was. |
| `Denylist.RegisterExactly` | backend/internal/adapters/redis/token_denylist.go:62-70 | A registered token is tracked for its user under its expiry in whole seconds and accepted until that second. |
| `Denylist.LateTokenSurvives` | backend/internal/adapters/redis/token_denylist.go:21-33 | In every reachable state a token registered right after the script is accepted. |
| `TokenDenylist.Redis.Deny` | backend/internal/adapters/redis/token_denylist.go:51-60 | Denies the token until its expiry; an expired token is left alone. |
| `TokenDenylist.Redis.RegisterActive` | backend/internal/adapters/redis/token_denylist.go:62-70 | Adds the token with its expiry in whole seconds to the active set of its user. |
| `TokenDenylist.Redis.DenyAllActive` | backend/internal/adapters/redis/token_denylist.go:21-33 | The loop over the active set, in any order, writes for each member with time left a key of that many seconds, no other key, and drops the set. |
| `Auth.DoIsDenylistRun` | backend/internal/application/auth/service.go:204-311 | What one service call does to the access tokens is at most one event of the denylist. |
| `Auth.DoAllKeeps` | backend/internal/application/auth/service.go:204-352 | Over any run of calls, rows and registered tokens persist, revoked rows stay as they are, and ended access tokens stay ended. |
| `Auth.LogoutAllIsFinal` | backend/internal/application/auth/service.go:303-311 | After a successful logout everywhere, in every later state, no access token registered before for that user is accepted and no refresh token stored before is exchanged. |
| `Auth.ReuseEndsAll` | backend/internal/application/auth/service.go:249-254 | When a token that was revoked or replaced is presented again, unexpired and with Redis in reach: its family has no unrevoked token in any later state, and no access token issued before to its user is accepted again. |
| `Auth.LogoutIsFinal` | backend/internal/application/auth/service.go:279-301 | After a logout the presented access token is never accepted again and the family of the refresh token it brought, if the caller's own, stays without an unrevoked token. |
| `Auth.IssueExactly` | backend/internal/application/auth/service.go:317-352 | Each answer of issuing a session has its exact condition, with the row stored and the token registered for the configured times. |
| `Auth.RefreshRefused` | backend/internal/application/auth/service.go:204-234 | Without a row of that hash that has not expired, or for an inactive user, a refresh is invalid and changes nothing. |
| `Auth.RefreshExactly` | backend/internal/application/auth/service.go:236-277 | Any other refresh rotates the row; reuse sweeps the user's access tokens, success registers the next one for the configured time, each exactly when Redis is reached; the answers by case. |
| `Auth.LogoutExactly` | backend/internal/application/auth/service.go:279-301 | Denies the access token until its expiry and revokes the family exactly when Redis answers and the refresh token is the caller's own. |
| `Auth.LogoutAllExactly` | backend/internal/application/auth/service.go:303-311 | Sweeps exactly when Redis is reached and revokes the user's rows exactly when it answers. |
| `AuthService.Service.IssueSession` | backend/internal/application/auth/service.go:317-352 | Registers the access token before the refresh row is stored; a failure of either, or a lost reply after the registration, ends the call with what was done so far. |
| `AuthService.Service.Refresh` | backend/internal/application/auth/service.go:204-277 | The calls in their order over both stores are the refresh function: unknown, expired or inactive is invalid, reuse denies all access tokens, success registers the next one; a Redis call that fails or whose reply is lost leaves the rotation in place and returns no token. |
| `AuthService.Service.Logout` | backend/internal/application/auth/service.go:279-301 | Denies the presented access token, then ends the family of a refresh token that belongs to the caller, and ignores any other. |
| `AuthService.Service.LogoutAll` | backend/internal/application/auth/service.go:303-311 | Denies all active access tokens and then revokes all refresh tokens; when Redis fails or its reply is lost no refresh token is revoked. |
| `AuthService.Service.Authenticate` | backend/internal/platform/middleware/auth.go:43-70 | A signed access token passes if and only if Redis answers and the token is accepted in the state of the denylist, that is neither expired nor denied; without an answer an unexpired one is refused as unavailable. |
| `AuthRace.RowsThatSurvive` | backend/internal/application/auth/service.go:204-311 | With the steps of refreshes and logins falling anywhere between the sweep and the revocation of a logout everywhere: every row of the user stored at the revocation stays revoked, and any row live later is of a family begun since. |
| `AuthRace.TokensThatSurvive` | backend/internal/application/auth/service.go:204-311 | Then an access token of the user that is accepted in any later state was registered after the sweep. |
| `AuthRace.GrantedByEarlierRotation` | backend/internal/application/auth/service.go:249-268 | And if a refresh registered it with a row stored at the revocation, that refresh had rotated by then. |
| `AuthRace.LateGrantSurvives` | backend/internal/application/auth/service.go:249-268 | Whatever fell between sweep and revocation, a refresh that had rotated by the revocation and owes its access token may register it after the logout is complete, under any new id, and it is accepted. |
| `AuthRace.LateGrantExactly` | backend/internal/application/auth/service.go:249-311 | The exact condition: a refresh with a row of the user stored at the revocation can still register an accepted token in some continuation if and only if it had rotated by then and registered none yet. |
| `AuthRace.OwingReached` | backend/internal/application/auth/service.go:204-268 | Such a refresh is reached by a login, a lookup and a rotation. |
| `Uuids.TextOrderIsOctetOrder` | backend/internal/domain/matching/entity.go:42-47 | Comparing the text forms of two UUIDs (section 4 of RFC 9562) orders them as comparing their octets does. |
| `Uuids.LessAt` | backend/internal/domain/matching/entity.go:42-47 | The order is decided by the first octet in which two UUIDs differ. |
| `Uuids.TextExactly` | backend/internal/domain/matching/entity.go:42-47 | The text form has 36 characters: two lower-case hexadecimal digits for each octet at the place section 4 of RFC 9562 gives them. |
| `Uuids.OrderedPairIsLeastGreatest` | backend/internal/domain/matching/entity.go:42-47 | The pair the Go code stores is the pair of LEAST and GREATEST the SQL looks up, whichever user comes first. |
| `Uuids.PairDetermines` | backend/internal/adapters/postgres/sqlc/matching.sql.go:59-63 | Two pairs of users have the same ordered pair exactly when they are the same two users. |
| `Keyset.FetchFacts` | backend/internal/application/messaging/service.go:180-204 | One page is in order, lies behind its cursor, holds only present rows, and with no next cursor is complete; with one, everything it left out comes after that cursor. |
| `Keyset.NeverRepeats` | backend/internal/application/messaging/service.go:180-204 | Whatever rows come and go between requests, the concatenated pages are strictly in order, so nothing is returned twice, and each item was present in some visited state. |
| `Keyset.NeverMisses` | backend/internal/application/messaging/service.go:180-204 | A client that reaches a page without cursor has received every row that was present throughout. |
| `Keyset.StaticList` | backend/internal/application/messaging/service.go:180-204 | On rows that do not change the pages concatenate to the whole sorted list, in exactly as many pages as needed. |
| `Keyset.PagesForCeiling` | backend/internal/application/messaging/service.go:191-204 | That number is the ceiling of rows over page size, both bounds of it for any number of rows, and one for an empty list. |
| `Paging.NormalizePageSize` | backend/internal/application/messaging/service.go:252-260 | Accepted sizes lie between 1 and 100; exactly the negative and larger ones are refused. |
| `Paging.DefaultWithinMaximum` | backend/internal/application/matching/service.go:320-346 | Every accepted request gets at least one row; no accepted request gets more than the configured maximum if and only if that maximum is not below twenty (or unset) or a usable default is configured. |
| `Paging.DefaultsExactly` | backend/internal/application/matching/service.go:330-346 | The defaults setting by setting: a hundred swipes, at most fifty rows, twenty by default, wherever a setting is missing or out of range. |
| `Paging.PageLimitExactly` | backend/internal/application/matching/service.go:320-328 | A size within the maximum is granted as it is, none gets the default, all else is refused. |
| `Paging.NormalizedExactly` | backend/internal/application/messaging/service.go:252-260 | The same of messaging: thirty by default, at most a hundred. |
| `Paging.DefaultExceedsMaximum` | backend/internal/application/matching/service.go:330-343 | For every configured maximum below twenty without a default, a request without a size gets twenty. |
| `Paging.NewerIsOrder` | backend/internal/adapters/postgres/sqlc/messages.sql.go:228-242 | Newest first with ties by descending id is a strict total order. |
| `Paging.DatedPageIsFetch` | backend/internal/adapters/postgres/sqlc/messages.sql.go:228-242 | The page made with the SQL cursor clause is the generic page behind the cursor. |
| `Paging.DatedReadExactlyOnce` | backend/internal/adapters/postgres/sqlc/matching.sql.go:424-457 | Whatever changes between requests, the client reads strictly newest first, and at the end has read once each row that was always there. |
| `Paging.HistoryExactlyOnce` | backend/internal/application/messaging/service.go:170-206 | History: a message of the match that is never deleted while the client pages is returned exactly once. |
| `Paging.OnlyOwnMessagesRead` | backend/internal/adapters/postgres/sqlc/messages.sql.go:228-242 | Every row read is, in the table some request met, a message of that match, not deleted, at the time it was created. |
| `Paging.DatedStatic` | backend/internal/application/messaging/service.go:170-206 | History and matches: on rows that do not change the client reads the whole list, newest first, in the ceiling of rows over page size many requests. |
| `MatchList.MatchesExactlyOnce` | backend/internal/adapters/postgres/sqlc/matching.sql.go:424-457 | Matches: one that, in the tables of users, profiles, photos, blocks and matches, stays listed while the client pages is returned exactly once, newest first. |
| `MatchList.OnlyListedReturned` | backend/internal/adapters/postgres/sqlc/matching.sql.go:424-457 | Every row returned is, in the tables some request met, an active match of the user with that id and time, with a showable other side and no block between. |
| `MatchList.RowsExactly` | backend/internal/adapters/postgres/sqlc/matching.sql.go:436-446 | The rows of the query are exactly those. |
| `MatchList.ListedExactly` | backend/internal/adapters/postgres/sqlc/matching.sql.go:441-446 | In every reachable state a match is listed for one of its users exactly when it is active and the other side has user, profile and primary photo: the block clause excludes nothing. |
| `Paging.BetterIsOrder` | backend/internal/adapters/postgres/sqlc/matching.sql.go:699-704 | Highest score first with ties by user id is a strict total order. |
| `Paging.DiscoverIsFetch` | backend/internal/application/matching/service.go:107-143 | A discovery page is the generic page over the ranking at the instant its cursor carries, which is the instant of the first request. |
| `Paging.DiscoveryExactlyOnce` | backend/internal/application/matching/service.go:107-143 | Discovery: candidates come strictly in order, and one that is eligible with the same score at the pinned instant throughout is offered exactly once. |
| `Paging.DiscoveryStatic` | backend/internal/application/matching/service.go:107-143 | Discovery: while the ranking at the pinned instant does not change, all of it is offered in order, in as many requests as needed. |
| `Discovery.OnlyEligibleOffered` | backend/internal/adapters/postgres/sqlc/matching.sql.go:519-705 | Everyone offered while paging was eligible, with the score shown, at the instant of the first request in the state some request met. |
| `Discovery.EligibleOfferedOnce` | backend/internal/application/matching/service.go:96-146 | A candidate who satisfies the full discovery predicate in every state the requests meet, seen from the instant of the first, with the same score, is offered exactly once. |
| `Matching.SwipeEffect` | backend/internal/adapters/postgres/repositories/matching_repository.go:103-184 | A swipe that is not created changes nothing; a created one adds its row and, exactly when it completes a mutual pair, a new match row. |
| `Matching.MatchExactlyWhenMutual` | backend/internal/adapters/postgres/repositories/matching_repository.go:103-184 | In every reachable state a pair has a match row if and only if both directions hold a positive swipe. |
| `Matching.CreatedCarriesFreshMatch` | backend/internal/adapters/postgres/sqlc/matching.sql.go:296-302 | The match a swipe carries is always the new active one; the conflict branch of the insert is never taken. |
| `Matching.OneCarrier` | backend/internal/adapters/postgres/repositories/matching_repository.go:148-184 | Over a whole run the number of swipes that carried a match of a pair is one if it becomes matched and zero otherwise. |
| `Matching.EndedForGood` | backend/internal/adapters/postgres/sqlc/matching.sql.go:843-849 | An ended match row never changes again, so the pair is never rematched. |
| `Matching.BlockedNeverMatched` | backend/internal/adapters/postgres/repositories/matching_repository.go:255-285 | Once a block is stored between two users they have no active match in that or any later state. |
| `Matching.BlockExactly` | backend/internal/adapters/postgres/sqlc/matching.sql.go:865-871 | A block stores its row as the blocker made it, ends the active match of the two in the blocker's name, and changes nothing else. |
| `Matching.UnmatchExactly` | backend/internal/adapters/postgres/sqlc/matching.sql.go:843-849 | An unmatch ends the active match of that id in the name of the participant who asks, and nothing else. |
| `Matching.BlockClauseRedundant` | backend/internal/adapters/postgres/sqlc/messages.sql.go:14-25 | In every reachable state the block clause of the messaging authorization excludes nobody. |
| `Matching.CreatesExactlyWhenOffered` | backend/internal/adapters/postgres/sqlc/matching.sql.go:14-65 | A swipe creates a row if and only if its target is among the eligible rows of the discovery query at that instant, and then every primary photo of the target is visible to the swiper just before. |
| `Matching.EligibleExactly` | backend/internal/adapters/postgres/sqlc/matching.sql.go:545-602 | Independently said: offered are exactly the others who are presentable, accept and are accepted in gender and age, are within the distance limits of both, have a primary photo, and have no swipe of the viewer, block or match. |
| `Matching.RecordedExactly` | backend/internal/adapters/postgres/repositories/matching_repository.go:103-184 | Each of the four answers to a swipe has its exact condition in those terms, and a repeated swipe is answered with the stored one and its match while that is active. |
| `Matching.TooFarRefused` | backend/internal/adapters/postgres/sqlc/matching.sql.go:50-54 | A pair too far apart for either of the two is never offered and its swipe is not allowed. |
| `Matching.ReadyExactly` | backend/internal/adapters/postgres/sqlc/matching.sql.go:96-116 | Ready for discovery is exactly who is presentable and has a primary photo. |
| `Matching.PhotoExactly` | backend/internal/adapters/postgres/sqlc/matching.sql.go:170-231 | A photo is visible exactly when primary, not deleted and unblocked, and of the viewer, an active match, or someone who suits the viewer and whom the viewer has not swiped. |
| `Matching.CreatedButNotReady` | backend/internal/adapters/postgres/sqlc/matching.sql.go:96-116 | Discovery also demands that the viewer is ready: a swipe is created by a user who is not if and only if the target is eligible and the swiper has no primary photo. |
| `Matching.SwipedWithoutPhoto` | backend/internal/adapters/postgres/sqlc/matching.sql.go:96-116 | For any two users who suit each other, of whom only the target has a primary photo: the swipe is created and discovery would turn the swiper away. |
| `Matching.PhotoVisibleExactly` | backend/internal/adapters/postgres/sqlc/matching.sql.go:170-231 | In every reachable state another user's primary photo is visible exactly to users with an active match and to users to whom discovery would offer its owner. |
| `Matching.DiscoveryMutual` | backend/internal/adapters/postgres/sqlc/matching.sql.go:545-602 | If a ready viewer is offered a candidate, the candidate is offered the viewer at the same instant if and only if the candidate has not swiped the viewer. |
| `MatchingRepository.Repository.FindSwipeOutcome` | backend/internal/adapters/postgres/repositories/matching_repository.go:334-358 | Returns the stored swipe together with the match of the pair while that is active. |
| `MatchingRepository.Repository.FindSwipe` | backend/internal/adapters/postgres/repositories/matching_repository.go:87-101 | The same behind the block check. |
| `MatchingRepository.Repository.GetActiveParticipants` | backend/internal/adapters/postgres/sqlc/messages.sql.go:14-25 | Returns the two users of an active, unblocked match of that id the viewer takes part in, and none exactly when there is none. |
| `MatchingRepository.Repository.RecordSwipe` | backend/internal/adapters/postgres/repositories/matching_repository.go:103-184 | The transaction in its order of checks and writes is the record function, its answer included. |
| `MatchingRepository.Repository.Block` | backend/internal/adapters/postgres/repositories/matching_repository.go:255-285 | Stores the block and ends the active match of the pair together, or does neither when a user does not exist. |
| `MatchingRepository.Repository.Unmatch` | backend/internal/adapters/postgres/repositories/matching_repository.go:233-253 | Ends the active match of a participant; succeeds exactly for participants, and repeating it changes nothing. |
| `Lockout.LocksDouble` | backend/internal/adapters/redis/rate_limiter.go:15-33 | Over every run the k-th remembered violation locks for the base doubled k-1 times, capped, and stored attempts stay below the threshold. |
| `Lockout.LocksAtThreshold` | backend/internal/adapters/redis/rate_limiter.go:15-33 | From any state without a live attempt, failures within one window lock nothing before the threshold, and the one that reaches it adds exactly one lockout. |
| `Lockout.FailureExactly` | backend/internal/adapters/redis/rate_limiter.go:15-33 | One failure field by field: counted in the window the first one opened, or, at the threshold, a lockout by the violations of the last day, remembered for a day from now. |
| `Lockout.ProgramLocks` | backend/internal/adapters/redis/rate_limiter.go:43-51 | With the program's settings the fifth failure in a quarter of an hour locks for 300, 600, 1200, 2400 and then 3600 seconds. |
| `Lockout.LocksNeverShrink` | backend/internal/adapters/redis/rate_limiter.go:20-27 | A lockout that follows another within the memory is never shorter. |
| `Lockout.EndNeverEarlier` | backend/internal/adapters/redis/rate_limiter.go:15-33 | Without a reset, whenever the longest lockout exceeds the shortest by at most the memory of violations, no run of failures moves the end of a lockout earlier. |
| `Lockout.LockedUntilAnnounced` | backend/internal/adapters/redis/rate_limiter.go:43-51 | So with the settings of the program, after any history. |
| `Lockout.RateLimiter.Allowed` | backend/internal/adapters/redis/rate_limiter.go:58-67 | Refuses exactly while the lockout has time left, with that time. |
| `Lockout.RateLimiter.RecordFailure` | backend/internal/adapters/redis/rate_limiter.go:71-80 | The script as statements, its doubling included, is one failure of the model; it returns the lockout applied, which is positive exactly when the live attempts and this one reach the threshold. |
| `Lockout.RateLimiter.Reset` | backend/internal/adapters/redis/rate_limiter.go:82-87 | Forgets attempts and lockout but not the violations. |
| `FrameLimiter.Limiter.Allow` | backend/internal/adapters/websocket/handler.go:197-204 | One frame moves the window state as the model does and is accepted as the model says. |
| `FrameLimiter.SharpBound` | backend/internal/adapters/websocket/handler.go:185-204 | For every non-decreasing sequence of arrivals a new limiter accepts at most twice the limit less one in any half-open interval as long as its window. |
| `FrameLimiter.BoundIsMet` | backend/internal/adapters/websocket/handler.go:197-204 | For every limit and every window of at least two ticks some sequence reaches that bound. |
| `FrameLimiter.AtMostTwoLimits` | backend/internal/adapters/websocket/handler.go:197-204 | From any state of the limiter at most twice the limit is accepted in such an interval. |
| `FrameLimiter.LimitPerWindow` | backend/internal/adapters/websocket/handler.go:197-204 | At most the limit is accepted for each window opened, plus what the current window has room for. |
| `Messaging.SameMessage` | backend/internal/adapters/postgres/repositories/messaging_repository.go:47-74 | Over all interleavings of sends, retries, lost replies and crashes, all successful sends with one sender and nonce return the same stored message, and at most one reports that it created it. |
| `Messaging.OneCreator` | backend/internal/adapters/postgres/sqlc/messages.sql.go:81-86 | Every stored message has one inserting call, and among the successful sends with its key exactly that call reports created. |
| `Messaging.ReplayReturnsCreators` | backend/internal/adapters/postgres/repositories/messaging_repository.go:66-74 | A replayed send carries its own match and content if and only if the creating call had the same input: the nonce alone decides which message comes back. |
| `Messaging.ReplayOfOther` | backend/internal/adapters/postgres/repositories/messaging_repository.go:66-74 | For any two valid inputs with one key, the second send is answered with the message of the first, whatever match and content it asked for. |
| `Messaging.PublishedOnceAndStored` | backend/internal/application/messaging/service.go:142-168 | In every run each published event shows a row that was stored before the step that published it, and no row is published twice. |
| `Messaging.ValidatedExactly` | backend/internal/application/messaging/service.go:99-108 | A send is valid with a nonce and one to two thousand characters; each fault has its answer, in that order. |
| `Messaging.InsertExactly` | backend/internal/adapters/postgres/repositories/messaging_repository.go:47-63 | What an insert stores and who goes on, by whether the key is free and how the call ends. |
| `Messaging.FetchExactly` | backend/internal/adapters/postgres/repositories/messaging_repository.go:66-74 | A conflict is answered with the stored row, as not created. |
| `Messaging.PublishExactly` | backend/internal/application/messaging/service.go:153-167 | An inserted message is published to the participants of its admission unless that is lost, and reported as created either way. |
| `MessagingService.Service.SendText` | backend/internal/application/messaging/service.go:96-124 | One undisturbed send, trimming, validation and authorization by the matches included, changes store and publications exactly as the run of its own events does and returns its recorded outcome; it is refused as empty exactly when the text is white space throughout. |
| `MessagingService.SoloAnswers` | backend/internal/application/messaging/service.go:96-168 | Each answer of an undisturbed send has its exact condition, with what it stores and publishes. |
| `MessagingService.AdmissionExactly` | backend/internal/application/messaging/service.go:126-140 | Admitted is exactly who is not limited and is one of the two users of an active, unblocked match of that id, with those two. |
| `MessagingService.Service.Authorize` | backend/internal/application/messaging/service.go:126-140 | Admits with the two users of the active match unless the send is limited, as the admission of the model does. |
| `MessagingService.Service.PersistAndPublish` | backend/internal/application/messaging/service.go:142-168 | Publishes after the insert, and only when the row was inserted; a lost publication does not fail the send. |
| `MessagingService.Service.Send` | backend/internal/adapters/postgres/repositories/messaging_repository.go:44-74 | Inserts, or fetches the row its nonce already has; created is reported only when no row was there. |
| `Text.TrimExact` | backend/internal/application/messaging/service.go:103 | Trimming takes only white space off the two ends and leaves a text that begins and ends with none. |
| `Text.TrimEmpty` | backend/internal/application/messaging/service.go:103-106 | Nothing is left exactly of a text that is white space throughout. |
| `Text.SpacesExactly` | backend/internal/application/messaging/service.go:103 | White space is exactly the twenty-five characters with that Unicode property. |
| `Conversations.AdmittedExactly` | backend/internal/adapters/postgres/sqlc/messages.sql.go:14-25 | In every reachable state of matches and messages a send that is not limited is admitted if and only if its sender takes part in an active match of that id. |
| `Conversations.LimitedRefused` | backend/internal/application/messaging/service.go:132-138 | A limited send is refused, whoever sends it, and stores nothing. |
| `Conversations.StoredByParticipant` | backend/internal/application/messaging/service.go:126-168 | In every run every stored message was sent by someone who, at some moment before, was one of the two users of its match while that was active and unblocked. |
| `Conversations.PublishedToParticipants` | backend/internal/application/messaging/service.go:153-163 | And every published event goes to exactly those two users. |
| `Conversations.TogetherUntilParted` | backend/internal/adapters/postgres/sqlc/matching.sql.go:843-871 | From a moment at which two users are in an active, unblocked match they still are in a later state if and only if no event between is a block of the two or an unmatch of that match by one of them. |
| `Conversations.StoredTogetherExactly` | backend/internal/application/messaging/service.go:114-151 | An admitted send stores its row whatever has happened since, and its two users are then together if and only if no such event fell between admission and insertion. |
| `Conversations.PublishedTogetherExactly` | backend/internal/application/messaging/service.go:153-166 | The same of the event: it is published to the two users of the admission, who are then together if and only if no such event fell between. |
| `Conversations.StoredAfterBlock` | backend/internal/application/messaging/service.go:114-123 | In every reachable state a valid send of a participant may be admitted, a block then part the two users, and its row be stored and published to both all the same. |
| `Conversations.ReadyToSend` | backend/internal/application/messaging/service.go:96-115 | Such a state is reached: two users who suit each other like each other and one begins to write, for any two users and any valid text. |
| `PhotoOrder.CheckOrder` | backend/internal/application/profile/service.go:225-245 | The validation with its two sets accepts exactly the permutations of the active photos. |
| `PhotoOrder.EveryUpdateKeepsUnique` | backend/internal/adapters/postgres/repositories/profile_repository.go:159-190 | After every single update of the two rounds that the range check admits, positions are pairwise distinct and are the ones the plan has reached. |
| `PhotoOrder.ReorderExact` | backend/internal/adapters/postgres/repositories/profile_repository.go:159-190 | The two rounds succeed if and only if the range check admits both the negative and the final places; they then put the i-th photo at position i and change nothing else. |
| `PhotoOrder.ReorderPlaces` | backend/internal/adapters/postgres/repositories/profile_repository.go:159-190 | From any table with distinct positions, whatever changed since the order was checked: an update that succeeds puts the listed photos of the user where the list says, keeps positions distinct and changes nothing else. |
| `PhotoOrder.SchemaRefusesReorder` | backend/migrations/000003_profiles.up.sql:61 | Under the position check of the schema, zero to five, the update succeeds only for the empty list. |
| `PhotoOrder.Repository.SetPhotoPosition` | backend/internal/adapters/postgres/sqlc/profiles.sql.go:205-207 | One update: fails exactly on a place out of range or taken by another active photo of the user. |
| `PhotoOrder.Repository.ReorderPhotos` | backend/internal/adapters/postgres/repositories/profile_repository.go:159-190 | The two loops in one transaction apply the plan or leave every row as it was. |
| `PhotoOrder.Reorder` | backend/internal/application/profile/service.go:225-245 | The whole request over a table that may have changed since the photos were listed: refused exactly when not a permutation of that list, otherwise applied as a whole or not at all; on an unchanged table applied exactly when the range admits it. |
| `RealtimeProtocol.StepExact` | frontend/src/features/messaging/lib/realtime-socket.ts:36-112 | While exactly one of ticket request, socket and timer is under way (none when not running), an event keeps it so if and only if it is not a start during a socket or timer, nor a late refusal of an overtaken ticket request. |
| `RealtimeProtocol.RunExact` | frontend/src/features/messaging/lib/realtime-socket.ts:36-112 | The same over whole runs with any number of starts and stops. |
| `RealtimeProtocol.SingleStart` | frontend/src/features/messaging/lib/realtime-socket.ts:36-112 | With a single start, exactly one of the three is under way after every event while running, and none otherwise. |
| `RealtimeProtocol.StoppedStaysQuiet` | frontend/src/features/messaging/lib/realtime-socket.ts:41-52 | From every stopped state of any run, restarts included: until the next start nothing is delivered, no socket is owned, no ticket awaited and no timer added, so what is under way only dwindles. |
| `RealtimeProtocol.StopExact` | frontend/src/features/messaging/lib/realtime-socket.ts:41-52 | In every reachable state a stop leaves nothing under way if and only if no timer is pending but the remembered one; nothing is delivered after it either way. |
| `RealtimeProtocol.StopAfterInv` | frontend/src/features/messaging/lib/realtime-socket.ts:41-52 | It leaves nothing when exactly one thing was under way before, as after a single start. |
| `RealtimeProtocol.RestartDoubles` | frontend/src/features/messaging/lib/realtime-socket.ts:69-74 | After start, stop, start, the late refusal of the first ticket leaves a request and a timer under way at once: that branch does not compare generations. |
| `RealtimeProtocol.StopForgetsTimer` | frontend/src/features/messaging/lib/realtime-socket.ts:44-47 | When the second ticket is refused too, the stop that follows leaves the first of two timers pending, and after a further start it is under way beside a ticket request. |
| `RealtimeProtocol.NoTicketTwice` | frontend/src/features/messaging/lib/realtime-socket.ts:63-80 | In every run no ticket is offered to two sockets. |
| `RealtimeProtocol.OldSocketSilent` | frontend/src/features/messaging/lib/realtime-socket.ts:88-97 | In every run a socket of an older generation delivers nothing more. |
| `RealtimeProtocol.DeliversFromOwned` | frontend/src/features/messaging/lib/realtime-socket.ts:88-92 | While all is well only the socket the client owns delivers, and only while running. |
| `RealtimeProtocol.SocketExactly` | frontend/src/features/messaging/lib/realtime-socket.ts:83-92 | A current socket that opens resets the attempts, one that receives hands a well-formed event on; an outdated one does neither. |
| `RealtimeProtocol.StartExactly` | frontend/src/features/messaging/lib/realtime-socket.ts:36-66 | A start on every field. |
| `RealtimeProtocol.StopExactly` | frontend/src/features/messaging/lib/realtime-socket.ts:41-52 | A stop on every field. |
| `RealtimeProtocol.IssuedExactly` | frontend/src/features/messaging/lib/realtime-socket.ts:75-81 | A ticket opens a socket under its own generation exactly when neither stopped nor overtaken. |
| `RealtimeProtocol.LossExactly` | frontend/src/features/messaging/lib/realtime-socket.ts:69-112 | A refusal always and a lost current socket schedule a reconnect, whose delay is computed from the attempts before it. |
| `RealtimeProtocol.FiredExactly` | frontend/src/features/messaging/lib/realtime-socket.ts:108-111 | A timer that fires is used up and begins the next connect unless stopped. |
| `RealtimeProtocol.CeilingDoubles` | frontend/src/features/messaging/lib/realtime-socket.ts:122-125 | The ceiling of the delay doubles with each attempt until the maximum, which it reaches at the sixth. |
| `RealtimeProtocol.DelayExactly` | frontend/src/features/messaging/lib/realtime-socket.ts:122-125 | The delays a random number can produce are exactly the whole milliseconds from half the ceiling to the ceiling. |
| `RealtimeSocket.Client.Start` | frontend/src/features/messaging/lib/realtime-socket.ts:36-39 | Makes the model's start step on every field, whatever was under way. |
| `RealtimeSocket.Client.Stop` | frontend/src/features/messaging/lib/realtime-socket.ts:41-52 | Clears timer and socket, outdates every callback and makes the model's stop step on every field. |
| `RealtimeSocket.Client.BeginConnect` | frontend/src/features/messaging/lib/realtime-socket.ts:63-66 | Asks for a ticket under a new generation unless stopped; the old requests stay under way. |
| `RealtimeSocket.Client.OnTicket` | frontend/src/features/messaging/lib/realtime-socket.ts:75-81 | Opens a socket with the ticket only if neither stopped nor overtaken; either way the request is used up. |
| `RealtimeSocket.Client.OnRefusal` | frontend/src/features/messaging/lib/realtime-socket.ts:69-74 | Schedules a reconnect unless stopped, overtaken or not. |
| `RealtimeSocket.Client.OnOpen` | frontend/src/features/messaging/lib/realtime-socket.ts:83-87 | A current socket resets the attempt count and reports open; an outdated one changes nothing. |
| `RealtimeSocket.Client.OnMessage` | frontend/src/features/messaging/lib/realtime-socket.ts:88-92 | Only a current socket hands a well-formed event on. |
| `RealtimeSocket.Client.OnClose` | frontend/src/features/messaging/lib/realtime-socket.ts:93-97 | A current socket is given up and a reconnect scheduled; an outdated one is only marked closed. |
| `RealtimeSocket.Client.OnTimer` | frontend/src/features/messaging/lib/realtime-socket.ts:108-111 | The timer is used up and the next connect begins unless stopped. |
| `RealtimeSocket.Client.ScheduleReconnect` | frontend/src/features/messaging/lib/realtime-socket.ts:103-112 | Counts the attempt and sets one new timer unless stopped. |

## Left out

- HTTP handlers, routing, middleware, configuration, logging, migrations and object storage: plumbing around the modelled calls.
- Argon2id, RSA, SHA-256, base64 and JSON: library code; a cursor is its payload and a token hash an id.
- PostGIS geometry and the score arithmetic, with `validWeights` and `RankingWeights.Total`: a symmetric distance predicate and an arbitrary ranking stand for them, which is all the results need.
- PostgreSQL isolation anomalies, clock skew between program and Redis, and Redis sub-second rounding: steps are atomic and there is one clock.
- `messageRateScript`: a fixed window like the frame limiter's; in `Messaging` it is part of admission.
- Hub and client queues of the websocket server: concurrent channel code without a sequential contract.
- Typing events, `sendTyping`, status callbacks and event parsing of the client socket: `Received` carries whether parsing succeeded. A socket constructor that throws is not part of the model.
- `CreatePhoto`, consents, reports, `TouchActivity` and the copying of rows into entities: they would only add easy members.
- Registration, login checks and password handling: `Auth.Login` is the session they end in.
- SwipeService.Service.Swipe: one request that nothing interrupts; interruptions and interleavings are the runs of SwipeStores and SwipeBudget.
- MessagingService.Service.SendText: one send that nothing interrupts, with the rate limit's answer as an input; interleavings are the runs of Conversations and Messaging.
- Auth.LogoutAllIsFinal: service calls are whole steps; AuthRace says what holds when their steps interleave.
- PhotoOrder.Reorder: the rows as they are listed after the update are not read again here.
- Lockout.EndNeverEarlier: Reset deletes the lockout, so it is excluded here and covered by LocksDouble and LocksNeverShrink.
- FrameLimiter.SharpBound: the first frame arrives at least one window after the zero instant; AtMostTwoLimits has no such condition.
- Paging.DiscoveryExactlyOnce: a candidate whose score at the pinned instant changes between pages may be missed or not, as in the source.
