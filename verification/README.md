# Service registry: verification model

A Dafny model of the service and user registry: services with a denormalised version count, a
materialized view `name_sorted_service` that a background goroutine refreshes lazily, paginated
listings that can be read from either end, users with temporary passwords, the strict payload check and
the seeding step of the migration.

## How the system is modelled

**The database** (`Schema.dfy`, `Rows.dfy`, `Users.dfy`) is a value: rows in insertion order, unique keys
on the service name, on (service, tag) and on the user's e-mail address, a foreign key from version to
service, auto-increment ids. A failed statement changes nothing and a transaction applies all its
statements or none. `Updates` with a struct leaves zero-valued fields alone; `Updates` with a map writes every
entry. How a write that hits no row is reported is a parameter, `ZeroRows`: `Silent` is what the ORM does,
`NotFound` is what the callers are written for
(`internal/components/service/operations.go:445-447`, and the mock at
`internal/components/service/operations_test.go:785`). Theorems about runs take it as an argument and hold for
both. The concrete runs fix `Silent` (`SwallowedFlagExample`, `UnscheduledRefreshesExample`,
`RacingDeletionsGoNegative`); `ExactUnderNotFound` and `StrictNeverMisses` are about `NotFound`.

**The process** (`Protocol.dfy`) is a state machine. A state holds the database, the flag
`toRefreshViews`, where the syncer is, and any number of requests, each at its next database call. Events
are single database calls, flag accesses, ticks, failures of any call, arrival of requests, crash and
restart. Every sequence of events is a run, since an event that cannot happen in a state leaves it alone.
Theorems about runs quantify over all of them.

**The code** (`ServiceOperations.dfy`, `UserOperations.dfy`, `Fetching.dfy`, `Handlers.dfy`, `Payload.dfy`,
`Seeding.dfy`) keeps the program's own form: classes with the program's fields, methods with its branches
and early returns, the retry loop, the select loop, the two-pointer swap. What a database call runs into is an
argument: of an operation, the faults of its calls; of the syncer, which refreshes of a tick fail. So a body
cannot plead a failure the database did not report. Each operation is proved to be a run of the state machine
with other requests acting before every call, in which its own steps are those of its script with those faults
(`Requests.dfy`, `UserRequests.dfy`), and the syncer's steps are those its ticks call for (`Ticks.dfy`). From
that follow the theorems about runs and, for a request nobody gets in between, its sequential meaning
(`LoneAnswer`).
`Effects.dfy` and the `...Effect` lemmas of `Users.dfy` say row by row, without the statements' own
definitions, what each write does and exactly when it answers what; `Answers.dfy` and `UserAnswers.dfy`
carry that over to whole runs, where other requests act between a check and a write.

Integers of the paging arithmetic are 64-bit and wrap. `LIKE` is an arbitrary predicate on names. Names are
ordered character by character; proofs use that the order is total, antisymmetric and transitive, and what it is
in words (`LeqMeans`). What other requests do is arbitrary: the body of `Interfere` (and `InterfereClients`) is
empty on purpose, and its callers know only its contract, which allows any steps of other requests.

## What the code does not do

- *Stale implies flagged* is false. The syncer refreshes and then clears the flag under a separate lock; a
  commit that lands in between loses its flag. `SwallowedFlagExample` is such a run, `StalenessAccounted` the
  invariant that holds, and `OnlyTheWindowIsLost` says that this window is the only way, and exactly when.
  The code's comment presents the scheduled refresh as a remedy for crashes
  (`internal/components/service/operations.go:82-83`); it is what repairs the window too.
- The comment above the syncer promises at most one refresh per scheduled tick
  (`internal/components/service/operations.go:56-57`). `UnscheduledRefreshesExample` is a run with one write, no
  scheduled tick and two flag-driven refreshes. Scheduled ticks play no part: `RefreshesCoalesce` counts exactly
  one flag-driven refresh for each check tick that finds the flag set, and by `RefreshesPerStretch` a stretch
  that starts and ends outside a round, without scheduled ticks or with them, is free of flag-driven refreshes if
  and only if no check in it found the flag set.
- With the ORM's silent zero-row delete, two deletions of one version that both pass the check drive
  `version_count` below zero: `RacingDeletionsGoNegative`. `CountExactIffNotOvertaken` gives the exact
  condition, that no deletion was overtaken by another request's between its check and its write, and
  `ExactUnderNotFound` shows that the reporting the callers expect would rule it out.
- When page times size leaves 64 bits, a fetch can return rows of another page: `ForwardWrapExample`,
  `InvertedWrapExample`. `PageExact` is the exact condition, proved for all pages and sizes in
  `PageQueryExact`.
- Seeding succeeds without faults exactly when no default role still to be created shares its description
  with another role, since both role columns are unique; failed attempts in between change nothing about
  that (`SeedingSucceedsWithoutFault`). `ClashExample` is a table on which it cannot finish. The shipped roles have
  three different descriptions and the migration is the only writer of the table
  (`cmd/migration/migrate.go:19-25`, `cmd/migration/migrate.go:88`), so such a table takes a row from another
  release or put in by hand: `ShippedRolesNeverClash`.

## Model

| member | source | states |
|---|---|---|
| Freshness.StalenessAccounted | internal/components/service/operations.go:78-113 | In every interleaving of requests, syncer, failed refreshes, crashes and restarts, a service commit missing from the view has no process up, or a start-up refresh due (if it is from before the restart), or its own request still to set the flag, or the flag set, or fell between a refresh and its clear |
| Freshness.OnlyTheWindowIsLost | internal/components/service/operations.go:98-111 | With a started process, flag down and no request due to set it for the commit, the view lacks the commit if and only if the commit fell into the window of the round that refreshed last |
| Freshness.SwallowedFlagExample | internal/components/service/operations.go:104-107 | A concrete run that ends with all requests answered, the flag down, the syncer idle and the view stale |
| Freshness.RestartCovered | internal/components/service/operations.go:78-80 | Once the start-up refresh has succeeded the view reflects everything committed before the start |
| Freshness.ViewIsPastImage | internal/components/service/operations.go:60-65 | The view is the sorted image of the service table at one past position of the run, never a mixture |
| Freshness.ViewPointNeverDecreases | internal/components/service/operations.go:60-80 | That position never moves back, across failures, crashes and restarts |
| Freshness.FreshUntilNextCommit | internal/components/service/operations.go:94-110 | With no commit since the last successful refresh the view equals the sorted table |
| Freshness.RefreshMakesFresh | internal/components/service/operations.go:94-104 | Any successful refresh, start-up, scheduled or flag-driven, makes the view equal the sorted table |
| Freshness.RoundConverges | internal/components/service/operations.go:98-110 | A flag-driven refresh and its clear leave the flag down and the syncer idle, and the view fresh when no commit fell in between |
| Freshness.AlwaysRepairable | internal/components/service/operations.go:78-97 | From every reachable state at most three steps of the syncer or a restart, and none of a client, bring the view up to date |
| Coalescing.RefreshesCoalesce | internal/components/service/operations.go:98-111 | In every run: one flag-driven refresh for each check tick that found the flag set, save a crash first or a refresh still to come; one cleared or lost flag for each time it went up, save the one up now. Hence at most as many refreshes as check ticks, and rounds as flag sets |
| Coalescing.RefreshesPerStretch | internal/components/service/operations.go:56-111 | A stretch that starts and ends outside a round, and loses none to a crash, has as many flag-driven refreshes as checks that found the flag set, and none if and only if there was no such check |
| Coalescing.UnscheduledRefreshesExample | internal/components/service/operations.go:98-111 | A concrete run with one write, no scheduled tick and two flag-driven refreshes |
| Protocol.StepFrame | internal/components/service/operations.go:406-429 | Only the five operations that ask for a refresh change the service table, only successful refreshes the view; a commit leads to setting the flag |
| Requests.VersionUpdatesSetNoFlag | internal/components/service/operations.go:406-429 | In no run is an UpdateServiceVersion request ever about to set the flag |
| VersionCount.Conservation | internal/components/service/operations.go:377-390 | In every interleaving a service's version count equals its number of version rows less the committed deletions that removed no row |
| VersionCount.CountExactIffNoMiss | internal/components/service/operations.go:441-457 | The count is exact if and only if no deletion for that service has missed |
| Overtaking.MissIffOvertaken | internal/components/service/operations.go:433-457 | A committed deletion removes no row if and only if, between its check and its write, another request committed the deletion of that version or its service and the version did not come back |
| Overtaking.CountExactIffNotOvertaken | internal/components/service/operations.go:433-457 | A service's count is exact if and only if no deletion of one of its versions was overtaken like that |
| VersionCount.ExactUnderNotFound | internal/components/service/operations.go:445-447 | If a zero-row delete is reported as not found, the count is always the number of versions and never negative |
| VersionCount.RacingDeletionsGoNegative | internal/components/service/operations.go:433-457 | A concrete run in which two deletions of one version leave the count at -1 |
| VersionCount.UpdateServiceCounts | internal/components/service/operations.go:220-222 | An update of a service keeps every count, because the zero count in the struct is skipped |
| VersionCount.DeleteVersionCounts | internal/components/service/operations.go:441-457 | A deletion keeps the relation between count and rows, or is a miss and moves it by one |
| VersionCount.CreateVersionCounts | internal/components/service/operations.go:377-390 | A creation keeps the relation between count and rows |
| Integrity.IntegrityAlways | internal/models/service.go:24-48 | In every run ids, names and (service, tag) pairs are unique, every version refers to a service that exists, and no row of the tables or the view is soft-deleted |
| Integrity.DuplicateCounts | internal/components/service/operations.go:167-175 | In every run the duplicate counts are 0 or 1, and 1 if and only if such a row exists |
| Integrity.DeleteServiceAllOrNothing | internal/components/service/operations.go:250-263 | The transaction removes the service with all its versions and nothing else, or changes nothing, and succeeds exactly when stated |
| Integrity.DeleteServiceKeepsOrder | internal/components/service/operations.go:250-263 | The services and versions left after a deletion are the others, each once and in table order |
| Racing.RacingCreators | internal/components/service/operations.go:165-190 | Any number of interleaved creators of one free service name, or of one free tag of a service, among any other requests, failing or not, that do not take or remove the key: finishers are told success or already-exists, nobody wins twice, and once one has finished there is exactly one winner and one row |
| Racing.OthersKeepHolders | internal/components/service/operations.go:220-263 | A write that neither creates nor disturbs the key, whatever its fault, leaves it with as many rows as before |
| Racing.CreatorSteps | internal/components/service/operations.go:366-384 | What a creator finds at its check and at its write, by whether the key is taken; afterwards there is exactly one row |
| Replies.SuccessIffCommitted | internal/components/service/operations.go:265-270 | In every run a request for one of the five operations has succeeded, or is about to say so, if and only if it has committed |
| Replies.CommitsOnce | internal/components/service/operations.go:391-398 | No request commits twice |
| Answers.AnswersAreRight | internal/components/service/operations.go:165-465 | In every interleaving with any faults, the answer a request has been given was the right one on the database as it stood at one of that request's own calls: success was possible then, a refusal justified |
| Answers.ChecksAreExact | internal/components/service/operations.go:117-142 | Each existence check lets the request on, or refuses it with its particular error, exactly by whether such a row exists |
| Answers.WriteAnswersRight | internal/components/service/operations.go:178-184 | The answer of each writing call is right for the database it finds, so that without a fault an internal error can only come from a service gone between check and transaction |
| Answers.FailedCheckEnds | internal/components/service/operations.go:168-172 | A check answers with an internal error exactly if its query fails, and then leads to no write |
| Requests.FaultFreeAnswer | internal/components/service/operations.go:165-465 | A request whose calls run into no fault never gets a driver's error, gets an internal one only if its service was gone at one of its calls, and was answered rightly for one of its calls |
| Requests.LoneAnswer | internal/components/service/operations.go:165-465 | A request without faults that nobody's write gets in between answers as a sequential reading says, by the tables it found (a creation succeeds if and only if the name was free, and so on), however zero-row writes are reported; it leaves its one write's effect or, refused, nothing |
| Effects.CreateServiceEffect | internal/components/service/operations.go:177-184 | A service is appended under an unused id with count 0, or nothing changes; when each answer is given |
| Effects.UpdateServiceEffect | internal/components/service/operations.go:220-231 | Only the row of that id changes, empty fields are skipped, the count stays; when each answer is given |
| Effects.ReturnedIsStored | internal/components/service/operations.go:220-236 | The struct an update returns is the row it stored if and only if there was a row, its count was 0, and no skipped field held anything |
| Effects.CreateVersionEffect | internal/components/service/operations.go:377-390 | Row added and count up by one, both or neither; when each answer is given |
| Effects.DeleteVersionEffect | internal/components/service/operations.go:441-457 | Row removed and count down by one, both or neither, but under silent reporting the count goes down without a row too; when each answer is given |
| Effects.DeleteVersionKeepsOrder | internal/components/service/operations.go:441-457 | The versions left after a deletion are the others, each once and in table order |
| Effects.UpdateVersionEffect | internal/components/service/operations.go:417-426 | Only the info of that version changes, unless empty, and no service row; when each answer is given |
| Effects.ThreeFailuresEndTheProcess | internal/components/service/operations.go:67-80 | Two failed attempts of a start-up or scheduled refresh are retried, the third ends the process, and the database is as it was |
| ServiceOperations.Operations.constructor | internal/components/service/operations.go:28-36 | A started process over the database an earlier run left: flag down, start-up refresh due |
| ServiceOperations.Operations.CreateService | internal/components/service/operations.go:165-190 | For any faults: a run of the machine, others acting before each call, in which this request takes the steps of its script with these faults and ends answered as returned; a service is returned exactly on success, and it is the row this request's commit appended, id included |
| ServiceOperations.Operations.UpdateService | internal/components/service/operations.go:197-237 | Likewise, with both checks before the write; the struct returned, exactly on success, holds what was asked for and a zero count |
| ServiceOperations.Operations.DeleteService | internal/components/service/operations.go:240-271 | Likewise; the flag is set only after a committed transaction |
| ServiceOperations.Operations.DeleteServiceInTransaction | internal/components/service/operations.go:250-263 | Committed: exactly the other services and their versions are left, in order; otherwise nothing has changed. The outcome is the step of the machine, for every fault |
| ServiceOperations.Operations.CreateServiceVersion | internal/components/service/operations.go:362-399 | Likewise; the version returned is the one asked for, exactly on success |
| ServiceOperations.Operations.CreateVersionInTransaction | internal/components/service/operations.go:377-390 | Committed: the version is appended and its service counted up by one, and no other row changed; otherwise nothing has changed. The outcome is the step of the machine, for every fault |
| ServiceOperations.Operations.UpdateServiceVersion | internal/components/service/operations.go:406-429 | Likewise, by a script without a flag step; the struct returned, exactly on success, holds what was asked for |
| ServiceOperations.Operations.DeleteServiceVersion | internal/components/service/operations.go:432-465 | Likewise |
| ServiceOperations.Operations.DeleteVersionInTransaction | internal/components/service/operations.go:441-457 | Committed: exactly the other versions are left, in order, the service is counted down by one, and no other service changed; otherwise nothing has changed. The outcome is the step of the machine, for every fault |
| ServiceOperations.Operations.Answered | internal/components/service/operations.go:391-398 | An answered request of the class has succeeded if and only if the run holds its commit |
| ServiceOperations.Operations.RefreshViews | internal/components/service/operations.go:60-65 | One refresh, which succeeds unless the call fails: the view is then the sorted table as it is now; on failure nothing changes but the attempt count |
| ServiceOperations.Operations.RefreshViewsWithAttempts | internal/components/service/operations.go:67-76 | Refreshes up to the first that succeeds, three at most, and nothing else, clients acting in between; ends fresh and idle exactly if one of them succeeds, otherwise with the process |
| ServiceOperations.Operations.OnScheduledSync | internal/components/service/operations.go:94-97 | The scheduled branch takes those refreshes and ends with the view just refreshed, or with the process exactly if all three fail |
| ServiceOperations.Operations.OnRefreshRequestCheck | internal/components/service/operations.go:98-111 | One refresh exactly if the flag was found set, one clear exactly if that refresh does not fail; otherwise the flag stays |
| ServiceOperations.Operations.OnTick | internal/components/service/operations.go:90-112 | One turn of the loop takes exactly the steps its tick and failures call for; after a scheduled tick the view has just been refreshed, unless all three attempts failed |
| ServiceOperations.Operations.SyncDataWithSortedViews | internal/components/service/operations.go:58-114 | Over any finite sequence of ticks and any failures: between clients' steps it takes exactly the steps these call for, up to the first done context or exhausted sync; it ends with the process exactly then, stops exactly if the context is done, has refreshed after its start and after every scheduled tick, and leaves every lag of the view accounted for |
| SortedView.SortByNameSorts | cmd/migration/migrate.go:44-48 | The view's definition yields a permutation of the table in name order |
| SortedView.SortedMeans | cmd/migration/migrate.go:44-48 | Name order, in words: no row comes before one whose name precedes it |
| Names.LeqMeans | cmd/migration/migrate.go:44-48 | One name is ordered before another if it begins it or has the smaller character at the first difference |
| SortedView.SortedUnique | cmd/migration/migrate.go:44-48 | With unique names there is one such order only |
| SortedView.FilterSortCommute | internal/components/service/operations.go:289-315 | Searching the sorted rows is sorting the search result |
| Listings.ViewAgreesWithQuery | internal/components/service/operations.go:289-318 | In every run a name-sorted search equals the search of the table as of the last refresh, then sorted, smaller names first, and no other name-ordered listing of those rows exists |
| Listings.NameSortedPage | internal/components/service/operations.go:289-323 | In every run, what a name-sorted fetch delivers is the page asked for of the search of the table as of the last refresh, sorted by name: exactly for the numbers of PageExact if no refresh came between its queries, and forward pages in range even if one did |
| Listings.CountedIsSelected | internal/components/service/operations.go:293-314 | In every run the unscoped count and the scoped select range over the same rows |
| Listings.SearchMeans | internal/components/service/operations.go:289-315 | In every run the rows counted and selected are exactly those of the table, or of the view, whose name matches, each once and in table order |
| Listings.VersionsOfMeans | internal/components/service/operations.go:474-491 | In every run the versions counted and listed for a service are exactly the rows with its id, each once and in table order |
| Listings.InvertedServicesStable | internal/components/service/operations.go:293-322 | Services created between count and select do not disturb the inverted page: it is the page of the list as counted |
| Listings.InvertedVersionsStable | internal/components/service/operations.go:474-497 | Likewise for the versions of a service |
| Paging.ReverseSlice | internal/components/service/operations.go:39-50 | The two-pointer swap leaves the array reversed |
| Paging.ReversedTwice | internal/components/service/operations.go:39-50 | Reversing twice gives the rows back, and no row is lost or doubled |
| Paging.PageRows | internal/components/service/operations.go:310-318 | Which rows a page holds, position by position |
| Paging.WindowRows | internal/components/service/operations.go:314-318 | Which rows LIMIT and OFFSET select, position by position, a negative limit meaning none |
| Paging.PagesPartition | internal/components/service/operations.go:310-318 | Pages 1 to ceil(n/size) laid end to end are the list, none of them empty, and every later page is |
| Paging.InvertedPagesPartition | internal/components/service/operations.go:298-322 | The same of the reversed list |
| Paging.InvertedLastPageIndex | internal/components/service/operations.go:300-302 | The guard on the negative offset holds exactly for the page after the last full one |
| Paging.InvertedPositiveSize | internal/components/service/operations.go:299-301 | The modulus is never taken by zero |
| Fetching.PageQueryExact | internal/components/service/operations.go:298-318 | For every page and size the handlers accept, the rows returned are the page asked for if and only if PageExact holds of the numbers |
| Fetching.InvertedQueryCorrect | internal/components/service/operations.go:479-497 | With the product in range the window lies within the counted rows and its reverse is the page of the reversed list, whatever was appended since |
| Fetching.ForwardQueryCorrect | internal/components/service/operations.go:310-318 | With the offset in range it is not negative and the window is the page |
| Fetching.AllPagesShown | internal/components/service/operations.go:298-323 | Going through all pages of an unchanging table shows every row once: the list itself or its reverse |
| Fetching.ForwardWrapExample | internal/components/service/operations.go:311 | A page far past the end for which the forward fetch returns page 1 |
| Fetching.InvertedWrapExample | internal/components/service/operations.go:299 | A page that does not exist for which the inverted fetch returns the whole table |
| Fetching.PlaceInverted | internal/components/service/operations.go:299-309 | In range: a window is found if and only if the earlier pages leave room, and it spans what they leave, up to one page; wrapped: the window of the 64-bit specification. The same code stands at 479-488 |
| Fetching.FetchServices | internal/components/service/operations.go:276-324 | Errors exactly when a query fails; total is the count; rows match the search and are the page asked for under Delivers, with count and select seeing different states |
| Fetching.FetchServiceVersionsInverted | internal/components/service/operations.go:468-499 | The same of the versions of a service, and of no other |
| Handlers.NormalisePaging | internal/components/service/handlers.go:155-173 | Refuses exactly non-numbers and negatives; page 0 is page 1; what passes is acceptable to the fetches |
| Handlers.FetchServicesRequest | internal/components/service/handlers.go:154-215 | Refused exactly for malformed parameters, an error exactly if a query sent fails, otherwise total and page as Delivers has them, whatever is committed between the two queries |
| Payload.EnsureFieldsStrictlyExists | internal/utils/utils.go:56-70 | For any maps and any iteration order, true if and only if the key sets are equal and every value has the declared type |
| Payload.TypesAreConstructors | internal/utils/utils.go:61-66 | Two values have the same dynamic type exactly if they are the same kind of JSON value |
| Payload.SameSizeSubset | internal/utils/utils.go:57-68 | Equal size and inclusion give equality, which is why one direction is checked only |
| Handlers.ReadServicePayload | internal/components/service/handlers.go:46-61 | Passes exactly the payloads with string name and description and a name that is not empty, and hands on those strings; the same checks stand at 94-109 |
| Handlers.ReadNewVersionPayload | internal/components/service/handlers.go:278-306 | The same for tag and info |
| Handlers.ReadVersionInfoPayload | internal/components/service/handlers.go:346-364 | The same for info alone, which may be empty |
| Users.UsersConsistent | internal/models/users.go:13-20 | In every run user ids and addresses are unique and no row is soft-deleted |
| Users.TemporaryPasswordLifecycle | internal/components/user/operations.go:170-189 | In every interleaving the flag is set exactly as long as no ChangePassword write has reached the row, and the hash is the one from creation or the latest such write |
| Users.FlagNeverReturns | internal/components/user/operations.go:179-180 | A cleared flag stays cleared, across renames and restarts |
| Users.CreateUserEffect | internal/components/user/operations.go:62-81 | A user is appended under an unused id with the given hash and a temporary password, or nothing changes; when each answer is given |
| Users.UpdateUserReply | internal/components/user/operations.go:107-116 | When an update is refused, and with what answer |
| Users.UpdateUserEffect | internal/components/user/operations.go:107-108 | Only the row of that id changes, empty fields are skipped, hash and flag stay |
| Users.DeleteUserEffect | internal/components/user/operations.go:122-139 | Exactly the row of that id goes, the others stay in order; when each answer is given |
| Users.ChangePasswordEffect | internal/components/user/operations.go:170-189 | Hash and flag of the one user with that address change, and nothing else; when each answer is given |
| UserOperations.Operations.CreateUser | internal/components/user/operations.go:62-81 | For any failures: a run of the user machine in which this request takes the steps of its script with these failures and ends answered as returned |
| UserOperations.Operations.UpdateUser | internal/components/user/operations.go:88-119 | Likewise, with both checks before the write; the struct returned, exactly on success, holds what was asked for and neither hash nor flag |
| UserOperations.Operations.DeleteUser | internal/components/user/operations.go:122-139 | Likewise |
| UserOperations.Operations.ChangePassword | internal/components/user/operations.go:170-189 | Likewise |
| UserOperations.FetchUsersWithPagination | internal/components/user/operations.go:142-156 | Errors exactly when a query fails; total is the count; the rows are the page asked for under Delivers |
| UserRacing.RacingUserCreators | internal/components/user/operations.go:65-79 | Any number of interleaved creators of one free address, among any other requests that do not give or take it: finishers are told success or already-exists, and once one has finished exactly one has succeeded and there is one such user |
| UserAnswers.AnswersAreRight | internal/components/user/operations.go:62-189 | In every interleaving with any faults, the answer a request has been given was the right one on the table as it stood at one of that request's own calls |
| UserAnswers.ChecksAreExact | internal/components/user/operations.go:65-75 | Each check lets the request on or refuses it exactly by whether such a user exists |
| UserAnswers.FailedCheckEnds | internal/components/user/operations.go:66-68 | A check answers with an internal error exactly if its query fails, and then leads to no write |
| UserRequests.FaultFreeAnswer | internal/components/user/operations.go:62-189 | A request none of whose calls fails gets an internal error only for a deletion whose user was gone by then, and was answered rightly for one of its calls |
| UserRequests.LoneAnswer | internal/components/user/operations.go:62-189 | A request without failures that nobody's write gets in between answers as a sequential reading says, by the table it found, and leaves its one write's effect or, refused, nothing |
| Seeding.Migration.InitDBEntities | cmd/migration/migrate.go:59-95 | Whichever call fails and in whatever order the roles come: the admin is added, at the end, with the given hash and a temporary password, exactly if missing and none of the first three calls fails; only missing default roles are added; rows there before stay; success means complete, and is had if and only if no descriptions clash and none of the calls needed fails; a complete database is left alone |
| Seeding.Migration.ConfigureRoles | cmd/migration/migrate.go:80-93 | The loop over the role map adds missing default roles only, stops at the first error, and succeeds if and only if no descriptions clash and none of the calls needed fails |
| Seeding.SeedingResumes | cmd/migration/migrate.go:59-95 | After any number of failed attempts the first success leaves the admin address and each default role exactly once, a missing admin with the hash of the attempt that added it, and no further attempt changes anything |
| Seeding.CompleteMeans | cmd/migration/migrate.go:65-93 | Being complete, in words: a user has the admin address and every default role has a row of its name |
| Seeding.SeedingSucceedsWithoutFault | cmd/migration/migrate.go:59-95 | After any attempts, failed or not, one without a failing call succeeds if and only if no descriptions clashed at the outset |
| Seeding.ShippedRolesNeverClash | cmd/migration/migrate.go:19-25 | With the shipped roles nothing clashes while the table holds shipped roles only |
| Seeding.ClashExample | cmd/migration/migrate.go:80-91 | A table with a row of another name and the basic role's description, on which the basic role cannot be inserted |

## Left out

- Gin routing, JSON decoding, status codes, messages, logging and the page-detail copiers: plumbing. The model of a handler ends with the arguments it hands on.
- Existence checks of the service in the version handlers, and the plain reads GetService, GetServiceVersion, GetUser: one query each, which would only add easy members.
- JWT, bcrypt, password generation and the comparison with the old password: hashes are opaque values.
- Authentication and role middleware, environment and configuration: finite lookups.
- Integer width outside the paging arithmetic: ids and version counts do not wrap.
- Timestamps: the database fills created_at and updated_at; no modelled code reads them.
- PostgreSQL itself: heap order, locks, isolation, LIKE wildcards, id sequences (a failed insert takes no id here), a commit whose outcome the client does not learn. A panic of a transaction body does not occur in the model.
- Wall-clock time: tickers are events, and the sleeps between attempts leave room for other requests and nothing else.
- Several server processes over one database: one process with crash and restart.
- ServiceOperations.Operations.SyncDataWithSortedViews: the select loop is stated over a finite sequence of ticks; the source's loop runs until its context is done, and every stage of it is covered by such a sequence. The theorems on runs have no such bound.
- Paging.ReverseSlice: one generic method stands for the two slice reversers, whose bodies are the same.
- Fetching.PlaceInverted: one method stands for the window arithmetic that the source writes out twice; beyond 64 bits its contract refers to the specification, whose meaning is given by PageQueryExact.
- Fetching.FetchServices: takes the database as each of its two queries finds it instead of reading a field; the rows are reversed in a slice copied from the result.
- Racing.RacingCreators: assumes, as its preconditions say, that the database calls of the racers do not fail; a failing racer is answered with an internal error. UserRacing.RacingUserCreators assumes the same.
