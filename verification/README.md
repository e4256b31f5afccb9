# GitCastle, verified

A model in Dafny 4.11 of the algorithms and protocols in GitCastle's Go code, with proofs of what they
promise.

- **Rate limiter** (`TokenBucket.dfy`, `Limiter.dfy`, `SweepTransparency.dfy`). One token bucket is described
  exactly - its tokens are the least leftover of all windows - and shown to be the most permissive policy that
  keeps the window bound. The map of buckets with its lazy reaper is compared with one never-reaped bucket per
  key: no run can tell them apart exactly when an idle hour refills a bucket, or no bucket ever admits a call.
- **Pull-request merges** (`Collab.dfy`, `MergeProtocol.dfy`, `MergeGaps.dfy`, `MergeRoute.dfy`). The tables
  and their store methods; merge requests as multi-step clients that interleave with each other, with reviews
  and with protection edits; exactly when the protocol keeps less than one might expect; and the route's own
  code, with others let in between any two of its calls.
- **Numbering** (`Numbering.dfy`). Issue and pull-request numbers when reading the maximum and inserting are
  separate steps.
- **Migrations** (`Migrations.dfy`). Any number of servers migrating at once and crashing anywhere, and the
  runner's own code among them.
- **Text formats** (`Text.dfy`, `Commits.dfy`, `Listings.dfy`, `Cgi.dfy`, `CgiRoundTrip.dfy`,
  `ShellQuote.dfy`). The parsers of git's output and of a CGI response, and the shell quoting of the hook
  installer, each against a printer or, for the shell, a lexer. `Text.dfy` holds the functions of Go's
  `strings` package they call.
- **Object store** (`StoragePath.dfy`, `AtomicStore.dfy`, `NewestFirst.dfy`, `LocalStore.dfy`, `ListRuns.dfy`).
  Key normalisation, write-then-rename under crashes, the in-place sort of the listing, and listing while
  others store and delete.
- **Webhooks** (`Webhooks.dfy`). Retries, back-off and delivery records.

`Wrappers.dfy` holds the optional values and results that all of them use.

The classes and methods are the code; each is proved equal to a function of its inputs or of its old state,
and the lemmas are about those functions. Runs are sequences of steps: a lemma about all step sequences is a
lemma about every interleaving. `hide` statements only keep definitions out of a proof that does not need them.

## Where the code differs from its documentation, or promises less than one might read into it

- `EvaluateMerge` treats any failure of the rule lookup as "no rule" (`internal/collab/protection.go:79-80`).
  `Collab.VerdictIsWrongIff` gives the exact case in which the verdict then misses the rule, and
  `MergeGaps.FailedLookupOpensTheGate` a run that merges a protected pull request without an approval.
- The merge check and the guarded update are separate calls, so the gate can be shut again when the update
  lands (`MergeGaps.GateCanShutBeforeTheUpdate`). It is met there exactly when every step since the check that
  shut it - a needed approval withdrawn, a rule raised above the approvals - was made up for by a later one
  (`MergeGaps.GateMovesIff`, `MergeGaps.MergedWithGateMetIff`). What always holds is
  `MergeProtocol.EveryMergeWasGated`.
- Git runs before the guarded update, so a push can be lost: to another merge (`MergeGaps.BothRequestsCanPush`)
  or because the request fails in between, with the pull request left open (`MergeGaps.PushLostToBreak`). A push
  becomes the stored merge exactly when the request's update comes before anything breaks the request off and
  before anything else settles the pull request (`MergeGaps.PushIsRecordedIff`).
- An update that commits but whose reply is lost, or a server that goes down right after it, leaves a merged
  pull request without an event for good (`MergeGaps.MergedWithoutEvent`, `MergeGaps.MergedThenDown`). A merge
  has its event exactly when the update's reply was not lost and its request came to notify before anything
  broke it off (`MergeGaps.EventOfMergeIff`).
- `ListRefs` says it returns the default branch first (`internal/gitdata/gitdata.go:38`). It keeps git's order,
  sorted by full name: with branches `a` and `main` and HEAD at `main`, `a` comes first
  (`Listings.DefaultIsNotFirst`). The HEAD branch is first exactly when no other branch sorts before it
  (`Listings.DefaultFirstIff`).
- A branch whose short name starts with `refs/tags/` loses that prefix (`internal/gitdata/gitdata.go:62`);
  `Listings.RefRoundTripIff` shows it is the only exception.
- The comment in `path` says a cleaned key that still holds `..` attempted to escape
  (`internal/storage/storage.go:47-48`). It is the other way round: climbing above the root is collapsed, so
  `../x` is accepted as `x` (`StoragePath.ClimbingIsCollapsed`, `StoragePath.EscapeIsAccepted`), and what is
  refused, apart from NUL, is exactly a clean path with a harmless name such as `a..b` in it
  (`StoragePath.RefusedIff`, `StoragePath.PlainNameIsRefused`).
- Storing a key that is another key's name plus `.tmp` breaks atomicity; `AtomicStore.RefinesIff` shows that
  keeping such names apart is exactly what is needed. A crash or an error can also leave a temporary file
  behind, exactly when a Put has opened it and none has committed since (`AtomicStore.TemporaryIff`), and
  `List` reports the committed keys and those files (`ListRuns.QuietListing`).
- `List` takes a file that vanishes between being met and being looked at for an empty store: a Put that commits
  during the walk can empty the listing, without an error, although keys are stored (`ListRuns.ListingIsEmptied`).
  `ListRuns.ListingIsCompleteIff` says exactly when the listing is empty and when it is complete. A directory
  that vanishes cuts the listing short (`LocalStore.Store.Walk`).
- A key without a name of its own, such as "" or "..", stands for the root, and a Put of it writes its temporary
  file beside the root; every other Put stays below it (`LocalStore.Store.StaysBelowRoot`).
- `parseCGIResponse` answers 200 for a Status code that does not fit an int, and drops header lines it cannot
  read; `CgiRoundTrip.ResponseRoundTripIff` says exactly which responses come back.
- `deliverWithRetries` also waits after its last failed attempt, so the back-off requested after k failures is
  250 * k * (k + 1) ms, not one wait less.

## Model

| member | source | states |
|---|---|---|
| TokenBucket.TokensAreMinimumOverWindows | internal/middleware/ratelimit.go:18-27 | before the admission test the tokens are the minimum, over all calls so far, of capacity plus refill since that call minus admissions from it on; clock readings in any order |
| TokenBucket.RefusedIffSomeWindowIsFull | internal/middleware/ratelimit.go:22-26 | a call is refused exactly when admitting it would break the budget of some window ending at it |
| TokenBucket.WindowBound | internal/middleware/ratelimit.go:18-27 | no window ending in an admission holds more admissions than capacity plus refill over the window, whatever the order of the readings |
| TokenBucket.KeepsBoundIffLevel | internal/middleware/ratelimit.go:18-27 | any decision sequence keeps the window bound exactly when it admits only at a bucket level of one or more |
| TokenBucket.MostPermissive | internal/middleware/ratelimit.go:18-27 | no policy that keeps the window bound on the same readings has ever admitted more calls, at any point of a run |
| Limiter.RateBucket.Allow | internal/middleware/ratelimit.go:18-27 | the method's decision and new fields are those of the bucket function |
| Limiter.RateLimiter.SweepLocked | internal/middleware/ratelimit.go:75-82 | the loop over the map, in any order, drops exactly the buckets idle for more than 3600 seconds |
| Limiter.RateLimiter.BucketFor | internal/middleware/ratelimit.go:63-70 | a known key keeps its bucket; a new key gets a full one, after a sweep if 10000 buckets are present |
| Limiter.RateLimiter.Allow | internal/middleware/ratelimit.go:58-72 | the decision and the new contents of all buckets, other keys' included, are those of the map function |
| Limiter.RateLimiter.constructor | internal/middleware/ratelimit.go:48-55 | a new limiter has no buckets and the given limits |
| SweepTransparency.StaleIsFull | internal/middleware/ratelimit.go:75-80 | when an hour refills a bucket, one idle for longer decides as a new one would |
| SweepTransparency.Simulation | internal/middleware/ratelimit.go:58-82 | after any run with non-decreasing readings each key's bucket is its never-reaped bucket, or was reaped while that one is stale |
| SweepTransparency.TransparentIff | internal/middleware/ratelimit.go:58-82 | for all real limits: over every run with non-decreasing readings and any mix of keys, all decisions equal those of never-reaped buckets, if and only if capacity is below one or an hour's refill reaches the capacity |
| SweepTransparency.TelltaleTells | internal/middleware/ratelimit.go:65-67 | the "only if" half: a run of 10000 other keys, a long hour and a second burst that shows the sweep |
| SweepTransparency.FewKeysSeeNoSweep | internal/middleware/ratelimit.go:63-70 | a run with at most 10000 different keys is decided as by never-reaped buckets, for any limits and readings in any order |
| SweepTransparency.ServerLimiterIsTransparent | cmd/gitcastle/main.go:93 | the server's limits, 120 and 2, satisfy the condition |
| SweepTransparency.LimiterWindowBound | internal/middleware/ratelimit.go:58-82 | under that condition each key's admissions keep the window bound through any number of sweeps |
| Collab.MergableIff | internal/collab/protection.go:73-102 | a pull request may merge exactly when it is open and, if its rule could be read, its approvals reach the required number (zero without a rule) |
| Collab.VerdictIsWrongIff | internal/collab/protection.go:79-83 | the verdict differs from the rule in exactly one case: rule unreadable, pull request open, approvals short |
| Collab.AnswerIs | internal/collab/protection.go:68-103 | the answer in full: not-found only for a missing pull request; the rule's number and the number of rows that approve; each blocker exactly when it applies, with those numbers in their places |
| Collab.Store.EvaluateMerge | internal/collab/protection.go:68-103 | the method with its two loops computes the verdict, blockers and counts of the tables |
| Collab.LatestVerdicts | internal/collab/protection.go:88-91 | the first loop's map holds exactly the approving reviewers of the table, for every order of the rows |
| Collab.CountApproved | internal/collab/protection.go:92-96 | the second loop counts them, for every order of the map |
| Collab.Store.ListReviews | internal/collab/pull_requests.go:136-157 | lists every review row of the pull request once and no other |
| Collab.Store.SetBranchProtection | internal/collab/protection.go:9-27 | empty branch or negative count is refused; otherwise the one rule is upserted |
| Collab.RuleReadsBack | internal/collab/protection.go:29-43 | what GetBranchProtection answers: an accepted rule until it is replaced or deleted, not-found after that, no other branch's rule affected |
| Collab.Store.DeleteBranchProtection | internal/collab/protection.go:45-56 | removes the one rule, or not-found |
| Collab.RowReadsBack | internal/collab/pull_requests.go:53-63 | what GetPullRequest answers: the row a successful update answered with, which no further update changes, no other row affected |
| Collab.Store.SetPullRequestState | internal/collab/pull_requests.go:67-93 | the guarded update: only an open row changes, only to merged or closed and to the whole commit that was passed (none for an empty one), with the three errors told apart |
| Collab.Store.UpsertReview | internal/collab/pull_requests.go:98-134 | a review is accepted exactly when its verdict is approved, changes_requested or commented and the pull request is open; it then replaces the reviewer's one row with that verdict and text |
| Collab.VerdictNamedIff | internal/collab/pull_requests.go:99-103 | three texts are verdicts, three different ones; only "approved" approves |
| Collab.ReviewReadsBack | internal/collab/pull_requests.go:98-134 | after a review the reviewer's row is that review, word for word, and no other row has changed; the three errors are told apart |
| MergeProtocol.SettledForGood | internal/collab/pull_requests.go:76-81 | once not open, a pull request's row never changes again, in any run |
| MergeProtocol.OneMergeOnly | internal/httpapi/collab.go:351-355 | under every interleaving a pull request is taken from open to merged at most once |
| MergeProtocol.InvAlways | internal/httpapi/collab.go:307-371 | in every reachable state winners, stored rows and fired events agree |
| MergeProtocol.AtMostOneWinner | internal/httpapi/collab.go:351-369 | two requests for one pull request never both get past the guarded update; at most one event exists, and only for a merged one |
| MergeProtocol.WinnerFiresOnce | internal/httpapi/collab.go:358-370 | once the winning request is past its notification, and so when it has answered 200, exactly one event has been fired, carrying the very commit that is stored and the pull request's branches; before that none |
| MergeProtocol.ReviewTableIsHistory | internal/collab/pull_requests.go:98-134 | a reviewer has a row exactly when a review of theirs was accepted in the run, and it is the verdict spelt by the last one: approved, changes_requested or commented |
| MergeProtocol.ApproversAreApproving | internal/collab/protection.go:88-96 | the approvals counted are exactly the reviewers whose last accepted review says "approved" |
| MergeProtocol.RuleTableIsHistory | internal/collab/protection.go:9-56 | a branch's rule is what its last accepted protection edit left |
| MergeProtocol.GateOfTables | internal/collab/protection.go:73-102 | the gate read from the tables is the gate of the run's history |
| MergeProtocol.EveryMergeWasGated | internal/httpapi/collab.go:317-351 | a merged pull request was merged once, by a request whose own earlier check found it open with the approvals then required (or could not read the rule), whatever came in between |
| MergeProtocol.MergedOnlyAfterApproval | internal/httpapi/collab.go:317-351 | with readable rules, an earlier state of the run met the gate |
| MergeProtocol.MergeCommitCameFromGit | internal/httpapi/collab.go:334-351 | with git configured, the stored commit is the whole hash git pushed for this pull request's own source and target branch (none if that hash is empty) |
| MergeProtocol.NoCommitWithoutGit | internal/httpapi/collab.go:331-351 | without git, a merged pull request has no commit |
| MergeProtocol.CheckAnswers | internal/httpapi/collab.go:317-328 | the check answers 404 exactly for a missing pull request and 422 exactly when the gate, as far as the rule could be read, is not met; otherwise the request goes on |
| MergeProtocol.GitAnswers | internal/httpapi/collab.go:340-348 | a failing git is answered 409; a push goes on to the update with its hash |
| MergeProtocol.ClosedForGood | internal/collab/pull_requests.go:67-81 | a pull request closed while open stays closed, without a commit, in any run |
| MergeGaps.GateMovesIff | internal/collab/protection.go:73-102 | while a pull request stays open, a step shuts its met gate exactly when it withdraws an approval that the rule needs or sets a rule above the approvals, and opens a shut one exactly when it is the one missing approval, a low enough rule, or the rule's removal |
| MergeGaps.GateStaysIff | internal/httpapi/collab.go:317-351 | a gate met at one point of a run is met at a later one, the pull request still open, exactly when every step between that shut it is followed by one that opens it |
| MergeGaps.MergedWithGateMetIff | internal/httpapi/collab.go:317-351 | a merge whose own check could read the rule finds its gate met at the update exactly under that condition, counted from that check |
| MergeGaps.LosesIff | internal/httpapi/collab.go:351-355 | a request at the guarded update is answered 422 exactly when the pull request was settled between its own check and the update; otherwise it wins |
| MergeGaps.LoserHasPushed | internal/httpapi/collab.go:334-355 | with git, such a request has by then pushed a merge of its own branches, after that check |
| MergeGaps.PushIsRecordedIff | internal/httpapi/collab.go:340-355 | for every push: the pushing request merges the pull request, with the hash it pushed, exactly when its update comes before anything breaks it off and finds the pull request open; otherwise the push is lost |
| MergeGaps.PushLostToBreak | internal/httpapi/collab.go:340-355 | a run whose push is lost to a failing update: the pull request stays open with no commit, and whatever comes later that request never merges it |
| MergeGaps.EventOfMergeIff | internal/httpapi/collab.go:351-370 | a merge has its event exactly when the reply of its update was not lost and its request came to notify before anything broke it off |
| MergeGaps.EventLostForGood | internal/httpapi/collab.go:357-370 | a settled pull request without an event and without a winner about to notify never gets one |
| MergeGaps.MergedWithoutEvent | internal/httpapi/collab.go:351-355 | a lost reply of the update does that, whatever comes later |
| MergeGaps.MergedThenDown | internal/httpapi/collab.go:351-370 | and so does a server going down between the update and the notification |
| MergeGaps.FailedLookupOpensTheGate | internal/collab/protection.go:79-83 | a run with an unreadable rule that merges although no state of it meets the gate |
| MergeGaps.GateCanShutBeforeTheUpdate | internal/httpapi/collab.go:317-351 | a run whose gate is shut when the update lands |
| MergeGaps.BothRequestsCanPush | internal/httpapi/collab.go:340-355 | a run in which two requests push and the second is answered 422 |
| MergeRoute.Handler.PassGate | internal/httpapi/collab.go:317-328 | the check and its early answers, a failing store's 500 among them, are the request's first steps |
| MergeRoute.Handler.PushMerge | internal/httpapi/collab.go:334-349 | reading the branches and asking git are its next steps, or end it with 404, 409 or 500 |
| MergeRoute.Handler.Update | internal/httpapi/collab.go:351-370 | the update, the event and the response are its last steps; 200 is answered only after the first two, 500 when the update fails or its reply is lost |
| MergeRoute.Handler.MergePullRequest | internal/httpapi/collab.go:307-371 | with arbitrary steps of others between its calls and any of its calls failing, the route's execution is a run of the protocol in which it takes the route's steps in order, and ends with the status answered |
| MergeRoute.Handler.MergesWereGated | internal/httpapi/collab.go:307-371 | whatever a handler has served, a merged pull request in its store was merged once, by a request whose own check had let it through |
| MergeRoute.Handler.AnsweredMeansFiredOnce | internal/httpapi/collab.go:357-371 | an answer of 200 means exactly one event, with the stored commit and the right branches |
| Numbering.Contiguous | internal/collab/issues.go:11-15 | in every interleaving the numbers of a repository's issues (or pull requests) are exactly 1..n, n the creations that succeeded |
| Numbering.NthCreationGetsN | internal/collab/pull_requests.go:15-19 | the n-th successful creation of a series is given number n |
| Numbering.SeriesAreIndependent | internal/database/migrations/004_collaboration.sql:11-26 | issues, pull requests and other repositories do not affect a series: it is as if its own steps were the whole run |
| Numbering.CreationSucceedsIff | internal/collab/issues.go:11-18 | a creation that has read the maximum gets the next number exactly when no other creation of its series succeeded since; otherwise it is refused and the numbers stay as they are |
| Numbering.AbandonedInsertsNothing | internal/collab/issues.go:11-18 | a creation that gave up between read and insert inserts nothing |
| Migrations.CommitKeepsPrefix | internal/database/database.go:57-84 | who has seen all earlier versions recorded and commits an unrecorded one extends the recorded prefix by exactly that one |
| Migrations.AlwaysPrefix | internal/database/database.go:35-86 | from an empty database, with any number of runners crashing anywhere, the recorded versions are always a prefix of the list and the schema exactly that prefix's SQL in order; a runner that returned success saw all of them |
| Migrations.AtMostOnce | internal/database/database.go:69-83 | each migration takes effect at most once in a run, and after all earlier ones |
| Migrations.RerunChangesNothing | internal/database/database.go:57-63 | after a success nothing that runs later changes the schema or the record |
| Migrations.CrashedIsGone | internal/database/database.go:35-86 | a crashed runner does nothing any more |
| Migrations.Database.Migrate | internal/database/database.go:35-86 | one call is a run of those steps, with other runners let in before any of its database calls, any of them failing or a commit's reply lost: it ends at a prefix no shorter; success means all are in, and an undisturbed call succeeds |
| Migrations.Database.ApplyVersion | internal/database/database.go:57-84 | one turn of the loop: skip a recorded version, or apply it in a transaction that takes effect whole or not at all |
| Text.SplitAt | internal/gitdata/history.go:39 | splitting and cutting at a separator that the first part does not hold |
| Text.SplitOfJoin | internal/gitdata/gitdata.go:51 | joining pieces free of the separator and splitting again gives the pieces |
| Text.FieldsOfJoin | internal/gitdata/history.go:54 | words printed with one space between come back as the fields |
| Text.FieldsAreWords | internal/gitdata/gitdata.go:99 | every field is a non-empty word free of white space |
| Commits.ParseCommits | internal/gitdata/history.go:37-58 | the loop computes the records' commits, skipping blank and short ones |
| Commits.LogRoundTripIff | internal/gitdata/history.go:35-58 | a printed log parses back to its commits, messages up to trailing newlines, exactly when no field holds a record separator, the first five hold no NUL, no hash starts with a newline and parents are words |
| Commits.ReprintIsStable | internal/gitdata/history.go:35-58 | for any output at all, printing and parsing the parsed commits again changes nothing |
| Commits.ShowRoundTripIff | internal/gitdata/history.go:89-98 | a shown commit comes back together with an arbitrary patch exactly under the same condition |
| Listings.ListTree | internal/gitdata/gitdata.go:90-105 | the loop computes the records' entries, skipping malformed ones |
| Listings.TreeRoundTripIff | internal/gitdata/gitdata.go:90-105 | a printed tree parses back to its entries exactly when mode, type and hash are words and nothing holds a NUL; tabs and newlines in paths included |
| Listings.ListRefs | internal/gitdata/gitdata.go:39-66 | the loop computes the lines' refs; the HEAD branch's name is git's answer trimmed, empty when git has none |
| Listings.PrintedRefsParse | internal/gitdata/gitdata.go:50-64 | refs come back in git's order with name, hash and branch or tag, a branch named refs/tags/... without that prefix |
| Listings.RefRoundTripIff | internal/gitdata/gitdata.go:60-63 | the round trip is exact exactly when no branch's short name starts with refs/tags/ |
| Listings.DefaultFirstIff | internal/gitdata/gitdata.go:38-66 | "default branch first": the HEAD branch's ref keeps its place in git's order, so it is first exactly when no other branch's full name sorts before it |
| Listings.DefaultIsNotFirst | internal/gitdata/gitdata.go:38 | branches a and main with HEAD at main: a is first |
| Cgi.ParseCGIResponse | internal/gitserve/cgi.go:13-58 | the reading loop and the writing of headers compute the response function |
| Cgi.TakeLine | internal/gitserve/cgi.go:27-36 | one header line: no colon is skipped, Status under case folding is remembered, anything else is added under its canonical key |
| Cgi.WriteHeaders | internal/gitserve/cgi.go:48-52 | every parsed value is appended after those already on the response, for every order of the map |
| Cgi.CanonicalIs | internal/gitserve/cgi.go:36 | the canonical key of a field name, character by character: capitals at its start and after each hyphen, small letters elsewhere, the rest unchanged; a key that is no field name is left alone |
| Cgi.SameHeaderIff | internal/gitserve/cgi.go:36-50 | two field names are one header exactly when they agree up to the case of their letters |
| Cgi.StatusIff | internal/gitserve/cgi.go:32 | a field name is read as the status exactly when its canonical form is Status |
| Cgi.LineTaken | internal/gitserve/cgi.go:27-36 | a line without a colon is skipped, a status replaces the one before, any other line adds one value at the end of one header |
| Cgi.CanonicalTwice | internal/gitserve/cgi.go:36-50 | canonical header keys are canonical, so adding twice groups the same values |
| Cgi.BadGatewayIff | internal/gitserve/cgi.go:17-26 | the answer is 502 exactly when no line of the input, ended by a newline, is blank |
| CgiRoundTrip.ResponseRoundTripIff | internal/gitserve/cgi.go:13-58 | a printed status, list of fields and body come back - the code (200 without Status), no other header, each header's values in order, the body unchanged - exactly when each name is free of colons, newlines and outer white space and is not Status, each value is one trimmed line, and the code fits an int |
| CgiRoundTrip.WellFormedIsCarried | internal/gitserve/cgi.go:27-36 | every field of the grammar other than Status meets that |
| CgiRoundTrip.SignedReads | internal/gitserve/cgi.go:43 | a status number with a sign is read as signed, within the range of a 64-bit int; a sign alone is none |
| ShellQuote.QuoteRoundTripIff | internal/automation/hook.go:43-45 | the shell reads the quoted value as one word equal to it exactly when it holds no NUL |
| ShellQuote.QuotedReadsBack | internal/automation/hook.go:43-45 | and does so whatever text follows |
| ShellQuote.InstallCommandTokens | internal/automation/hook.go:37-39 | for all scripts and paths the install command is printf, its format, the script, >, the path, &&, chmod, +x, the path; refused exactly when script or path holds a NUL |
| StoragePath.CleanIsKept | internal/storage/storage.go:46 | for every key, walking it from its start leaves exactly the names found from its end, where each ".." takes back the nearest name before it that is not taken back already |
| StoragePath.CleanIsNames | internal/storage/storage.go:46 | a key without ".." names just its parts other than "" and ".", in order |
| StoragePath.MiddleCollapses | internal/storage/storage.go:46 | in the middle of a key, // and /./ are as good as / |
| StoragePath.EndsCollapse | internal/storage/storage.go:46 | a slash or "." at the start or the end of a key changes nothing |
| StoragePath.CleanIsIdempotent | internal/storage/storage.go:46 | normalising a normal form, with or without a slash at its end, changes nothing |
| StoragePath.AcceptedIsSafe | internal/storage/storage.go:41-53 | an accepted key names the root, or a file below it by components none of which is empty, ".", or holds ".." |
| StoragePath.RenderDotDot | internal/storage/storage.go:49-51 | the text of the clean path holds ".." exactly when one of its components does |
| StoragePath.ReachableIffSafe | internal/storage/storage.go:41-53 | the files that keys reach are exactly the safely named ones |
| StoragePath.ReportedKeyMapsBack | internal/storage/storage.go:114-119 | the key listed for a safely named file is not empty, does not start with a slash and leads back to that file |
| StoragePath.PathOfIsIdempotent | internal/storage/storage.go:41-53 | normalising an accepted key is idempotent, acceptance included, also with a slash at its end |
| StoragePath.RefusedIff | internal/storage/storage.go:41-53 | a key is refused exactly when it holds NUL or a component of its clean path holds ".."; no such component is ".." itself |
| StoragePath.DotDotIff | internal/storage/storage.go:49 | what is looked for is the text ".." anywhere |
| StoragePath.ClimbingIsCollapsed | internal/storage/storage.go:45-51 | a key that climbs above the root, at its start or anywhere in it, is treated as if it had begun after that |
| StoragePath.ClimbsOneLevel | internal/storage/storage.go:45-46 | what follows a ".." is taken from one level above where the part before it leads, the root at most |
| StoragePath.EscapeIsAccepted | internal/storage/storage.go:45-51 | ../x is accepted, as x |
| StoragePath.PlainNameIsRefused | internal/storage/storage.go:47-51 | a..b is refused |
| AtomicStore.GetIsLast | internal/storage/storage.go:55-87 | with stored names apart, after any interleaving, partial write or crash, reading a key gives its last committed value in full, or not-found |
| AtomicStore.RefinesIff | internal/storage/storage.go:63-70 | that holds of every run over a set of keys exactly when none of them is another's name plus .tmp |
| AtomicStore.ApartIff | internal/storage/storage.go:63 | names are apart exactly when no key is another one of its directory with .tmp after its name |
| AtomicStore.PutGoesOn | internal/storage/storage.go:63-70 | steps of other keys and Deletes of its own key leave a Put under way as it is: written in full, its rename commits the data it began with |
| AtomicStore.TemporaryIff | internal/storage/storage.go:63-70 | a key's temporary file is there exactly when some Put opened it and none has committed since |
| AtomicStore.FilesAreThese | internal/storage/storage.go:55-72 | after any run the files are the committed keys, with their last values, and the temporary files left behind |
| AtomicStore.CrashLeavesTemporary | internal/storage/storage.go:64-70 | the shortest run that leaves one |
| LocalStore.Store.Put | internal/storage/storage.go:55-72 | a run of the single-file steps; success replaces the key's file, which then reads back, and leaves no temporary; an error leaves every other file as it was; directories are only added, and only on the way to the file |
| LocalStore.Store.MakeParents | internal/storage/storage.go:60-62 | makes the missing directories on the way, or stops at a file in the way or an error |
| LocalStore.Store.WriteFile | internal/storage/storage.go:64-67 | the temporary file holds the data, or after an error some prefix of it |
| LocalStore.Store.ReadIsLast | internal/storage/storage.go:74-87 | what Get answers: after any run over keys with names apart, the key's last committed value in full, or an error when there is none |
| LocalStore.Store.ReadAnswers | internal/storage/storage.go:74-87 | when Get gives each answer: the file's content, not-found exactly when nothing is there and no file is in the way, a refused key, or another error |
| LocalStore.Store.Delete | internal/storage/storage.go:140-152 | removes that one file, or a directory in which nothing lies; otherwise a refused key, not-found or another error, and nothing changes |
| LocalStore.Store.RemovableIff | internal/storage/storage.go:140-152 | the directories that Delete takes are those with nothing anywhere below them |
| LocalStore.Store.List | internal/storage/storage.go:89-138 | a refused prefix or an error at it is reported, a prefix that is not there lists nothing; otherwise what the walk gave, newest first, ties in walk order, each object with the key, the length and the time of its file as it was looked at |
| LocalStore.Store.Walk | internal/storage/storage.go:95-129 | with others changing the store before each visit: the files met, each with its key, its length and its time as it was found; a directory gone ends the walk, a file gone empties it, any other error is reported |
| ListRuns.GoneIff | internal/storage/storage.go:55-72 | a file of one instant is not there at a later one exactly when its Delete, or the Rename of its temporary name, came in between and it was not put back |
| ListRuns.OutcomeOfTour | internal/storage/storage.go:95-129 | a walk in the middle of any run gives everything its directory reads found, each with its key, its length and its time at its look, or nothing at all if one of those files was gone when it was looked at |
| ListRuns.ListingIsCompleteIff | internal/storage/storage.go:95-129 | the listing is empty exactly when the reads found nothing or a file met was taken away before its look; it holds every file that is there throughout exactly when no file was, or there is none to hold |
| ListRuns.ListingIsEmptied | internal/storage/storage.go:125-127 | a Put that commits during the walk: a key stored all the time, and an empty listing |
| ListRuns.QuietListing | internal/storage/storage.go:89-138 | after any run over keys with names apart, and with nothing going on, the keys listed below a prefix are the committed ones and those of the temporary files left behind |
| LocalStore.Store.StaysBelowRoot | internal/storage/storage.go:55-72 | a Put writes below the root only, its temporary file included, exactly when its key has a name |
| LocalStore.Store.ListedKeyOpens | internal/storage/storage.go:114-119 | the key listed for the file of an accepted key leads back to that file |
| NewestFirst.SortNewestFirst | internal/storage/storage.go:131-136 | the in-place sort leaves a descending order in which objects of equal time keep theirs |
| NewestFirst.SinkInto | internal/storage/storage.go:133-135 | one turn of the inner loop extends the sorted part by one object |
| NewestFirst.OnlyOneOrder | internal/storage/storage.go:131-136 | there is only one such order |
| NewestFirst.RearrangementIsPermutation | internal/storage/storage.go:131-136 | and it is a permutation |
| Webhooks.DeliverWithRetries | internal/webhooks/webhooks.go:209-223 | stops at the first 2xx, at a cancellation or at the limit; the status is the last attempt's, 2xx exactly when some attempt was; the back-off requested is exactly 250 f (f + 1) ms for f failures |
| Webhooks.AttemptsUnique | internal/webhooks/webhooks.go:209-223 | that description fixes the number of attempts |
| Webhooks.Dispatcher.RecordDelivery | internal/webhooks/webhooks.go:116-126 | delivered exactly when the status is 2xx |
| Webhooks.Dispatcher.Dispatch | internal/webhooks/webhooks.go:174-207 | one record tried per matching hook, in order, with its final status; those that can be written are, and a failure to write does not stop the rest |
| Webhooks.MatchingIsExact | internal/webhooks/webhooks.go:81-102 | the hooks tried are exactly the active ones subscribed to the event (all active ones for an empty event type), in their order |

## Left out

- Limiter.RateLimiter.Allow: does not model floating-point rounding, the saturation of durations beyond 292 years, or the HTTP side (client key, the 429 answer); tokens and seconds are reals.
- MergeProtocol.EveryMergeWasGated: takes each store method as one atomic step, so statements of two store methods do not interleave inside EvaluateMerge or UpsertReview.
- MergeProtocol.WinnerFiresOnce: an event counts as fired when it is handed to the automation service, which the code does in a goroutine of its own; what becomes of it there is not modelled.
- MergeRoute.Handler.MergePullRequest: a server that goes down in the middle of a request is a step of the protocol (Break), not an outcome of the method, which always answers.
- MergeProtocol: repositories are never deleted (the tables' ON DELETE CASCADE), and the check for a missing repository or a malformed number in the URL is not modelled.
- Collab.Store.ListReviews: lists in an arbitrary order instead of by creation time, which is more than the query can do.
- Numbering: rows are never deleted; a refused insert ends the creation, as it does in the code.
- Migrations.AlwaysPrefix: transactions take effect at their commit or not at all; what the SQL texts do to tables is not modelled, and the list is any list of distinct versions, sorted or not. Reading the embedded directory and sort.Strings are not part of this model.
- Text: a string is a sequence of runes; bytes that are not valid UTF-8 are not modelled as such.
- Listings.DefaultFirstIff: takes git's word that for-each-ref sorts by full name; how `symbolic-ref --short` shortens an ambiguous name is not modelled, the name is whatever it printed.
- CgiRoundTrip.ResponseRoundTripIff: the printed reason phrase is one line, as the grammar has it.
- Listings.RefRoundTripIff: assumes what git itself guarantees of ref names, hashes and types (no NUL or newline, a one-word type).
- Cgi.ParseCGIResponse: ends with the code handed to WriteHeader; net/http's own treatment of codes outside 100-999, and the text of the 502 answer, are not modelled. A read error counts as the end of the input.
- ShellQuote.InstallCommandTokens: the lexer covers words, single quotes, backslashes, blanks, `>` and `&&`, and gives up on everything else; the `%q` quoting inside the script is Go's and is not modelled.
- AtomicStore.RefinesIff: one writer per key at a time; a crash is of the process, so file contents survive it (no fsync is made). Directories and a rename onto a directory appear there only as a Put that fails; LocalStore has them.
- LocalStore: directories above the root, links and permissions are not modelled, except as operations that fail.
- StoragePath: a key with an empty normal form, such as "", names the root itself; components below the root are modelled, the root's own path is any non-empty one.
- LocalStore.Store.List: what the reads of the directories give, and the modification times, are inputs of the method; a path that changes from file to directory during the walk is not modelled.
- ListRuns.ListingIsCompleteIff: is about walks on which no directory vanishes and no other error occurs; what those do is in LocalStore.Store.Walk.
- Webhooks: building, signing and sending a request is one oracle step; ListHooks and Marshal failures, which end Dispatch before it tries anything, are not modelled.
- internal/collab/collab.go: NextNumber, which nothing calls.
- internal/mergesvc, internal/ci, internal/backup: wrappers over git and docker.
- internal/auth, internal/secrets, internal/scanning, internal/audit and the frontend: library primitives, regular expressions, or user interface.
