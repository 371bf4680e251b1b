# Bounty platform core, in Dafny

This project models the server core of a GitHub bounty platform. Bounties
are posted on GitHub issues. Contributors claim them with pull requests. A
GitHub webhook settles them when a claimed pull request is merged.

The model covers the following, each checked against the source's own branches:

- **Webhook endpoint.** The advisory HMAC signature check, JSON dispatch on the event type, and the ping, issues and pull-request handlers.
- **Pull-request settlement.** The snapshot `findMany`, then the loop that approves submissions and solves bounties in paired updates.
- **Privy user sync.** Deriving the user fields from the linked accounts, the user upsert keyed by Privy id, and the GitHub account upsert.
- **REST routes.** Public and personal bounty lists, solved bounties, submissions (create and list), bot installation (GET, POST, DELETE), projects (list and create), and the user's GitHub issues.
- **Client helpers.**
  - The dashboard's commit chart (`fetchCommitsData`).
  - The pull-request number extraction from URLs.
  - The submit-solution, create-bounty, search and list-update logic of the two pages.
  - What `BountyCard` and `IssueCard` show.

The database is one class, `Store.Db`, whose map fields are the tables:
bounties, submissions, installations, users, accounts and projects. A
counter supplies fresh ids. Every request handler that writes is a
`method` that `modifies db`. Its `ensures` ties the new state, and the
response, to a specification function of the old state. The lemmas
beside each specification state what the source promises:

- `Store.Valid` is kept by every operation. Under it a solved bounty carries its flags, an approved submission has a SOLVED bounty, and the natural keys and unique columns are unique.
- Only ACTIVE bounties are solved.
- A merged pull request settles only its own repository.
- Redelivered events and repeated upserts change nothing more.
- Create routes refuse duplicates with 409.
- List routes return exactly the matching rows, in the stated order, paged as `take`/`skip` page.

The order in which the database returns rows is a parameter (`order`,
`rowOrder`, `subOrder`, `userOrder`, `accountOrder`): a sequence listing
every key of the table once (`Store.Enumerates`). A `findFirst` therefore
searches the whole table, in that order.

Outside services are parameters:

- HMAC-SHA256 is `WebhookSignature.Hmac`.
- Privy's token verification is `Auth.Oracle`.
- The NextAuth session is an optional user id.
- GitHub's issue listing is an optional page of issues, `None` when the call fails.
- Date parsing is `Dashboard.DayOf`.

## Model

| member | source | states |
|---|---|---|
| WebhookSignature.HexEncode | src/lib/github-webhook.ts:18 | `digest("hex")` writes two lower-case hexadecimal characters per byte |
| WebhookSignature.HexRoundTrip | src/lib/github-webhook.ts:18 | hex decoding gives back the digest, so the hex form loses nothing |
| WebhookSignature.HexInjective | src/lib/github-webhook.ts:17-18 | two digests with the same hex text are equal |
| WebhookSignature.Utf8 | src/lib/github-webhook.ts:21-22 | `Buffer.from` never yields fewer bytes than characters |
| WebhookSignature.Utf8Char | src/lib/github-webhook.ts:21-22 | an ASCII character is one byte equal to its code; any other character starts with a byte of at least 0xC0 and takes 2 to 4 bytes |
| WebhookSignature.Utf8Ascii | src/lib/github-webhook.ts:21-22 | the UTF-8 bytes of an ASCII string are its character codes, one per character |
| WebhookSignature.Utf8AsciiUnique | src/lib/github-webhook.ts:20-23 | a string whose bytes equal those of an ASCII string is that string, so byte comparison against the expected header is string comparison |
| WebhookSignature.ExpectedSignature | src/lib/github-webhook.ts:17-18 | the expected header is ASCII, starts with "sha256=" and is 7 plus twice the digest length long |
| WebhookSignature.TimingSafeEqual | src/lib/github-webhook.ts:20-23 | throws exactly when the lengths differ, and answers true exactly when the buffers are equal |
| WebhookSignature.Verify | src/lib/github-webhook.ts:3-24 | a missing or empty header or secret answers false without throwing; the comparison throws exactly when both are present and the header's UTF-8 length differs from the expected header's; true exactly for a non-empty secret and the header GitHub computes for the body under it |
| WebhookSignature.VerifyAcceptsExpected | src/lib/github-webhook.ts:17-23 | the header GitHub computes for the body under the secret is accepted |
| WebhookSignature.TamperedBodyRejected | src/lib/github-webhook.ts:17-23 | the header of one body does not verify another body with a different digest |
| Webhook.CloseSolve | src/app/api/github/webhook/route.ts:154-161 | the closed bounty becomes SOLVED, `isSolved`, solved now; its id, key, amount, poster, labels and solver are kept |
| Webhook.ClosedBounties | src/app/api/github/webhook/route.ts:140-163 | closing keeps every bounty id; only the ACTIVE bounty with the issue's key is solved, all others are unchanged |
| Webhook.HandleIssueEvent | src/app/api/github/webhook/route.ts:113-164 | the new state is the issue specification of the old one; the label stub is called exactly on "opened" for an issue that has a bounty |
| Webhook.IssuePreservesValid | src/app/api/github/webhook/route.ts:140-163 | closing an issue keeps the database invariant |
| Webhook.IssueOnlyActiveClosed | src/app/api/github/webhook/route.ts:140-163 | only the ACTIVE bounty with the issue's (number, owner, repo) key changes, and it becomes SOLVED; every other row and table is unchanged |
| Webhook.IssueOtherActionsNoChange | src/app/api/github/webhook/route.ts:120-140 | any action other than "closed" leaves the database as it is |
| Webhook.IssueIdempotent | src/app/api/github/webhook/route.ts:152 | closing the same issue again, at any later time, changes nothing |
| Webhook.FirstMatchingUser | src/app/api/github/webhook/route.ts:71-79 | `None` exactly when no user in row order matches the sender by login, username, or case-insensitive username; otherwise a matching user with none before it |
| Webhook.FirstMatchingUserFound | src/app/api/github/webhook/route.ts:71-79 | with the row order listing every user, a user is found exactly when some stored user matches the sender |
| Webhook.FirstMatchingUserOnlyUsers | src/app/api/github/webhook/route.ts:71-79 | the lookup depends on the users table alone |
| Webhook.HandlePingEvent | src/app/api/github/webhook/route.ts:60-111 | the new state is the ping specification over a row order of every user: a matched sender upserts (owner, repo) as installed by that user |
| Webhook.PingPreservesValid | src/app/api/github/webhook/route.ts:91-108 | registering a repository keeps the invariant |
| Webhook.PingRegisters | src/app/api/github/webhook/route.ts:81-108 | a sender matching any stored user leaves one installed record for (owner, repo), installed by a stored user matching the sender (the first in row order), with every other record and table unchanged; a sender matching no stored user changes nothing |
| Webhook.PingIdempotent | src/app/api/github/webhook/route.ts:91-108 | a repeated ping changes nothing |
| Webhook.SettleLoop | src/app/api/github/webhook/route.ts:203-241 | the loop over the snapshot rows ends in the state the row-by-row settlement specification gives |
| Webhook.HandlePullRequestEvent | src/app/api/github/webhook/route.ts:180-243 | the new state is the pull-request specification: nothing unless closed and merged, otherwise the snapshot and the settlement loop |
| Webhook.HandleWebhook | src/app/api/github/webhook/route.ts:5-58 | the status and the new state are the endpoint specification, with row orders listing every submission and every user: advisory signature check, parse, dispatch, 500 on a throw |
| Webhook.UnknownEventIsNoop | src/app/api/github/webhook/route.ts:36-50 | an event type other than ping, issues and pull_request changes nothing; it answers 500 when the signature comparison throws or the body does not parse, else 200 |
| Webhook.SignatureIsAdvisory | src/app/api/github/webhook/route.ts:18-28 | a failed signature check that does not throw is handled exactly like a delivery without a signature |
| Webhook.LengthMismatchFails | src/app/api/github/webhook/route.ts:18-28 | with a secret set, a non-empty header of the wrong byte length is a 500 that changes nothing |
| Webhook.HandlerKeepsReady | src/app/api/github/webhook/route.ts:36-48 | each handler keeps the invariant, the submission ids and the users, and is the one its event type names |
| Webhook.PingKeepsReady | src/app/api/github/webhook/route.ts:60-111 | the ping handler keeps the invariant, the submission ids and the users |
| Webhook.IssueKeepsReady | src/app/api/github/webhook/route.ts:113-164 | the issues handler keeps the invariant, the submission ids and the users |
| Webhook.PullRequestKeepsReady | src/app/api/github/webhook/route.ts:180-243 | the pull-request handler keeps the invariant, the submission ids and the users |
| Webhook.WebhookPreservesReady | src/app/api/github/webhook/route.ts:5-58 | every delivery keeps the database invariant and the row orders it is handled in |
| Webhook.WebhookRedeliveryIdempotent | src/app/api/github/webhook/route.ts:5-58 | handling the same delivery again, later, answers the same and changes nothing more |
| Settlement.Snapshot | src/app/api/github/webhook/route.ts:189-197 | the snapshot has at most one row per listed submission |
| Settlement.SnapshotRows | src/app/api/github/webhook/route.ts:189-197 | every snapshot row is a stored PENDING submission with the PR number, loaded with its own bounty |
| Settlement.SnapshotComplete | src/app/api/github/webhook/route.ts:189-197 | every PENDING submission with the PR number is in the snapshot |
| Settlement.Approve | src/app/api/github/webhook/route.ts:218-225 | the submission becomes APPROVED, verified now, and nothing else changes |
| Settlement.Solve | src/app/api/github/webhook/route.ts:226-234 | the bounty becomes SOLVED, solved now by the submitter, keeps its key, and its flags agree |
| Settlement.SettleRows | src/app/api/github/webhook/route.ts:203-241 | the loop keeps the submission and bounty ids, and changes no other table |
| Settlement.LastSolver | src/app/api/github/webhook/route.ts:203-235 | `None` exactly when no qualifying row names the bounty; otherwise the submitter of the last qualifying row |
| Settlement.SettleRowsSubmission | src/app/api/github/webhook/route.ts:207-225 | a submission is approved exactly when a qualifying row carries it, and is untouched otherwise |
| Settlement.SettleRowsBounty | src/app/api/github/webhook/route.ts:207-235 | a bounty is solved by its last qualifying row's submitter, and is untouched when no row qualifies |
| Settlement.SettleRowsNoneQualify | src/app/api/github/webhook/route.ts:207-211 | rows none of which qualifies change nothing |
| Settlement.SettlePreservesValid | src/app/api/github/webhook/route.ts:217-235 | one paired update keeps the invariant |
| Settlement.SettleRowsPreservesValid | src/app/api/github/webhook/route.ts:203-241 | the whole loop keeps the invariant |
| SettlementProperties.LastSettler | src/app/api/github/webhook/route.ts:203-235 | the last submitter in row order whose submission the PR settles for the bounty, `None` exactly when there is none |
| SettlementProperties.LastSolverOfSnapshot | src/app/api/github/webhook/route.ts:189-235 | the loop's solver, read off the snapshot, is the last settling submitter in row order |
| SettlementProperties.PullRequestSubmission | src/app/api/github/webhook/route.ts:183-225 | a submission is approved exactly when the merged PR settles it: PENDING, same number, its bounty ACTIVE in the same repository |
| SettlementProperties.PullRequestBounty | src/app/api/github/webhook/route.ts:183-235 | a bounty is SOLVED by the last settling submitter, or untouched when none settles it |
| SettlementProperties.PullRequestPreservesValid | src/app/api/github/webhook/route.ts:180-243 | the pull-request handler keeps the invariant |
| SettlementProperties.PullRequestOnlyActiveSolved | src/app/api/github/webhook/route.ts:207-235 | only an ACTIVE bounty of the event's repository changes; it becomes SOLVED by a submitter whose submission for it was approved by this PR |
| SettlementProperties.PullRequestCrossRepoIsolation | src/app/api/github/webhook/route.ts:207-209 | bounties and submissions of other repositories are never touched |
| SettlementProperties.PullRequestLastSolverWins | src/app/api/github/webhook/route.ts:203-235 | when several submissions of one bounty settle, the recorded solver is the last in row order |
| SettlementProperties.NothingLeftToSettle | src/app/api/github/webhook/route.ts:189-235 | after a merged PR is applied it settles nothing more |
| SettlementProperties.NoSettlerNoChange | src/app/api/github/webhook/route.ts:183-241 | a merged PR that settles nothing leaves the database as it is |
| SettlementProperties.PullRequestIdempotent | src/app/api/github/webhook/route.ts:180-243 | redelivering the event changes nothing more |
| Privy.FindGithub | src/lib/privy.ts:80-82 | `None` exactly when no linked account is of a GitHub type; otherwise a GitHub account from the list |
| Privy.FindWallet | src/lib/privy.ts:85-87 | `None` exactly when no linked account is a wallet or smart wallet; otherwise such an account from the list |
| Privy.EmailLocalPart | src/lib/privy.ts:111 | for a present address, a prefix of it with no "@" |
| Privy.DeriveUserFields | src/lib/privy.ts:94-117 | the name is never empty, username equals login, and the image is the avatar URL of the GitHub subject when there is one |
| Privy.DerivedName | src/lib/privy.ts:108-112 | the name is the first non-empty of the account name, the profile name and the e-mail local part, else "User" |
| Privy.DerivedImageFallback | src/lib/privy.ts:94-100 | without a GitHub subject the image is the first non-empty picture field, in the source's order |
| Privy.Update | src/lib/privy.ts:107-118 | an update's `undefined` keeps the column, `null` clears it, and a string sets it |
| Privy.UpsertedUser | src/lib/privy.ts:105-133 | the update branch keeps the row's id, Privy id and tokens; the create branch has 0 unclaimed tokens; the derived fields are written either way |
| Privy.UpsertTwice | src/lib/privy.ts:105-133 | writing the same fields twice is writing them once |
| Privy.SyncedId | src/lib/privy.ts:105-106 | the row holding the Privy id when there is one, else a fresh id |
| Privy.SyncPrivyUser | src/lib/privy.ts:70-174 | the result and the new state are the sync specification: throw on an empty id, the user upsert, then the account upsert for a GitHub account with token and subject |
| Privy.UpsertUserRow | src/lib/privy.ts:104-133 | the user upsert writes the row the user specification gives and returns its id |
| Privy.UpsertAccountRow | src/lib/privy.ts:140-161 | the account upsert writes the accounts the account specification gives |
| Privy.UpsertUserValid | src/lib/privy.ts:105-133 | the user upsert keeps the invariant and leaves one row for the Privy id |
| Privy.UpsertAccountValid | src/lib/privy.ts:143-161 | the account upsert touches only the accounts table and keeps the invariant |
| Privy.SyncPreservesValid | src/lib/privy.ts:70-174 | a sync keeps the invariant, touches only users, accounts and the id counter, and leaves one row for the Privy id with the derived name |
| Privy.UpsertUserAgain | src/lib/privy.ts:105-133 | the user upsert over its own result changes nothing, whatever happened to the accounts in between |
| Privy.SyncedIdOf | src/lib/privy.ts:105-106 | the row holding a Privy id is the one a sync writes |
| Privy.UpsertAccountAgain | src/lib/privy.ts:144-161 | the account upsert over its own result changes nothing |
| Privy.SyncIdempotent | src/lib/privy.ts:70-174 | syncing the same Privy user twice gives the same rows and id as once |
| Auth.BearerToken | src/app/api/bounties/route.ts:79-85 | a token exactly for a header starting with "Bearer ", and the header is that prefix followed by the token |
| Auth.BearerRoundTrip | src/app/api/bounties/route.ts:80-85 | the header built from a token is read back as that token |
| Auth.Authenticate | src/app/api/bounties/route.ts:79-94 | the result and new state are the authentication specification: 401 without a Bearer token or a verified one, otherwise the synced user |
| Auth.AuthSound | src/app/api/bounties/route.ts:79-94 | keeps the invariant, changes only user tables, grants only a verified token as the row holding its Privy id, and denies with 401 or 500 |
| Auth.AuthAgain | src/app/api/bounties/route.ts:88-94 | a caller granted once is granted as the same user later |
| Store.FindByText | src/app/api/bounties/submissions/route.ts:37-39 | `findUnique` by an id given as text finds the row with that id text, or `None` when no row has it |
| Store.KeepsValidUser | src/lib/privy.ts:104-133 | writing a user row under its id, with a Privy id no other row holds, keeps the invariant |
| Store.KeepsValidAccount | src/lib/privy.ts:140-161 | writing an account under its own (provider, account id) key keeps the invariant |
| Store.KeepsValidBounties | src/app/api/github/webhook/route.ts:150-162 | rewriting bounties that keep their ids, keys and consistent flags, and stay solved when solved, keeps the invariant |
| Store.KeepsValidInstallation | src/app/api/github/bot/installation/route.ts:89-106 | writing an installation under its own (owner, repo) key keeps the invariant |
| Store.KeepsValidProject | src/app/api/projects/route.ts:129-145 | adding a project under the next id with an unused URL keeps the invariant |
| Store.KeepsValidNewBounty | src/app/api/bounties/route.ts:142-154 | adding a consistent bounty under the next id with an unused natural key keeps the invariant |
| Store.KeepsValidNewSubmission | src/app/api/bounties/submissions/route.ts:69-77 | adding a consistent submission under the next id for an unused (bounty, user) pair keeps the invariant |
| BountyRoutes.InsertBounty | src/app/api/bounties/route.ts:96-169 | the status, the created row and the new state are the create specification for an authenticated caller |
| BountyRoutes.PostBounty | src/app/api/bounties/route.ts:76-177 | the status, the created row and the new state are the POST specification |
| BountyRoutes.AddBountyValid | src/app/api/bounties/route.ts:142-154 | adding a fresh ACTIVE bounty under an unused key keeps the invariant |
| BountyRoutes.CreateBountyOutcome | src/app/api/bounties/route.ts:107-169 | keeps the invariant; adds one ACTIVE bounty with the two labels, posted by the caller under a new key, or changes nothing; 400 for a missing field and 409 for an existing key |
| BountyRoutes.CreateBountyRepeated | src/app/api/bounties/route.ts:123-139 | repeating a successful create, by anyone at any time, is a 409 that changes nothing |
| BountyRoutes.PostBountyOutcome | src/app/api/bounties/route.ts:76-177 | the route keeps the invariant; no Bearer header is a 401 that writes nothing; the poster is the row of the verified identity |
| BountyRoutes.StatusName | src/app/api/bounties/route.ts:14 | each status's name parses back to it |
| BountyRoutes.ParseStatusNames | src/app/api/bounties/route.ts:14 | exactly the four enum names parse, each to the status it names |
| BountyRoutes.WithSolver | src/app/api/bounties/route.ts:44-63 | a solver lookup is attached exactly to a SOLVED bounty with `solvedBy`, and finds that user when it exists |
| BountyRoutes.NewestFirstTotal | src/app/api/bounties/route.ts:38 | newest-first is a total preorder |
| BountyRoutes.BountyQueryOutcome | src/app/api/bounties/route.ts:5-74 | every listed bounty is stored with the requested status; the page is newest first and bounded by a non-negative limit; a large first page holds every match; an unknown status or a non-number is a 500 |
| BountyRoutes.BountyPageWindow | src/app/api/bounties/route.ts:12-63 | with a non-negative limit and offset, the answer is 200 with the matching bounties at positions `offset`, `offset + 1`, ... of the newest-first order, each with its solver, up to `limit` rows |
| BountyRoutes.BountyPageOutcome | src/app/api/bounties/route.ts:12-63 | for a query that reaches the database: stored bounties of the status, newest first, bounded by a non-negative limit, all of them on a large first page |
| BountyRoutes.WithSolvers | src/app/api/bounties/route.ts:44-63 | one listed row per bounty of the page, in order, each with its own solver lookup |
| BountyRoutes.ListBountiesDefaults | src/app/api/bounties/route.ts:8-10 | without parameters, the first 20 ACTIVE bounties, newest first |
| BountyRoutes.PosterOrderTotal | src/app/api/bounties/my/route.ts:49-58 | the poster's sort order is a total preorder for every sort and direction |
| BountyRoutes.SubmissionsOfOutcome | src/app/api/bounties/my/route.ts:73-84 | each bounty's submission list is exactly its submissions, newest first |
| BountyRoutes.MyPageMembers | src/app/api/bounties/my/route.ts:38-47 | the poster's list holds only the caller's stored bounties, and only the requested status unless "all" |
| BountyRoutes.MyPageOrdered | src/app/api/bounties/my/route.ts:49-64 | the poster's list is sorted by amount or creation date in the chosen direction and holds at most `limit` |
| BountyRoutes.MyBountiesOutcome | src/app/api/bounties/my/route.ts:30-108 | a successful list is that page, each bounty with its own submissions and its solver lookup |
| BountyRoutes.MyBountiesRoute | src/app/api/bounties/my/route.ts:5-118 | status, rows and new state are the route specification |
| BountyRoutes.ApprovedOfOutcome | src/app/api/bounties/solved/route.ts:36-57 | the caller's APPROVED stored submissions, newest first, all of them |
| BountyRoutes.SolvedItems | src/app/api/bounties/solved/route.ts:60-82 | one item per submission, in order, each carrying that submission's id, status, date and the stored bounty it names |
| BountyRoutes.SolvedBountiesItems | src/app/api/bounties/solved/route.ts:60-82 | each item carries an approved submission of the caller, its id, and its stored, SOLVED bounty; newest first |
| BountyRoutes.SolvedBountiesDistinct | src/app/api/bounties/solved/route.ts:36-82 | no submission is listed twice |
| BountyRoutes.SolvedBountiesComplete | src/app/api/bounties/solved/route.ts:36-82 | every approved submission of the caller is listed |
| BountyRoutes.SolvedRoute | src/app/api/bounties/solved/route.ts:5-92 | status, rows and new state are the route specification |
| BountyRoutes.ListRoutesAuthenticate | src/app/api/bounties/my/route.ts:8-28 | both protected lists answer 401 and write nothing without a Bearer header, and otherwise change only user tables |
| SubmissionRoutes.LookupBounty | src/app/api/bounties/submissions/route.ts:37-43 | found exactly when the id is a string naming a stored bounty; a non-string id is a failed lookup |
| SubmissionRoutes.InsertSubmission | src/app/api/bounties/submissions/route.ts:25-98 | the status, created row and new state are the claim specification |
| SubmissionRoutes.PostSubmission | src/app/api/bounties/submissions/route.ts:5-106 | the status, created row and new state are the POST specification |
| SubmissionRoutes.AddSubmissionValid | src/app/api/bounties/submissions/route.ts:70-77 | a fresh PENDING submission, for a stored bounty, by a user without one, keeps the invariant |
| SubmissionRoutes.CreateSubmissionShape | src/app/api/bounties/submissions/route.ts:28-77 | adds one PENDING submission of the caller for an ACTIVE bounty with the parsed PR number, under the next id, or changes nothing with 400, 404, 409 or 500 |
| SubmissionRoutes.CreateSubmissionOutcome | src/app/api/bounties/submissions/route.ts:69-77 | a claim keeps the database invariant, and the new row takes an unused id |
| SubmissionRoutes.CreateSubmissionRepeated | src/app/api/bounties/submissions/route.ts:52-67 | a second claim by the same user for the same bounty is a 409 that changes nothing |
| SubmissionRoutes.PostSubmissionOutcome | src/app/api/bounties/submissions/route.ts:5-106 | keeps the invariant; 401 without a Bearer header; the submitter is the row of the verified identity |
| SubmissionRoutes.ListSubmissionsOutcome | src/app/api/bounties/submissions/route.ts:128-168 | with `bountyId`, exactly that bounty's submissions; without, exactly the caller's; newest first |
| SubmissionRoutes.ListForBounty | src/app/api/bounties/submissions/route.ts:131-146 | listing by a bounty's own id gives its submissions |
| SubmissionRoutes.ListSubmissionsRoute | src/app/api/bounties/submissions/route.ts:108-176 | status, rows and new state are the GET specification |
| InstallationRoutes.IsInstalled | src/app/api/github/bot/installation/route.ts:44 | true exactly when a record exists and is installed |
| InstallationRoutes.GetInstallation | src/app/api/github/bot/installation/route.ts:5-54 | the response and new state are the GET specification |
| InstallationRoutes.PostInstallation | src/app/api/github/bot/installation/route.ts:56-116 | the status and new state are the POST specification |
| InstallationRoutes.DeleteInstallation | src/app/api/github/bot/installation/route.ts:118-170 | the status and new state are the DELETE specification |
| InstallationRoutes.MarkInstalledShape | src/app/api/github/bot/installation/route.ts:89-106 | one record for the repository, installed by the caller; others untouched; repeating changes nothing |
| InstallationRoutes.MarkInstalledOutcome | src/app/api/github/bot/installation/route.ts:89-106 | the upsert keeps the database invariant |
| InstallationRoutes.MarkUninstalledShape | src/app/api/github/bot/installation/route.ts:150-160 | an existing record is kept with its installer and marked uninstalled; no record is a failure |
| InstallationRoutes.MarkUninstalledOutcome | src/app/api/github/bot/installation/route.ts:150-160 | marking uninstalled keeps the database invariant |
| InstallationRoutes.GetInstallationOutcome | src/app/api/github/bot/installation/route.ts:5-54 | keeps the invariant; 400 without both parameters, before authentication; otherwise reports the stored record |
| InstallationRoutes.PostInstallationOutcome | src/app/api/github/bot/installation/route.ts:56-116 | keeps the invariant; a success leaves the record installed by the caller |
| InstallationRoutes.DeleteInstallationOutcome | src/app/api/github/bot/installation/route.ts:118-170 | keeps the invariant; 400 without both parameters; a success marks the stored record uninstalled |
| InstallationRoutes.PostRecord | src/app/api/github/bot/installation/route.ts:80-108 | after a successful POST the record is installed by the caller, whose row holds the verified identity |
| InstallationRoutes.DeleteRecord | src/app/api/github/bot/installation/route.ts:144-162 | after a successful DELETE the record is uninstalled and still names its installer |
| InstallationRoutes.PostThenGet | src/app/api/github/bot/installation/route.ts:34-106 | a GET after a successful POST reports the repository installed by that caller |
| InstallationRoutes.DeleteThenGet | src/app/api/github/bot/installation/route.ts:34-160 | a GET after a successful DELETE reports it not installed |
| InstallationRoutes.PostRepeated | src/app/api/github/bot/installation/route.ts:89-106 | repeating a successful POST leaves the record as the first left it |
| ProjectRoutes.UpToSlash | src/app/api/projects/route.ts:105 | the longest slash-free prefix |
| ProjectRoutes.ParseGithubUrl | src/app/api/projects/route.ts:104-115 | a match yields slash-free, non-empty owner and repository groups that rebuild the URL with an allowed tail |
| ProjectRoutes.ParseOwnerRepo | src/app/api/projects/route.ts:104-106 | the groups after the prefix are non-empty, slash-free, and rebuild the path with an allowed tail |
| ProjectRoutes.ParseGithubUrlComplete | src/app/api/projects/route.ts:104-106 | every URL the pattern accepts is parsed into its two groups |
| ProjectRoutes.ParseOwnerRepoComplete | src/app/api/projects/route.ts:104-106 | every path the pattern accepts after the prefix is parsed into its two groups |
| ProjectRoutes.ParseGithubUrlSound | src/app/api/projects/route.ts:104-106 | a parse result is a match: prefix, the two groups and an allowed tail |
| ProjectRoutes.ParseGithubUrlMatches | src/app/api/projects/route.ts:104-115 | the parse gives (owner, repo) exactly when the URL is the GitHub prefix, those segments and an allowed tail |
| ProjectRoutes.ProjectFirstTotal | src/app/api/projects/route.ts:56-60 | the approved, votes, newest order is a total preorder |
| ProjectRoutes.CeilDiv | src/app/api/projects/route.ts:73 | for a positive limit, the least page count that holds the total |
| ProjectRoutes.ListProjectsStatus | src/app/api/projects/route.ts:8-83 | 500 exactly when page or limit is not a number or the skip is negative; otherwise 200 with them echoed |
| ProjectRoutes.ProjectPageWindow | src/app/api/projects/route.ts:31-63 | page `page` of a non-negative `limit` holds the matching projects in the route's order from position `(page - 1) * limit` on, up to `limit` of them |
| ProjectRoutes.ProjectQueryRows | src/app/api/projects/route.ts:14-63 | a page holds stored projects that pass the search and status filter, in the route's order, at most `limit` |
| ProjectRoutes.Matching | src/app/api/projects/route.ts:14-29 | exactly the ids of stored projects that pass the filter |
| ProjectRoutes.CountSelected | src/app/api/projects/route.ts:64 | the count is the number of matching projects |
| ProjectRoutes.ProjectQueryTotal | src/app/api/projects/route.ts:31-74 | `total` counts every match; a page is no larger; a large first page is all matches; `pages` is the least page count, `null` for a zero limit |
| ProjectRoutes.PostProject | src/app/api/projects/route.ts:86-155 | the status, created row and new state are the create specification |
| ProjectRoutes.AddProjectValid | src/app/api/projects/route.ts:129-145 | a fresh project under an unused URL keeps the invariant |
| ProjectRoutes.CreateProjectOutcome | src/app/api/projects/route.ts:88-147 | keeps the invariant; adds one project, under a new URL, with the owner and repository the URL names, or changes nothing with 401, 400, 409 or 500 |
| ProjectRoutes.CreateProjectRepeated | src/app/api/projects/route.ts:117-127 | repeating a successful create, by any signed-in user, is a 409 that changes nothing |
| UserIssues.GithubAccountOf | src/app/api/github/user/issues/route.ts:48-53 | the first account in row order of the user with provider "github", `None` exactly when there is none |
| UserIssues.GithubAccountFound | src/app/api/github/user/issues/route.ts:48-53 | with the row order listing every account, an account is found exactly when the user has a stored GitHub account |
| UserIssues.PickToken | src/app/api/github/user/issues/route.ts:56-59 | the first non-empty of the account token and the two server tokens |
| UserIssues.WantedLabels | src/app/api/github/user/issues/route.ts:99 | one entry per comma-separated part, trimmed and lower-cased |
| UserIssues.SliceTo | src/app/api/github/user/issues/route.ts:109 | a prefix of the list; `NaN` gives none, a non-negative end at most that many, a negative end counts from the back |
| UserIssues.UserIssuesGuards | src/app/api/github/user/issues/route.ts:13-76 | over a row order of every account: 401 without a Bearer token or a verified one; 404 without a user row; empty 200 without any GitHub token; none of these calls GitHub |
| UserIssues.DefaultPageSize | src/app/api/github/user/issues/route.ts:11 | without `per_page` the page size is 30 |
| UserIssues.IssuesForQuery | src/app/api/github/user/issues/route.ts:48-112 | over a row order of every account: the account is found exactly when the user has a stored GitHub account; GitHub gets the caller's token when they have one, else a server token; the defaults are open, updated and desc; the page size is capped at 100; a failed call is a 500 |
| UserIssues.IssuesWithQuery | src/app/api/github/user/issues/route.ts:61-112 | once a token is chosen: no token is an empty 200; otherwise GitHub gets that token, and a failed call is a 500 |
| UserIssues.BuildQueryFields | src/app/api/github/user/issues/route.ts:87-92 | the query carries the token, the defaults open, updated and desc, and a page size capped at 100 |
| UserIssues.UserIssuesShown | src/app/api/github/user/issues/route.ts:97-109 | the result is GitHub's issues in GitHub's order, at most `per_page`; with `labels`, each carries a wanted label and a large page holds all that do |
| UserIssues.LabelMatchesParts | src/app/api/github/user/issues/route.ts:100-104 | a label matches exactly when its name is non-empty and, lower-cased, equals a trimmed, lower-cased part of `labels` |
| UserIssues.LabelFilterOrder | src/app/api/github/user/issues/route.ts:100-105 | the label filter keeps GitHub's order |
| Dashboard.FirstSeen | src/utils/dashboardUtils.ts:58-63 | the distinct days, holding exactly the days counted |
| Dashboard.CountDay | src/utils/dashboardUtils.ts:49-53 | one step of the count: an existing day's count goes up by one, a new day is added with count 1, keeping the counts equal to the occurrences so far |
| Dashboard.TallyOfCounts | src/utils/dashboardUtils.ts:57-63 | the chart points built from the counts are the tally of the day keys |
| Dashboard.FetchCommitsData | src/utils/dashboardUtils.ts:34-78 | the counting pass returns the dashboard specification: empty on a fetch or date failure, otherwise the tally and the totals |
| Dashboard.DayKeysFailureSticks | src/utils/dashboardUtils.ts:44-55 | once a date fails to convert, no later commit brings the pass back |
| Dashboard.DayKeysDated | src/utils/dashboardUtils.ts:45-47 | one day key per dated commit |
| Dashboard.TallyEntries | src/utils/dashboardUtils.ts:49-63 | each point is a distinct day that occurs, counted as often as it occurs, so at least once; every day has its point |
| Dashboard.TallyTotal | src/utils/dashboardUtils.ts:49-63 | the counts add up to the number of keys |
| Dashboard.CommitsDashboardTotals | src/utils/dashboardUtils.ts:37-77 | on failure, no points and zero totals; otherwise distinct days with counts of at least 1 summing to the dated commits, and both totals equal to all commits |
| Dashboard.UndatedNotCounted | src/utils/dashboardUtils.ts:45 | a commit without an author date adds no point |
| Client.OrElse | src/app/dashboard/page.tsx:322-327 | `a \|\| b` on optional strings: filled when either is, and `a` when it is filled |
| Client.FindPull | src/app/dashboard/page.tsx:389-392 | the leftmost position of `/pull/` followed by a digit, or `None` when there is none |
| Client.ExtractPrNumber | src/app/dashboard/page.tsx:389-392 | a number exactly when the URL has `/pull/` followed by a digit; it is the value of the digits after the leftmost such match |
| Client.ExtractAt | src/app/bounties/page.tsx:351-355 | the number read is that of the digit run after the leftmost match |
| Client.PrDigitsRoundTrip | src/app/bounties/page.tsx:351-355 | digits written after `/pull/`, with no earlier match and a non-digit after them, are read back |
| Client.PrUrlRoundTrip | src/components/dashboard/BountyCard.tsx:55-58 | the decimal numeral of n written after `/pull/`, with no earlier match and a non-digit after it, is read back as n |
| Client.SubmitGating | src/components/dashboard/BountyCard.tsx:60-73 | no callback does nothing; submitted exactly when the answer is filled and its PR number is non-zero, with that URL and number; alerted exactly when filled without one |
| Client.CreateBountyGuards | src/app/dashboard/page.tsx:319-366 | nothing exactly without issue, amount or sign-in; the repository alert exactly when the derived owner or name is missing or "unknown"; a request is posted only with a token and carries the derived owner and name, the issue's number and title |
| Client.CreateFromRepositoryUrl | src/app/bounties/page.tsx:279-300 | an issue with only `repository_url` is posted under the URL's last two segments |
| Client.ReplaceByIdExact | src/app/dashboard/page.tsx:459-468 | an edit replaces exactly the entries with that id and keeps the others in place |
| Client.RemoveByIdExact | src/app/dashboard/page.tsx:500-503 | a delete removes exactly the entries with that id |
| Client.RemoveByIdAppend | src/app/bounties/page.tsx:464-467 | a delete keeps the order of the rest |
| Client.RemoveByIdAbsent | src/app/bounties/page.tsx:464-467 | deleting an absent id changes nothing |
| Client.CreateThenDelete | src/app/dashboard/page.tsx:373-374 | deleting a just-created bounty with a new id restores both lists |
| Client.UpdateThenDelete | src/app/bounties/page.tsx:423-432 | deleting after an edit is deleting before it |
| Client.SearchBlankGuard | src/app/bounties/page.tsx:265-266 | a search runs exactly when the query has a non-space character |
| Client.ShortWalletShape | src/components/dashboard/BountyCard.tsx:135-136 | a wallet of 10 or more characters is its first six, "..." and its last four |
| Client.BountyCardRules | src/components/dashboard/BountyCard.tsx:92-194 | manage buttons exactly for an ACTIVE bounty with `showManageButtons`; solver block exactly for a SOLVED bounty with a solver, named by name, username or "Anonymous"; a preview of at most 150 characters |
| Client.IssueCardRules | src/components/dashboard/IssueCard.tsx:62-110 | the installation status is shown for a signed-in user when owner and name are derived; Add Bounty only with its callback |
| Client.CardAgreesWithPages | src/components/dashboard/IssueCard.tsx:44-53 | the card and the pages derive the same owner and name whenever either is filled |
| Client.RepoLabelFromUrl | src/components/dashboard/IssueCard.tsx:92-95 | without a repository object, the label is the URL's last two segments joined by "/" |
| Listing.SortBy | src/app/api/bounties/route.ts:38 | the sort is a permutation of its input |
| Listing.SortBySorted | src/app/api/bounties/route.ts:38 | the sort output is ordered |
| Listing.Filter | src/app/api/bounties/route.ts:13-15 | the kept rows pass the filter and come from the input, and every passing row is kept |
| Listing.Page | src/app/api/bounties/route.ts:39-40 | a non-negative `take` gives the rows from `skip` on, as many as there are up to `take` |
| Listing.PagesAdjacent | src/app/api/projects/route.ts:61-62 | consecutive pages are consecutive slices |
| Listing.PageSorted | src/app/api/projects/route.ts:56-62 | a page of a sorted list is sorted |
| Listing.SelectWindow | src/app/api/bounties/route.ts:12-41 | with a non-negative `take`, a query returns the ordered matching rows from position `skip` on, up to `take` of them |
| Listing.SelectOutcome | src/app/api/bounties/route.ts:12-41 | a query returns stored, passing rows, ordered and bounded by `take`, and a large first page returns all of them |
| Listing.FilterRowsCount | src/app/api/projects/route.ts:64 | the filtered rows number the count of matches |
| Strings.Split | src/components/dashboard/IssueCard.tsx:47 | `split` never returns an empty list, and no part holds the separator |
| Strings.JoinSplit | src/components/dashboard/IssueCard.tsx:94 | joining the parts of a split gives back the string |
| Strings.SplitJoin | src/components/dashboard/IssueCard.tsx:94 | splitting a join of separator-free parts gives back the parts |
| Strings.SecondToLast | src/app/dashboard/page.tsx:324 | `slice(-2, -1)[0]` is present exactly with two or more parts, and is the second to last |
| Strings.LastTwo | src/components/dashboard/IssueCard.tsx:94 | `slice(-2)` ends in the last part, and holds the last two when there are two |
| Strings.TrimEmpty | src/app/bounties/page.tsx:266 | `trim()` is empty exactly when every character is white space |
| Strings.ToLower | src/app/api/github/user/issues/route.ts:99 | lower-casing keeps the length and maps each character |
| Strings.Prefix | src/components/dashboard/BountyCard.tsx:92 | `substring(0, n)` is a prefix of at most n characters, the whole string when shorter |
| JsValues.Or | src/lib/privy.ts:108-112 | `a \|\| b` is truthy exactly when either is, and is `a` when `a` is truthy |
| JsValues.ParseAmount | src/app/api/bounties/route.ts:149 | `parseFloat` of a number is that number |
| JsValues.DecimalStringValue | src/app/api/bounties/submissions/route.ts:75 | the decimal numeral of n denotes n |
| JsValues.ParseIntNumber | src/app/api/bounties/submissions/route.ts:75 | `parseInt` of an integer gives it back |
| JsValues.ParseIntNumeral | src/app/api/bounties/route.ts:9-10 | `parseInt` of the decimal numeral of n is n |
| JsValues.ParseIntNonNumeric | src/app/api/bounties/route.ts:127 | `parseInt` of `null`, `undefined` or a boolean is `NaN` |

## Left out

- HMAC-SHA256 is a function parameter, not an implementation. The only property assumed is that it is deterministic.
- Strings are sequences of characters, not UTF-16 code units. `Buffer.from` is modelled as UTF-8 over those characters.
- Case folding (`toLowerCase`, `mode: "insensitive"`) is ASCII-only.
- Amounts are integers. `parseFloat` of a fractional amount is not modelled (`JsValues.ParseAmount`), and `BountyRequest` leaves out the page's floating-point `bountyAmount`.
- Database failures, concurrent requests and transactions interleaving with other requests are not modelled. Requests run one at a time.
- Behaviour outside the source is assumed:
  - an unknown status enum, a `NaN` take or skip, and a negative skip make the database call throw, hence 500;
  - a negative take reads from the end, bounded by its magnitude only;
  - a new project has `isApproved` false and `voteCount` 0.
- The label stub of the issues handler only logs; the model records whether it is called (`Webhook.HandleIssueEvent`).
- The relation `include`/`select` projections of every query are not modelled. Rows are returned whole, and solver lookups return the user row.
- The installation routes' `if (!user)` 404 branch is unreachable, because the sync returns a user or throws.
- Row ids are natural numbers given out by a counter, not cuid strings. Request bodies carry them as their decimal text (`Store.IdText`).
- Payloads of the wrong shape, beyond a body that does not parse, are not modelled. The webhook reads only the fields its handlers use.
- The NextAuth session is an optional user id. Privy's token check is a function parameter.
- The GitHub API is an answer given as a parameter. The issue payload is reduced to its labels; the rest passes through unchanged.
- Date parsing and `toISOString` are the `Dashboard.DayOf` parameter. The chart's point holds the day string, not the `Date` built from it.
- `Dashboard.FetchCommitsData` assumes `Object.entries` returns keys in insertion order, which holds for `YYYY-MM-DD` keys.
- `Client.ExtractPrNumber` returns the exact value of the digits. `parseInt` loses precision above 2^53.
- `prompt`, `alert`, state setters and rendering are modelled as returned values (`SubmitStep`, `CreateStep`, card views).
- Left out as not part of the server core: `formatMemberSince`, the client-side fetch wrappers, Solana token claims and the remaining UI.
- The pull-request regular expression matches `/pull/<digits>` anywhere in the URL, including inside the owner or repository name. The model keeps this leftmost-match behaviour.
