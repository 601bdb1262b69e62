# Relationships, sessions and photos of Kupidon

Kupidon is a NestJS dating backend over MongoDB, Redis and an S3 bucket. It uses no database transactions, so what
holds of its data rests on the order of its writes, on unique indexes and on atomic scripts. This project models those
parts and proves what they promise, for every database, every run and every crash.

- **Relationship migration** (`MigrationSpec`, `MigrationSteps`, `MigrationTheorems`, `MigrationLog`, `Grouping`,
  `UniqueRelationships`). `Target(db)` is the database the clean-up of duplicate likes, matches and dialogs is meant to
  leave, in closed form. The class performs the command's loops over the four collections, and its `Apply` ends in
  exactly that database. Each write is logged with the state it leaves. `Due` says which write comes after which, in which
  state, and every log of due writes is proved to be `Resumable` after each of them: starting again reaches the same
  documents, references and message homes. `CrashIsExact` says after which writes, and for which documents, a crash leaves
  fields out of date for good.
- **Like, match, dialog** (`MatchProtocol`, `MatchService`, `Lifecycle`). Each `likeUser` and `createDialog` call is a
  small program; calls interleave and die between any two database operations while blocks come and go. The methods
  are proved to perform executions of this machine, so its theorems are theirs.
- **One-time codes** (`OtpScripts`, `OtpTraces`, `OtpRequests`, `OtpCodes`, `OtpBursts`). The two Lua scripts over a key
  space with expiries. Every answer of either script is proved to be a function of the history of requests, and counting
  theorems bound requests, wrong guesses and acceptances over all runs.
- **Photos in two stores** (`PublicUrls`, `PhotoProtocol`, `UploadService`, `OrphanSweep`, `SweepProtocol`). Lists in the
  database, objects in the bucket; any call may fail, with or without having taken effect, and any process may die. A
  listed photo lacks its object if and only if a rollback deleted it after a `$push` that failed but took effect. The
  sweep restores equality. Beside other requests, uploads included, the list its audit ends with decides: going on is
  harmless exactly when nothing on it is listed by a user or on its way there; uploads kept away from the audit suffice.
- **Dialogs and accounts** (`DialogMessages`, `AccountDeletion`), **the socket rate limiter** (`RateLimiter`),
  **refresh tokens** (`AuthSessions`), **pattern escaping** (`RegexEscape`) and **the compatibility score**
  (`Compatibility`).

Every single operation on a store is one atomic step. Times, new ids, uuids, codes, the outcomes of store calls and the
server's listing order are parameters, universally quantified. ObjectIds are natural numbers: only their order matters.
Hashes of phones, addresses and tokens are taken to be injective.

## What the code does differently from what it says

- `src/migrations/unique-relationships.command.ts:199-210` groups only keys carried twice, so a lone match in descending
  order stays as it is (`Lifecycle.DescendingAfterMigration`). `src/match/match.service.ts:75-79` upserts the ascending
  order and its unique index compares the order too, so the next mutual like of that pair adds a second match. This
  happens exactly for such pairs (`Lifecycle.LikeAfterMigration`), and `Lifecycle.NextLikeDoublesMatch` gives the run.
- Rerunning the migration after a crash is complete for documents and references but not for every field: between the
  deletion of a lone match's duplicate dialogs and the update of the survivor (line 140), and between the deletion of
  duplicate matches and the update of the survivor (line 103), a crash leaves no duplicate behind for the rerun to find.
  Fields are lost exactly when the document left there was out of date (`MigrationLog.CrashIsExact`); every complete run
  on the databases of `UniqueRelationships.DialogWindowLosesFields` and `MatchWindowLosesFields` passes such a state.
- `src/users/users.service.ts:526-561` reads the dialogs first and deletes in parallel. If it dies with the dialogs gone
  and the messages not, a rerun no longer finds those messages (`AccountDeletion.RerunErasesAccount`, with a database in
  `AccountDeletion.MessageLeftBehind`).
- `src/upload/upload.service.ts:74-81` rolls uploads back when the `$push` fails. If that write had taken effect, each
  object the rollback deletes leaves a dangling URL (`PhotoProtocol.LinkedIffNothingLost`, with a run in
  `PhotoProtocol.LostPushRun`). No other failure does (`PhotoProtocol.NoLostPushKeepsLinked`), and losing the push is
  harmless, whatever the rollback does, only for a request without photos (`PhotoProtocol.LostPushIsHarmlessIffEmpty`).
- `src/storage/orphan-photos.command.ts:84-112` lists, reads and deletes while requests may go on. One upload within the
  audit, after its user's list was read, loses its photo although every call succeeds
  (`SweepProtocol.OneUploadCanLoseItsPhoto`). Uploads during the deletions are harmless, as are deletions, reorders and
  rollbacks at any time (`SweepProtocol.SweepIsHarmlessIffAuditIsFree`); for a single audit that uploads do overlap,
  `SweepProtocol.FirstAuditDecides` gives the exact condition.
- A fixed window lets more than the configured number of requests through in some intervals as long as the window. For a
  phone this happens exactly when the limit is at least 2 and limit · cooldown is less than the window
  (`OtpBursts.LimitExceededIff`); exactly how many requests can succeed, for all settings, is in
  `OtpBursts.SuccessesInWindow`; from one address it is always one less than twice the limit, because several phones may
  ask at one moment (`OtpBursts.SuccessesFromAddress`).
- `src/users/users.service.ts:443-470` counts the repeated interests and goals of one user only. The score depends on who
  asks unless the surpluses on both sides cancel out, which lists without repeats always do
  (`Compatibility.ScoreIsSymmetricIff`, with profiles of both kinds in `Compatibility.RepeatsBreakSymmetry`).

## Model

| member | source | states |
|---|---|---|
| Documents.CanonicalPair | src/migrations/unique-relationships.command.ts:23-30 | the result is ordered and consists of the two users given |
| UniqueRelationships.UniqueRelationshipsMigration.Apply | src/migrations/unique-relationships.command.ts:59-73 | from any database the run ends in the closed-form target; likes, user pairs and dialogs of matches are then unique; the log of due writes leads from the start to the end; it fails exactly when, at the start, a matchId without a match document was carried by two dialogs; success creates the three indexes and failure none, and the counts reported are exact |
| UniqueRelationships.UniqueRelationshipsMigration.Run | src/migrations/unique-relationships.command.ts:233-272 | `--apply` ends in the target and exits with 0 or, exactly for orphan duplicates, with 1; `--rollback-indexes` leaves none of the three indexes and no change of data; otherwise nothing changes and the exit code says whether all keys are unique |
| UniqueRelationships.UniqueRelationshipsMigration.RemoveDuplicateLikes | src/migrations/unique-relationships.command.ts:83-88 | afterwards no two likes have the same sender and the same receiver, and every write on the way was due |
| UniqueRelationships.UniqueRelationshipsMigration.MergeDuplicateMatches | src/migrations/unique-relationships.command.ts:90-109 | afterwards no two matches join the same two users, no group is half merged, and every write on the way was due |
| UniqueRelationships.UniqueRelationshipsMigration.MergeGroup | src/migrations/unique-relationships.command.ts:92-107 | of the matches of one pair the oldest is left, with its users in order |
| UniqueRelationships.UniqueRelationshipsMigration.MergeDuplicateDialogs | src/migrations/unique-relationships.command.ts:111-119 | afterwards no existing match has two dialogs; the rest as above |
| UniqueRelationships.UniqueRelationshipsMigration.ConsolidateDialogs | src/migrations/unique-relationships.command.ts:121-161 | the dialogs of the given matches are settled at their final value, dialogs of other matches are untouched, and every write was due |
| UniqueRelationships.UniqueRelationshipsMigration.FindDialogs | src/migrations/unique-relationships.command.ts:127-130 | exactly the dialogs of the given matches, once each, by ascending id |
| UniqueRelationships.UniqueRelationshipsMigration.FindLastMessage | src/migrations/unique-relationships.command.ts:143-146 | nothing exactly when the dialog has no message; otherwise one of its messages, and every other one was created earlier, or at the same time with a smaller id |
| UniqueRelationships.UniqueRelationshipsMigration.Audit | src/migrations/unique-relationships.command.ts:45-57 | each count is documents minus distinct keys, never negative, and zero exactly when no key is carried twice |
| UniqueRelationships.UniqueRelationshipsMigration.CreateIndexes | src/migrations/unique-relationships.command.ts:163-176 | may only run on unique collections, and then adds the three indexes |
| Grouping.DuplicateGroups | src/migrations/unique-relationships.command.ts:199-211 | the groups are exactly the keys carried by several documents, each key once, each with all its documents |
| Grouping.ExtraDocumentsCount | src/migrations/unique-relationships.command.ts:219-221 | the sum over any such grouping is documents minus distinct keys |
| Ordering.SortedIds | src/migrations/unique-relationships.command.ts:213-217 | an ascending permutation of the ids |
| MigrationTheorems.TargetIsClean | src/migrations/unique-relationships.command.ts:59-73 | the target of any database has one like per direction, one match per pair and one dialog per existing match |
| MigrationTheorems.CleanIsFinal | src/migrations/unique-relationships.command.ts:59-73 | a database that is already clean is its own target |
| MigrationTheorems.SecondRunChangesNothing | src/migrations/unique-relationships.command.ts:59-73 | running on the result of a run changes nothing |
| MigrationTheorems.IncompleteExactlyForOrphans | src/migrations/unique-relationships.command.ts:64-69 | the final dialogs are unique by match if and only if no missing match had two dialogs at the start |
| MigrationTheorems.MessagesConserved | src/migrations/unique-relationships.command.ts:135-139 | no message is lost, created or altered but in its dialog, and messages of one dialog stay together |
| MigrationTheorems.MessagesFollowTheirPair | src/migrations/unique-relationships.command.ts:90-140 | a message under any match of a pair ends in an existing dialog of that pair's oldest match |
| MigrationTheorems.RewrittenDialogIsUpToDate | src/migrations/unique-relationships.command.ts:143-160 | a consolidated dialog is active, lies under its pair's surviving match, names that match's users in order and points at its message created last, by id among equal times, or at none when it has none; any other dialog is unchanged |
| MigrationTheorems.RewrittenIffDuplicated | src/migrations/unique-relationships.command.ts:199-211 | a dialog is consolidated if and only if its pair had a second match or a second dialog |
| MigrationTheorems.OldestLikeSurvives | src/migrations/unique-relationships.command.ts:83-88 | a like stays, unaltered, if and only if it is the oldest of its direction |
| MigrationTheorems.OldestMatchSurvives | src/migrations/unique-relationships.command.ts:90-109 | a match stays if and only if it is the oldest of its pair, and keeps its pair |
| MigrationTheorems.OldestDialogSurvives | src/migrations/unique-relationships.command.ts:127-140 | a dialog of an existing match stays if and only if it is the oldest of its pair; dialogs of missing matches all stay |
| MigrationTheorems.LoneMatchUntouched | src/migrations/unique-relationships.command.ts:199-210 | a match without a duplicate keeps its order of users, one with a duplicate is put in ascending order |
| MigrationTheorems.MigrationKeepsWellFormed | src/migrations/unique-relationships.command.ts:59-161 | closed references, dialogs that join their match's users and senders who take part survive the migration |
| MigrationTheorems.ResumeKeepsSkeleton | src/migrations/unique-relationships.command.ts:59-161 | a run from any crash state ends with the same documents, pairs, dialog matches and message homes as an uninterrupted one |
| MigrationTheorems.ResumeIsExact | src/migrations/unique-relationships.command.ts:103-160 | a run resumed from a state whose one possibly stale document is named ends in the very same database if and only if that document was already up to date |
| MigrationLog.LogIsResumable | src/migrations/unique-relationships.command.ts:83-161 | after every write of every log of due writes, whatever the order of the groups, the run can be resumed |
| UniqueRelationships.RunEnds | src/migrations/unique-relationships.command.ts:59-73 | every log of due writes that rests in a clean database has come to the target, whatever the order of the groups |
| MigrationLog.CrashIsExact | src/migrations/unique-relationships.command.ts:83-161 | a crash after the n-th logged write costs fields if and only if that write deleted the duplicate dialogs of a lone match whose surviving dialog is out of date, or the duplicates of a match with descending users |
| MigrationLog.WindowClosesNext | src/migrations/unique-relationships.command.ts:103-160 | the very next write after the deletion of duplicate dialogs or matches brings the survivor up to date |
| MigrationLog.RestartedRuns | src/migrations/unique-relationships.command.ts:59-161 | any number of runs, each begun where the one before died after some write, reach the same skeleton, and closed references stay closed |
| MigrationTheorems.RepeatedCrashes | src/migrations/unique-relationships.command.ts:59-161 | the same, for any chain of states each of which can be resumed for the one before |
| UniqueRelationships.DialogWindowLosesFields | src/migrations/unique-relationships.command.ts:136-160 | a database on which every complete run passes, after its second write, a state from which a rerun leaves a dialog without the last message that an uninterrupted run sets |
| UniqueRelationships.MatchWindowLosesFields | src/migrations/unique-relationships.command.ts:103-107 | a database on which every complete run passes, after its first write, a state from which a rerun leaves a match descending that an uninterrupted run puts in order |
| MigrationSteps.MessagesRepointed | src/migrations/unique-relationships.command.ts:136-139 | moving messages within a class of dialogs leaves the target as it is |
| MigrationSteps.DialogsDeleted | src/migrations/unique-relationships.command.ts:140 | deleting emptied duplicates leaves the target as it is, but for the survivor when its match was alone |
| MigrationSteps.SurvivorUpdated | src/migrations/unique-relationships.command.ts:160 | writing the consolidated value changes at most the survivor in the target, and nothing if it was still to be rewritten |
| MigrationSteps.MatchesDeleted | src/migrations/unique-relationships.command.ts:103 | deleting duplicate matches changes only the survivor's order in the target, and orphans no settled dialog |
| MigrationSteps.MatchUpdated | src/migrations/unique-relationships.command.ts:104-107 | reordering a lone match's users changes only that match in the target |
| MatchProtocol.StepKeepsInv | src/match/match.service.ts:32-95 | each atomic step of each call keeps the invariant, and only adds documents |
| MatchProtocol.Safety | src/match/match.service.ts:32-104 | in every interleaving with crashes: one like per direction, one match per pair, one dialog per match, both likes behind each match, each dialog joins its match's users |
| MatchProtocol.MutualLikesMatch | src/match/match.service.ts:43-63 | if both users' likes complete, at least one returns a match, and a match of the pair with a dialog exists |
| MatchProtocol.MatchedAgree | src/match/match.service.ts:66-95 | all non-null results for a pair, at any two moments of a run, name the same match and dialog |
| MatchProtocol.RepeatedLikeRepairs | src/match/match.service.ts:70-73 | once a match exists, a later completed like by either user returns it, unchanged, with a dialog that exists |
| MatchProtocol.StoreGrows | src/match/match.service.ts:43-92 | no run of likes and dialog creations removes or alters a document |
| MatchProtocol.UpsertKeepsPairUnique | src/match/schemas/match.schema.ts:24-27 | the match upsert keeps one match per pair if and only if the pair has none in descending order |
| MatchService.MatchService.LikeUser | src/match/match.service.ts:32-64 | performs an execution of the protocol, which ends with the call's result; undisturbed, it is rejected exactly when a block of either user against the other exists, adds the like unless it is there, matches exactly when the other's like is there, and then finds or inserts one match and one active dialog and changes nothing else |
| MatchService.MatchService.EnsureMatchWithDialog | src/match/match.service.ts:66-95 | the match of the two users in ascending order and a dialog of it, each found as it is or inserted, and nothing else changed |
| MatchService.MatchService.CreateDialog | src/dialog/dialog.service.ts:223-259 | performs an execution of the protocol; undisturbed, it yields a dialog of the match exactly for a participant of an existing match between whose users no block exists in either direction, and inserts one only when there is none |
| MatchService.MatchService.UpsertMatch | src/match/match.service.ts:75-79 | finds the match of the ordered pair or inserts it, and changes nothing else |
| MatchService.MatchService.UpsertDialog | src/match/match.service.ts:81-92 | finds the match's dialog as it is or inserts an active one |
| Lifecycle.ProtocolKeepsWellFormed | src/match/match.service.ts:66-95 | likes and dialog creations keep what account deletion relies on |
| Lifecycle.DescendingAfterMigration | src/migrations/unique-relationships.command.ts:199-210 | a match is in descending order after the migration if and only if it was so before and alone in its pair |
| Lifecycle.LikeAfterMigration | src/match/match.service.ts:74-79 | after the migration a like keeps one match per pair if and only if the pair had no lone match in descending order |
| Lifecycle.NextLikeDoublesMatch | src/match/match.service.ts:32-79 | in every database with a lone descending match of two users who like each other, one like of theirs after the migration, undisturbed, runs into a second match of the pair |
| Lifecycle.SecondMatchAfterMigration | src/match/match.service.ts:32-79 | such a database, and the run from one match per pair to two |
| OtpService.OtpService.GenerateOtp | src/otp/otp.service.ts:97-131 | a code is issued exactly when the phone is not cooling down and both counters are below their limits; both count the request unless it cooled down; an issue stores code and cooldown for their spans and clears attempts and lock; the key space is the script's |
| OtpService.OtpService.Validate | src/otp/otp.service.ts:150-177 | valid exactly for the live code of a phone that is not locked; too many attempts exactly when the lock is live or this wrong guess reaches the limit; what each verdict does to the keys; the key space is the script's |
| OtpRequests.RefusalsRefineHistory | src/otp/otp.service.ts:16-21 | a request is cooling down if and only if the phone was issued a code less than the cooldown ago, and otherwise succeeds if and only if the phone's and the address's present windows hold no more than their limits |
| OtpRequests.RefusedOnlyOverLimit | src/otp/otp.service.ts:17-21 | a refusal for too many requests means more than the limit was asked in less than a window |
| OtpTraces.WindowBound | src/otp/otp.service.ts:17-21 | in any interval as long as the window, for one phone or from one address across phones, fewer than twice the limit succeed |
| OtpBursts.SuccessesInWindow | src/otp/otp.service.ts:15-26 | for all settings, n requests of a phone can succeed in such an interval if and only if n is less than twice the limit and (n - 1) · cooldown is less than the window |
| OtpBursts.LimitExceededIff | src/otp/otp.service.ts:15-26 | some run exceeds the limit in such an interval if and only if the limit is at least 2 and limit · cooldown is less than the window |
| OtpBursts.WindowBoundIsReached | src/otp/otp.service.ts:15-26 | some run reaches one less than twice the limit if and only if (2 · limit - 2) · cooldown is less than the window |
| OtpBursts.SuccessesFromAddress | src/otp/otp.service.ts:15-26 | for all settings, n requests from an address can succeed in such an interval if and only if n is less than twice the limit |
| OtpBursts.SuccessesApart | src/otp/otp.service.ts:16-22 | n successes for a phone take at least n - 1 cooldowns |
| OtpTraces.LifetimeBound | src/otp/otp.service.ts:17-21 | at most the limit succeed within one counter lifetime |
| OtpTraces.WindowHolds | src/otp/otp.service.ts:17-21 | every run keeps the relation between a stored counter, live or expired, and the successes it stands for |
| OtpCodes.IssuesApart | src/otp/otp.service.ts:16-22 | two successful issues for a phone are at least the cooldown apart |
| OtpCodes.CodeHolds | src/otp/otp.service.ts:22-43 | in every run, the code, attempts and lock keys of a phone are those its history determines |
| OtpCodes.AttemptsOutliveCode | src/otp/otp.service.ts:36-37 | while a code lives, its counter lives and equals the wrong guesses compared with it |
| OtpCodes.ValidationRefinesHistory | src/otp/otp.service.ts:28-44 | each answer from the history alone: accepted if and only if the guess is the code of the phone's latest issue, unexpired, with no acceptance or lockout since; likewise blocked, wrong and locked out |
| OtpCodes.VerdictRefinesHistory | src/otp/otp.service.ts:166-176 | so is what the caller is told: valid if and only if the guess is that code, too many attempts if and only if the phone is locked or this guess is the last one allowed |
| OtpCodes.AcceptedOnce | src/otp/otp.service.ts:32-35 | between two acceptances for a phone a new code was issued |
| OtpCodes.WrongPerIssueBound | src/otp/otp.service.ts:36-42 | at most `maxVerifyAttempts` wrong guesses are ever compared with one issued code |
| OtpCodes.WrongGuessBound | src/otp/otp.service.ts:15-44 | at most 2 · `maxRequestsPerWindow` · `maxVerifyAttempts` wrong guesses are compared for a phone in an interval as long as the window |
| PublicUrls.KeyIffPublicUrl | src/storage/storage.service.ts:126-136 | a URL has a key if and only if it is that key's public URL |
| PublicUrls.SweepReadsLikeService | src/storage/orphan-photos.command.ts:13-16 | the sweep's reading of URLs agrees with the service's and inverts it, with or without a trailing slash on the base |
| PublicUrls.PrefixesDisjoint | src/users/users.service.ts:555 | no key lies under the prefixes of two users |
| PhotoProtocol.StepKeepsInv | src/upload/upload.service.ts:27-225 | every store call of every request, done, failed, or failed after taking effect, keeps objects unshared, counts within five and lists linked but for the keys lost to rollbacks of listed photos |
| PhotoProtocol.PhotosStayLinked | src/upload/upload.service.ts:27-225 | in every interleaving of different users' requests with failures, lost effects and deaths, a listed photo lacks its object if and only if the rollback after a lost push deleted it, and no list exceeds five |
| PhotoProtocol.LinkedIffNothingLost | src/upload/upload.service.ts:27-225 | in every state of every run the lists are linked if and only if no such key is still listed |
| PhotoProtocol.NothingLost | src/upload/upload.service.ts:138-150 | nothing is lost in a run whose rollbacks of listed photos delete nothing |
| PhotoProtocol.NoLostPushKeepsLinked | src/upload/upload.service.ts:27-225 | in every run in which no push fails after taking effect, every list is linked in every state, whatever else fails and whoever dies |
| PhotoProtocol.ReorderIsPermutation | src/upload/upload.service.ts:200-222 | an accepted order without repeats is a permutation of the list; for a list without repeats, exactly those orders are |
| PhotoProtocol.LostPushIsHarmlessIffEmpty | src/upload/upload.service.ts:74-81 | before the push: losing it is harmless for every outcome of the rollback if and only if no photo is uploaded |
| PhotoProtocol.LostPushBreaksLink | src/upload/upload.service.ts:74-81 | with the rollback known: the lists stay linked if and only if it deletes nothing |
| PhotoProtocol.LostPushRun | src/upload/upload.service.ts:56-81 | a run from an empty list to a dangling URL: one photo stored, its push lost, its object rolled back |
| UploadService.UploadService.UploadPhotos | src/upload/upload.service.ts:27-86 | performs an execution of the protocol; refused exactly beyond five photos; either all photos are stored under `users/<user>/<uuid>.jpg` and their URLs appended in order, or an error is reported and the list is as before unless the failed push took effect; which error, and exactly which objects remain, for every failing put and for the push |
| UploadService.UploadService.StorePhotos | src/upload/upload.service.ts:55-72 | succeeds exactly when every put does; otherwise the photos before the first failure remain as far as the rollback fails, and the failed one if its put took effect |
| UploadService.UploadService.SavePhotos | src/upload/upload.service.ts:74-81 | succeeds exactly when the push does; otherwise the list has the URLs if and only if the push took effect, and the rollback deletes only their objects |
| UploadService.UploadService.RollbackUploads | src/upload/upload.service.ts:138-150 | only objects of the given URLs are deleted, as far as the bucket manages |
| UploadService.UploadService.DeletePhoto | src/upload/upload.service.ts:152-186 | performs an execution of the protocol; a pull that took effect removes that URL and leaves the others in their order with their multiplicities, no other list changes, and after a successful one exactly the URL's object goes if the bucket deletes it |
| UploadService.UploadService.ReorderPhotos | src/upload/upload.service.ts:188-225 | performs an execution of the protocol; the list changes only to an accepted order, and no object changes |
| OrphanSweep.SweepRestoresEquality | src/storage/orphan-photos.command.ts:84-112 | when the lists are linked, the objects under `users/` are afterwards exactly the referenced ones, lists are still linked and a second sweep finds nothing |
| OrphanSweep.SweepKeepsReferenced | src/storage/orphan-photos.command.ts:84-112 | on any two stores a sweep keeps exactly the referenced user objects there are, and lists are linked afterwards if and only if they were before |
| OrphanSweep.SweepAfterRun | src/storage/orphan-photos.command.ts:99-112 | after any run of photo requests, with whatever failures, once none is under way, what a sweep leaves are the referenced objects but for those lost to rollbacks of listed photos |
| OrphanSweep.SweepMustRunAlone | src/storage/orphan-photos.command.ts:84-112 | taken as one step beside requests under way, a sweep keeps the invariant if and only if no upload has an unlisted user object stored |
| SweepProtocol.AuditWithoutUploadsIsHarmless | src/storage/orphan-photos.command.ts:48-112 | listing page by page, reading user by user and deleting batch by batch, interleaved with any requests, a sweep takes no listed photo's object as long as no upload is under way while it audits |
| SweepProtocol.OneUploadCanLoseItsPhoto | src/storage/orphan-photos.command.ts:48-112 | from any state without requests and for any user with room, a run in which a single upload begins and ends within the audit, every call succeeds and the new photo's object is deleted |
| SweepProtocol.SweepIsHarmlessIffAuditIsFree | src/storage/orphan-photos.command.ts:48-112 | from any such state, for each set of phases, audit and deletion, that uploads may overlap: all interleavings are harmless if and only if the audit is not among them |
| SweepProtocol.AuditDecides | src/storage/orphan-photos.command.ts:89-109 | once the audit is over, every way to go on, uploads included, is harmless if and only if no key to be deleted is on a list or in an upload under way |
| SweepProtocol.FirstAuditDecides | src/storage/orphan-photos.command.ts:48-112 | so it is in every run, with uploads at any time, when the first audit is over |
| OrphanSweep.OrphanPhotosSweep.Apply | src/storage/orphan-photos.command.ts:99-112 | when every batch succeeds an object stays exactly if it is no user object or some listed URL is its public URL; a part of the others goes when one fails, nothing else ever; no call names more than a thousand keys |
| OrphanSweep.OrphanPhotosSweep.Audit | src/storage/orphan-photos.command.ts:84-97 | lists exactly the unreferenced user objects, each once, with the two totals |
| OrphanSweep.OrphanPhotosSweep.ListKeys | src/storage/storage.service.ts:105-124 | whatever the page sizes, the paged loop returns every key of the prefix once |
| OrphanSweep.OrphanPhotosSweep.ListReferencedKeys | src/storage/orphan-photos.command.ts:69-82 | exactly the keys that some user's list refers to |
| OrphanSweep.FindOrphanKeys | src/storage/orphan-photos.command.ts:18-23 | exactly the stored keys nobody refers to, once each if the listing is |
| OrphanSweep.Chunk | src/storage/orphan-photos.command.ts:25-31 | the chunks concatenate to the items, hold 1 to `size` of them, and all but the last are full |
| MessagePages.WalkReturnsEverythingOnce | src/dialog/dialog.service.ts:87-90 | a finished walk by cursor, with any limits and with messages arriving between pages, has every message of the start exactly once and in ascending order |
| MessagePages.WalkTerminates | src/dialog/dialog.service.ts:135-137 | each cursor is below the one before, so a walk has at most two pages more than its first cursor's value |
| MessagePages.PageOfNewest | src/dialog/dialog.service.ts:126-137 | fetching one more than the limit gives the page of the newest, whether there are more and the cursor to go on from |
| DialogService.DialogService.GetMessages | src/dialog/dialog.service.ts:91-160 | answers exactly a participant of the active dialog when no block exists in either direction; the items are messages of the dialog before the cursor with their sender, time and text and whether they are the reader's, oldest first; what is left out is older; there is more exactly when more than the limit would match, and then the page is full and the cursor is its first id |
| DialogService.ClientShowsEverythingOnce | src/dialog/dialog.service.ts:87-90 | a client that prepends answer to answer until there is no more shows every message of the start exactly once and in ascending order, whatever was sent meanwhile |
| DialogService.DialogService.SendMessage | src/dialog/dialog.service.ts:162-221 | adds the message exactly for a participant of the active dialog when no block exists in either direction; the dialog points at it, nothing else changes, and well-formedness is kept |
| DialogService.DialogService.UpdateLastMessage | src/dialog/dialog.service.ts:354-361 | a missing dialog is left missing, an existing one changes only its last message |
| AccountDeletion.AnyOrder | src/users/users.service.ts:543-553 | the five parallel deletions give the same result in any order, and any part of them removes the same documents |
| AccountDeletion.CascadeIsComplete | src/users/users.service.ts:537-553 | no trace remains if and only if each message of the user lay in a dialog of theirs |
| AccountDeletion.CascadeKeepsWellFormed | src/users/users.service.ts:537-553 | in a well-formed database no trace remains and references stay closed |
| AccountDeletion.RerunAfterCrash | src/users/users.service.ts:526-553 | after a death with any subset of the five deletions done, a rerun leaves no trace of the user unless the dialogs were gone, the messages not and the user had sent some |
| AccountDeletion.RerunErasesAccount | src/users/users.service.ts:526-561 | after a death anywhere, in the collections, the objects or before the user record, a rerun ends exactly where an uninterrupted deletion would have, unless the dialogs were gone, the messages not and some message lay in a dialog of the user |
| AccountDeletion.MessageLeftBehind | src/users/users.service.ts:543-553 | a well-formed database and a death after which a rerun leaves a message of the user |
| AccountDeletion.UsersService.DeleteAccount | src/users/users.service.ts:526-561 | an unknown user changes nothing; otherwise the user, their documents and the objects under their prefix go and nothing else, in whatever order the deletions take effect; a well-formed database keeps no trace and stays well formed |
| AccountDeletion.OtherPhotosKept | src/users/users.service.ts:555-558 | no other user's photo lies under the deleted prefix |
| RateLimiter.WsRateLimiter.TryConsume | src/gateway/ws-rate-limiter.ts:12-26 | the pruned list decides as the full history since the last reset would: refused if and only if `maxEvents` were accepted less than the window ago; the list never exceeds `maxEvents`, no interval as long as the window holds more acceptances, and other keys are untouched |
| RateLimiter.WsRateLimiter.Reset | src/gateway/ws-rate-limiter.ts:28-30 | forgets this key's history and no other's |
| RateLimiter.WindowBound | src/gateway/ws-rate-limiter.ts:12-26 | no half-open interval as long as the window holds more than `maxEvents` acceptances |
| RateLimiter.PrunedTwice | src/gateway/ws-rate-limiter.ts:14-16 | pruning now does not change what is recent at any later time |
| RateLimiter.RecentMeans | src/gateway/ws-rate-limiter.ts:14-16 | pruning keeps exactly the events less than the window ago, each as often as it occurred |
| AuthSessions.RefreshAcceptsLatestOnly | src/auth/auth.service.ts:59-111 | over every run a token is accepted if and only if it is the one most recently issued to its user by sign-in or refresh, unexpired, with no logout or deletion since |
| AuthSessions.OneSession | src/auth/auth.service.ts:88-98 | two token values that a refresh would accept for a user in one state of a run, at whatever times, are equal, and are the latest one issued |
| AuthSessions.RotatedTokenIsDead | src/auth/auth.service.ts:100-103 | a rotated token is refused ever after, unless the same value was signed again in the same second |
| AuthSessions.StoredIsLatest | src/auth/auth.service.ts:48-103 | the stored token of a user is the latest issued one that nothing has ended |
| AuthService.AuthService.VerifyOtp | src/auth/auth.service.ts:28-57 | one sign-in step of a run; a token is issued if and only if the code was valid, it is a refresh token of the phone's user that expires after the lifetime, it replaces the stored one, a user is created only for a phone without one, and phones stay unique |
| AuthService.AuthService.RefreshToken | src/auth/auth.service.ts:59-111 | one refresh step of a run; each rejection with its reason, success exactly for the stored unexpired refresh token, which is then replaced by a new one of the same user and phone; a rejection changes nothing |
| AuthService.AuthService.LogOut | src/auth/auth.service.ts:139-154 | one logout step of a run; the stored token is gone, no other user changes, and an unknown user is an error |
| RegexEscape.EscapeThenRead | src/reference/reference.service.ts:20-22 | reading the escaped string as a pattern succeeds and yields exactly the input's characters (SyntaxCharacter and IdentityEscape, section 22.2.1 of ECMA-262) |
| RegexEscape.EscapeIsInjective | src/reference/reference.service.ts:20-22 | different inputs give different patterns |
| RegexEscape.EscapedIsSyntax | src/reference/reference.service.ts:21 | the escaped class is exactly the syntax characters |
| RegexEscape.UnchangedIffPlain | src/reference/reference.service.ts:20-22 | an input is left as it is if and only if it reads as itself without a backslash |
| Compatibility.CalculateCompatibility | src/users/users.service.ts:440-523 | the total is the sum of the four parts rounded to nearest, 5 to 100 and within 1 of the sum of the rounded factors; the age tiers at 5, 10 and 15 years, the distance tiers at 10, 50 and 100 km, and the recommendation belong to the exact values |
| Compatibility.ScoreIsSymmetricIff | src/users/users.service.ts:443-503 | for all profiles, the score does not depend on who asks if and only if the surpluses of common interests and of common goals, counted with repeats and weighted, cancel out |
| Compatibility.ShareIsSymmetricIff | src/users/users.service.ts:443-470 | one share does not depend on who asks if and only if both users count as many common items |
| Compatibility.ScoreIsSymmetric | src/users/users.service.ts:443-503 | for lists without repeats the score does not depend on who asks |
| Compatibility.RepeatsBreakSymmetry | src/users/users.service.ts:443-453 | profiles with repeats whose scores differ, and others whose scores agree |
| Compatibility.FullShareIffSameItems | src/users/users.service.ts:443-470 | for lists without repeats a share is full if and only if both name the same non-empty set |
| Compatibility.ShareBounds | src/users/users.service.ts:448-453 | a share lies between nothing and its weight |
| Compatibility.ShareMeans | src/users/users.service.ts:443-453 | a share is the weight times the places of the first list whose item the second has, over the length of the longer list |

## Left out

- Real MongoDB, Redis, S3, JWT and AES-GCM behaviour: each store operation is one atomic step. A `deleteMany` or `updateMany` that stops half-way, unique-index violations under concurrent upserts and eviction of keys are not modelled; a Redis key is gone exactly at its expiry, counted in milliseconds.
- OrphanSweep.SweepMustRunAlone: the sweep is one step there; the sweep that takes its time is `SweepProtocol`, where a page lists any stored keys, those stored throughout are all listed, and a new uuid makes a key the sweep has not met.
- Fields that no property speaks about: `created_at` and `updated_at` other than a message's creation time, message ciphertext parts (one opaque string), user profiles.
- UniqueRelationships.UniqueRelationshipsMigration.Apply: writers running beside the migration are not modelled; the command is meant for a quiet database.
- MatchProtocol.Safety: self-likes are excluded, because `likeUser` does not reject them and its callers must; deletions of accounts or matches beside likes are not part of the machine.
- PhotoProtocol.PhotosStayLinked: assumes one request per user at a time; a concurrent delete and reorder of one user can leave a dangling URL.
- AccountDeletion.UsersService.DeleteAccount: store calls succeed here and no other writer runs beside it; deaths part of the way are in `RerunErasesAccount`, and `DeleteObjects` refusing more than 1000 keys in one call is not modelled.
- DialogService.DialogService.SendMessage: one send at a time; under concurrent sends `lastMessage` need not be the newest. The read back of the stored message, encryption and `populate` are left out.
- DialogService.DialogService.GetMessages: limits of at least 1, as the controller validates; every message's sender document is taken to exist.
- AuthSessions.RefreshAcceptsLatestOnly: each call is one atomic step; a refresh racing with a logout is not modelled.
- OtpService.OtpService.GenerateOtp: the random code, the development fixed code and sending the SMS are not modelled; the code is a parameter.
- Compatibility.CalculateCompatibility: exact real arithmetic, no floating-point rounding; the distance is compared in squared form and ages are numbers.
- Image processing: rejects a request before any store is touched.
- Controllers, guards, interceptors, geo search, listings and projections, reference lists, seeding, configuration, reports, the gateway beyond its limiter: wiring or queries without a state property.
