# Verification of the settings service

A Dafny model of the Rust `settings-service` under `demo/k3s/services/settings-service`, with
proofs of what its design promises. `dafny verify dfyconfig.toml` checks the whole project.

The service stores JSON settings in one table keyed by (tenant, user or tenant scope, key). A
mutation reads the rows of a key in one SQL statement, computes the next aggregate, and writes
it with one conditional SQL statement that compares the version; a decorator then emits a
notification. Around that stand a JSON merge patch, a paged search with Link headers, entity
tags, a rate limiter, a cache of signing keys and a store of revoked sessions.

## How the model is built

- `settings_table.dfy` has the table by identity and the effect of each statement;
  `settings_rules.dfy` has the decisions, and `Execute`, a whole request run with nothing in
  between: the sequential specification. `preconditions.dfy` tabulates what it answers.
- `pg_settings.dfy` (over `sql_rows.dfy`) and `settings_service.dfy` are the classes of the
  source: a repository that mutates a set of rows with the unique index, the service, and the
  notifying decorator. Their methods are proved against `Execute`.
- `protocol.dfy` is the concurrent system: any number of requests, each a sequence of find,
  conditional write, existence question, notification, with arbitrary interleaving and database
  failures. Its history fields (`decided`, `foundAt`, `attempt`, `checkedAt`, `log`) are read by no
  step. `commit_log.dfy`, `linearization.dfy`, `refusals.dfy`, `conflicts.dfy` and
  `delivery.dfy` prove what every run keeps; `stale_patch.dfy` and `stale_tag.dfy` build the
  schedules that break what was promised.
- `merge_patch.dfy`, `merge_patch_laws.dfy` and `merge_patch_size.dfy` (over `json.dfy` and
  `json_text.dfy`) have the merge loop, RFC 7396 as a reference, and how they relate.
- `search.dfy` and `pagination.dfy` have the search statement, its decode loop and the pages.
  `link_header.dfy` prints, sends and reads the links, `form_query.dfy` has what a request of a
  reference asks for, and `link_follow.dfy` and `link_walk.dfy` a client that follows them.
- `etag.dfy` (over `numerals.dfy`), `rate_limit.dfy`, `jwks.dfy` and `revocation.dfy` are the
  small components. `samples.dfy` has the values of the failing inputs, and
  `limits.dfy` what is accepted as a key or a value.

## Where the code and its documentation disagree

- `settings/model.rs:57` claims RFC 7396. Where the base has no object, the code copies the patch
  with its nulls, which RFC 7396 strips. `MergeIsRfcIff` is the exact condition of agreement and
  `RfcDiffers` an input without it; applying the patch twice always repairs it (`MergeTwiceIsRfc`).
- A stale precondition is documented to be refused (`settings/rest.rs:6`, `settings/pg_settings.rs:10`).
  A row that is deleted and created again restarts at version 1, so an old version can match a row
  its client has never seen, for PUT, PATCH and DELETE alike. `EchoedTag` says exactly when a tag
  still matches; `StalePut` and `StaleDelete` are inputs at which a stale request is accepted. In
  flight the same can happen between the find and the write of one request (`FreshMatchIff`).
- What a re-created row breaks for PATCH alone is the equivalence with a sequential run: its value
  was merged from the old row (`StalePatchOverwrites`, `LostUpdate`; `PatchLinearizesIff` and
  `RunLinearizes` are exact). A PUT or DELETE that commits is always its request run alone at its
  write. Refusals are sequential answers only under the conditions of `RefusalIsSequentialIff`.
- A PUT with `If-Match` on an absent row creates the row (`OnNoRow`); section 13.1.1 of RFC 9110
  would refuse it. A weak tag, a list of tags or `*` is treated as no header (`ForeignTags`).
- At version 2^31-1 the column overflows and a valid update ends in Internal (`PutOnRow`,
  `PatchOnRow`).
- The rate limiter is documented to allow `max_requests` a window (`common/rate_limit.rs:21`). Its
  windows start at calls, so a span of one window can hold nearly two budgets: `AtMostMaxIff` says
  exactly when the documented limit holds in every such span, and `LimiterThroughput` and
  `BoundsReached` what holds instead.
- The previous set of signing keys is meant to bridge a rotation (`auth/jwt.rs:25-26`). It does with
  one refresh in flight (`OneRefreshHits`). `HitsIff` is the exact condition among any number of
  them: two that run one after the other during a lookup can make it miss (`MissedLookup`), and
  two that overlap lose a set (`OverlapLosesSet`).
- The links are documented to preserve query and size (`settings/rest.rs:145-147`, `186-191`). The
  query is pasted in unescaped: the next page of `a&b` is one of `a` (`AmpersandChangesQuery`), and
  for a line feed the header cannot be built and the request panics (`LineFeedNotSent`).
  `FollowedIff` says exactly for which queries a followed link asks for what was meant.

## Model

| member | source | states |
|---|---|---|
| `Protocol.RunKeepsInv` | demo/k3s/services/settings-service/src/settings/settings.rs:62-137 | Every state of every interleaving of any number of requests, each SQL statement one atomic step and the database failing at any of them, satisfies the invariant: the table is the replay of the commits, each commit is legal where it stands and belongs to one request, each request stands where its history says, each notice reports a success |
| `Protocol.StepKeepsInv` | demo/k3s/services/settings-service/src/settings/settings.rs:62-137 | One step of one request keeps that invariant |
| `Protocol.WriteIsCommit` | demo/k3s/services/settings-service/src/settings/pg_settings.rs:120-201 | A conditional write that matches is a legal commit: a new row at version 1, a changed row one version up, a deleted row that was there; its answer always decodes and the table stays well formed |
| `Linearization.RunLinearizes` | demo/k3s/services/settings-service/src/settings/settings.rs:62-137 | Any interleaved run is the run, one after the other, of the requests that committed, in commit order (same answers, same final table) if and only if every PATCH overwrote a row that merges as the row it had read; the answers alone tell; it is so when no PATCH has its row deleted under it; and every client told of success was told its commit's answer |
| `Linearization.CommitLinearizes` | demo/k3s/services/settings-service/src/settings/settings.rs:62-137 | One commit is the whole request run alone at the moment of its write: unconditionally for PUT and DELETE, for PATCH when nobody deleted its row since its find (no lost update) |
| `Linearization.PatchLinearizesIff` | demo/k3s/services/settings-service/src/settings/settings.rs:89-112 | The exact condition for a PATCH that committed: it is its request run alone at its write if and only if the row it overwrote and the row it read merge with the patch to the same value |
| `Linearization.PutOrDeleteAsDecided` | demo/k3s/services/settings-service/src/settings/settings.rs:70-83 | A matched PUT or DELETE decides and does at its write what it decided at its find, whatever happened in between |
| `Linearization.PatchAsDecidedIff` | demo/k3s/services/settings-service/src/settings/settings.rs:97-111 | The same for a matched PATCH, exactly when the two rows merge alike |
| `Linearization.FailureLeavesNoTrace` | demo/k3s/services/settings-service/src/settings/settings.rs:62-137 | A request that ends in an error made no commit, and the table is the replay of the commits |
| `StalePatch.RunAlone` | demo/k3s/services/settings-service/src/settings/settings.rs:62-137 | A request that nothing interrupts ends, as a run of the step machine, with exactly the outcome and table of the sequential specification |
| `StalePatch.StalePatchOverwrites` | demo/k3s/services/settings-service/src/settings/pg_settings.rs:121-150 | Because an insert restarts at version 1, a delete and re-create under a PATCH makes its stale version match: the run exists, the PATCH overwrites the new row with the merge of the old one and answers success; it is sequential only if both merge alike |
| `StalePatch.LostUpdate` | demo/k3s/services/settings-service/src/settings/settings.rs:97-111 | A concrete reachable run with a lost update: an empty patch undoes a concurrent create |
| `Linearization.FreshMatchIff` | demo/k3s/services/settings-service/src/settings/pg_settings.rs:146-151 | A conditional write that matched, of PUT, PATCH or DELETE, hit a row nobody had touched since its find if and only if nobody had deleted it |
| `Refusals.RefusalIsSequentialIff` | demo/k3s/services/settings-service/src/settings/settings.rs:62-137 | Which refusals are what the request run alone at some moment between its first and last look would be answered: all decided at the find, and overflows; never the Conflict of a losing create; a VersionConflict exactly when the row was at some moment there at another version; a NotFound exactly when nobody of the tenant had the key at some moment, and never for a PUT |
| `Refusals.ConflictIsSequential` | demo/k3s/services/settings-service/src/settings/pg_settings.rs:163-165 | A VersionConflict is always such an answer when nobody deletes the row while the request looks |
| `Refusals.LostCreate` | demo/k3s/services/settings-service/src/settings/pg_settings.rs:135-138 | For every PUT, a run in which it is told of a Conflict that is no sequential answer |
| `CommitLog.VersionsConsecutive` | demo/k3s/services/settings-service/src/settings/pg_settings.rs:146-151 | Within one incarnation of a row the n-th commit writes version n: 1, 2, 3, ... without gap or repeat |
| `CommitLog.VersionsDistinct` | demo/k3s/services/settings-service/src/settings/pg_settings.rs:146-151 | One incarnation never commits a version twice, and later commits carry higher versions |
| `CommitLog.VersionsCount` | demo/k3s/services/settings-service/src/settings/pg_settings.rs:146-151 | Without deletes a row stays and its version counts the commits on it |
| `CommitLog.SameVersionSameRow` | demo/k3s/services/settings-service/src/settings/pg_settings.rs:149 | Same version and no delete in between: nobody touched the row, it is the very same |
| `Conflicts.OneUpdateWins` | demo/k3s/services/settings-service/src/settings/settings.rs:72-79 | Of the requests that passed the check at one version since some moment from which the row is not deleted, all served, every one but at most one is told VersionConflict; exactly one of them succeeds, unless a request that found the same version of an earlier row takes it, and the lemma says so in both directions |
| `Conflicts.OneCreateWins` | demo/k3s/services/settings-service/src/settings/settings.rs:80-83 | Of the PUTs that saw no row since some moment from which the row is not deleted, all served, every one but at most one is told Conflict; exactly one of them inserts, unless a PUT that saw no row before that moment does, and the lemma says so in both directions |
| `Conflicts.LostToAnother` | demo/k3s/services/settings-service/src/settings/pg_settings.rs:161-170 | A conditional write that matched nothing lost to a commit of another request on the same row between its find and its write |
| `Conflicts.ConflictMeansInserted` | demo/k3s/services/settings-service/src/settings/pg_settings.rs:135-138 | A Conflict means another request inserted the row since the find |
| `Conflicts.NotFoundMeansDeleted` | demo/k3s/services/settings-service/src/settings/pg_settings.rs:164-168 | A request that found its row and ends in NotFound had its row deleted; so in delete-free runs it never does |
| `Conflicts.CastLossless` | demo/k3s/services/settings-service/src/settings/pg_settings.rs:157 | On the service's paths the `u64 as i32` cast of the expected version changes nothing |
| `Delivery.ReachableRow` | demo/k3s/services/settings-service/src/settings/pg_settings.rs:38-54 | Every row of every run has a version in 1..2^31-1, sits under its own identity, and decodes to an aggregate of its own content that is stored under that identity again |
| `Delivery.AnswerIsAggregate` | demo/k3s/services/settings-service/src/settings/settings.rs:77-83 | The answer of a PUT or PATCH is the aggregate the service computed, its time clamped: the server-side version increment is the aggregate's own |
| `Delivery.ReadYourWrite` | demo/k3s/services/settings-service/src/settings/settings.rs:29-41 | After its successful PUT or PATCH, and until somebody else commits to that row, an authority's GET returns exactly what the write answered, for both roles and any order in which the database lists users |
| `Delivery.NoticesInject` | demo/k3s/services/settings-service/src/notify/notifier.rs:122-170 | At every moment the notices sent are about distinct commits, each with its commit's tenant, key, value and version |
| `Delivery.CommitIsReported` | demo/k3s/services/settings-service/src/notify/notifier.rs:122-170 | When all requests are done every commit has its notice: with the injection, a bijection |
| `Delivery.LiveRowsAreReported` | demo/k3s/services/settings-service/src/notify/notifier.rs:91-102 | When all requests are done each live row written in the run has a newest notice carrying exactly the stored value and version; every other upsert notice of the row is of an earlier commit, with a lower version within the incarnation, although notices may be sent in another order |
| `SettingsService.SettingsService.Get` | demo/k3s/services/settings-service/src/settings/settings.rs:29-41 | The service method answers by the read rule, and on the stored rows: NotFound exactly if no row of the tenant has the key; an admin gets the content of the row without a user; without one of those an admin, and a user always, gets that of their own; Forbidden if there are only rows of others |
| `SettingsService.SettingsService.Put` | demo/k3s/services/settings-service/src/settings/settings.rs:62-84 | The service method, over the repository's statements, answers and changes the table as the sequential specification |
| `SettingsService.SettingsService.Patch` | demo/k3s/services/settings-service/src/settings/settings.rs:89-112 | The same for PATCH, with the aggregate mutated in place and then written |
| `SettingsService.SettingsService.Delete` | demo/k3s/services/settings-service/src/settings/settings.rs:116-137 | The same for DELETE |
| `SettingsService.NotifyingSettingsService.Put` | demo/k3s/services/settings-service/src/notify/notifier.rs:122-135 | The decorator changes nothing of the inner request; after a success it sends exactly one notice more: of its service, "upsert", the tenant of the authority, the key of the request, and the value and version answered; after a failure none |
| `SettingsService.NotifyingSettingsService.Patch` | demo/k3s/services/settings-service/src/notify/notifier.rs:137-150 | The same for PATCH |
| `SettingsService.NotifyingSettingsService.Delete` | demo/k3s/services/settings-service/src/notify/notifier.rs:152-170 | The same for DELETE: "delete", the tenant of the authority, the key of the request, no value and version 0 |
| `SettingsRules.AnswerIsOwn` | demo/k3s/services/settings-service/src/settings/settings.rs:62-137 | A PUT or PATCH that succeeds answers with a setting of its key in the tenant of its authority, a DELETE with nothing |
| `SettingsRules.WritesTo` | demo/k3s/services/settings-service/src/auth/model.rs:114-121 | An admin writes the row of the tenant that has no user, a user their own |
| `SettingsRules.ScanIsLookup` | demo/k3s/services/settings-service/src/settings/settings.rs:71-72 | Scanning the rows of the key, in whatever order they are listed, decides what looking up the one target row decides |
| `SettingsRules.GetFromFind` | demo/k3s/services/settings-service/src/settings/settings.rs:34-40 | Taking the first readable row of the listing is the read rule, because rows without a user come first |
| `SettingsRules.ExecuteFromFind` | demo/k3s/services/settings-service/src/settings/settings.rs:62-137 | Deciding on what the find statement returned and carrying the decision out is the sequential specification |
| `Preconditions.PutOnRow` | demo/k3s/services/settings-service/src/settings/settings.rs:72-79 | Everything a PUT on a present row can answer, and the table after it: VersionConflict without the current version, Internal at the maximal version, else the new value one version up |
| `Preconditions.PatchOnRow` | demo/k3s/services/settings-service/src/settings/settings.rs:99-111 | The same for PATCH: VersionConflict, InvalidValue exactly when the merge is too long, Internal at the maximal version, else the merge one version up |
| `Preconditions.DeleteOnRow` | demo/k3s/services/settings-service/src/settings/settings.rs:124-136 | The same for DELETE |
| `Preconditions.OnNoRow` | demo/k3s/services/settings-service/src/settings/settings.rs:80-83 | Requests whose row is absent: a PUT creates it at version 1 whatever version was expected; PATCH and DELETE answer Forbidden if another owner of the tenant has the key and NotFound otherwise |
| `Preconditions.EchoedTag` | demo/k3s/services/settings-service/src/settings/settings.rs:70-137 | A request that echoes the ETag of an answer, on a present row: refused for its version if and only if the row is at another version; and the row is at the version of the tag if and only if nobody committed to it since, or it was deleted and created again and has come to that version again. Accepted below the maximum, PUT and PATCH answer with version + 1, a PATCH unless its merge is too long |
| `Preconditions.VersionHoldsIff` | demo/k3s/services/settings-service/src/settings/pg_settings.rs:121-151 | The same for any commit: exactly when a present row is still, or again, at the version the commit wrote |
| `StaleTag.StaleTagAccepted` | demo/k3s/services/settings-service/src/settings/pg_settings.rs:121-125 | For all values, a run in which a client holds the tag of a row that was deleted and created again with another value, and any request with that tag is accepted on the new row |
| `StaleTag.StalePut` | demo/k3s/services/settings-service/src/settings/rest.rs:4-7 | The precondition that is not detected, at an input: a stale PUT overwrites a value its client has never seen, and is answered with success |
| `StaleTag.StaleDelete` | demo/k3s/services/settings-service/src/settings/rest.rs:4-7 | The same for a stale DELETE, which removes the new row |
| `PgSettings.PgSettingsRepository.Exists` | demo/k3s/services/settings-service/src/settings/pg_settings.rs:92-103 | The count of the keyed condition is positive exactly when the row is in the table |
| `PgSettings.PgSettingsRepository.Insert` | demo/k3s/services/settings-service/src/settings/pg_settings.rs:120-139 | INSERT ... ON CONFLICT DO NOTHING over stored rows: the answer and the table by identity are those of the plan carried out, and the unique index and row constraints are kept |
| `PgSettings.PgSettingsRepository.Update` | demo/k3s/services/settings-service/src/settings/pg_settings.rs:141-171 | The same for the conditional UPDATE and the existence question after a miss |
| `PgSettings.PgSettingsRepository.Delete` | demo/k3s/services/settings-service/src/settings/pg_settings.rs:173-201 | The same for the conditional DELETE |
| `PgSettings.PgSettingsRepository.Find` | demo/k3s/services/settings-service/src/settings/pg_settings.rs:107-118 | The rows of the key, each once, rows without a user first, decoded in that order |
| `PgSettings.PgSettingsRepository.Search` | demo/k3s/services/settings-service/src/settings/pg_settings.rs:203-277 | The search statement decoded: of the rows of the tenant whose key or value matches and that are the caller's own, or have no user and the caller is an admin, in key order, it gives rows (page-1)*size and on, at most size of them, each with its content, and the number of all; with distinct keys, which a user always has, there is one such page |
| `SqlRows.WhereIsLookup` | demo/k3s/services/settings-service/migrations/0001_create_settings.sql:19 | Under the unique index the keyed WHERE clause selects the row of that identity and nothing else |
| `SqlRows.ViewReplace` | demo/k3s/services/settings-service/src/settings/pg_settings.rs:146-151 | Replacing a stored row by one of the same identity keeps the index and changes the table at that identity only |
| `SettingsTable.UpdateWrites` | demo/k3s/services/settings-service/src/settings/pg_settings.rs:146-157 | A matched update replaces the row of its identity by a valid one, one above the stored version and, on the service's paths, one above the expected version |
| `SettingsTable.CastIsLowBits` | demo/k3s/services/settings-service/src/settings/pg_settings.rs:157 | The cast is two's complement on the low 32 bits and loses nothing exactly up to 2^31-1 |
| `SettingsTable.StoredAggregateIff` | demo/k3s/services/settings-service/src/settings/pg_settings.rs:39-54 | Storing an aggregate and decoding the row gives the aggregate back, its time clamped, if and only if its user id is not empty |
| `SettingsTable.DecodeAllOk` | demo/k3s/services/settings-service/src/settings/pg_settings.rs:117 | Well-formed rows always decode, each to its own content and in order |
| `SettingsTable.ClockBase.MillisRoundTrip` | demo/k3s/services/settings-service/src/settings/pg_settings.rs:322-332 | What is stored is the epoch time in whole milliseconds, of the base for earlier instants; it survives the trip through an instant exactly when it does not predate the base; clamping loses less than a millisecond and is idempotent |
| `SettingsTable.DecodeAny` | demo/k3s/services/settings-service/src/settings/pg_settings.rs:38-54 | What any row at all decodes to: a refused key comes before a refused value, a key is trimmed, and no version is less than 1 |
| `SettingModel.NewKey` | demo/k3s/services/settings-service/src/settings/model.rs:21-27 | A key is the trimmed text, refused exactly when that is empty or over 128 bytes; an accepted key is accepted as it is |
| `Limits.KeyLimit` | demo/k3s/services/settings-service/src/settings/model.rs:23 | A character repeated is a key up to 128, 64, 42 or 32 times, by its width in UTF-8 |
| `Limits.KeyTrimmed` | demo/k3s/services/settings-service/src/settings/model.rs:22 | Exactly the 25 white-space characters of Unicode are dropped at the ends of a key |
| `Limits.ValueLimit` | demo/k3s/services/settings-service/src/settings/model.rs:39-47 | Only an object is a value, and one with a single string only up to 65536 bytes |
| `SettingModel.PatchRefusedOnlyForSize` | demo/k3s/services/settings-service/src/settings/model.rs:39-61 | A merge is refused only for its length, never when base and patch together fit in 65536 bytes |
| `SettingModel.Setting.SetValue` | demo/k3s/services/settings-service/src/settings/model.rs:161-166 | Replaces the value, one version up, and touches nothing else of the aggregate |
| `SettingModel.Setting.ApplyPartial` | demo/k3s/services/settings-service/src/settings/model.rs:170-179 | Merges the value, one version up; a refused merge leaves the aggregate as it was |
| `MergePatch.MergePatch` | demo/k3s/services/settings-service/src/settings/model.rs:74-96 | The loop that edits a copy of the base computes the same merge in whatever order it visits the members |
| `MergePatchLaws.MergeIsRfcIff` | demo/k3s/services/settings-service/src/settings/model.rs:57-96 | The merge is MergePatch of section 2 of RFC 7396 if and only if every null member of the patch, at object-nesting level, lands in an object the base really has |
| `MergePatchLaws.RfcDiffers` | demo/k3s/services/settings-service/src/settings/model.rs:57-96 | Two values the service stores on which the merge is not RFC 7396: base {} and patch {"a":{"b":null}} |
| `MergePatchLaws.RfcNested` | demo/k3s/services/settings-service/src/settings/model.rs:57 | The reference gives what examples of appendix A of RFC 7396 give: members of members |
| `MergePatchLaws.RfcStrips` | demo/k3s/services/settings-service/src/settings/model.rs:57 | The same: what is no object is replaced, nulls where there is no object are stripped |
| `MergePatchLaws.NullsLandIsAgree` | demo/k3s/services/settings-service/src/settings/model.rs:74-96 | That condition on paths and the recursive one along the branches of the code are the same |
| `MergePatchLaws.MergeTwiceIsRfc` | demo/k3s/services/settings-service/src/settings/model.rs:74-96 | Applying the same patch a second time always gives the RFC 7396 result |
| `MergePatchLaws.MergeIdempotentIff` | demo/k3s/services/settings-service/src/settings/model.rs:74-96 | A patch is idempotent on a base exactly under the same condition |
| `MergePatchLaws.NullFreeKeptIff` | demo/k3s/services/settings-service/src/settings/model.rs:74-96 | A null-free base stays null-free exactly under the same condition |
| `MergePatchLaws.UnmentionedUntouched` | demo/k3s/services/settings-service/src/settings/model.rs:74-96 | What the patch does not mention is the same before and after, at every depth, for all inputs |
| `MergePatchLaws.PatchExistsIff` | demo/k3s/services/settings-service/src/settings/model.rs:74-96 | Some patch takes one value to another if and only if every null member of the goal, where both have an object, is a null member of the base |
| `MergePatchLaws.NullFreeGoalsProducible` | demo/k3s/services/settings-service/src/settings/model.rs:74-96 | Merge patches are complete on null-free goals, with the difference as witness |
| `MergePatchLaws.DiffProduces` | demo/k3s/services/settings-service/src/settings/model.rs:74-96 | The difference of two values, applied to the first, gives the second whenever any patch can |
| `MergePatchSize.MergeSize` | demo/k3s/services/settings-service/src/settings/model.rs:39-61 | The merge never serialises longer than base and patch together, commas and braces counted |
| `JsonText.PrintedLen` | demo/k3s/services/settings-service/src/settings/model.rs:43 | The length that is limited is the byte length of the compact printed text, escapes and UTF-8 widths included |
| `Limits.MembersPrinted` | demo/k3s/services/settings-service/src/settings/model.rs:43 | That text, at an object: members in code-point order of their keys, no blanks |
| `Limits.EscapesPrinted` | demo/k3s/services/settings-service/src/settings/model.rs:43 | How each character of a string is escaped in that text |
| `Search.SearchIsExact` | demo/k3s/services/settings-service/src/settings/pg_settings.rs:203-277 | Every answer of the statement (three-valued WHERE, LIMIT and OFFSET, LEFT JOIN sentinel), decoded, is one page of exactly the rows shown to the authority, with the size of that same set as total, out-of-range pages included |
| `Search.PageListsExactly` | demo/k3s/services/settings-service/src/settings/pg_settings.rs:225-235 | What such a page lists and counts: the rows of the tenant whose key or value matches and that are the caller's own, or have no user and the caller is an admin, each once, in key order; of these rows (page-1)*size and on with the content of each |
| `Search.KeyMatchSuffices` | demo/k3s/services/settings-service/src/settings/pg_settings.rs:228 | A row of the caller's own of which only the key matches is listed and counted |
| `Search.ValueMatchSuffices` | demo/k3s/services/settings-service/src/settings/pg_settings.rs:228 | So is one of which only the value matches |
| `Search.ShownIsReadableIff` | demo/k3s/services/settings-service/src/settings/pg_settings.rs:227-229 | The rows shown are the matching rows `can_read` admits if and only if no matching row of the tenant is stored with an empty user, but for an admin with an empty name and a user with another one |
| `Search.VisibleIsReadableIff` | demo/k3s/services/settings-service/src/settings/pg_settings.rs:227-229 | The WHERE clause in SQL three-valued logic keeps a matching row of the tenant exactly when `can_read` holds, but for a row stored with an empty user, where the lemma says exactly when |
| `Search.DecodeAnswer` | demo/k3s/services/settings-service/src/settings/pg_settings.rs:252-276 | The decode loop drops sentinels, keeps the order, stops at the first row that does not decode, and reports the last total |
| `Search.ListingUniqueIff` | demo/k3s/services/settings-service/src/settings/pg_settings.rs:232 | `ORDER BY key` determines the order if and only if no two visible rows share a key |
| `Search.UsersSeeDistinctKeys` | demo/k3s/services/settings-service/migrations/0001_create_settings.sql:19 | The unique index makes the keys a user is shown distinct |
| `LinkWalk.WalkListsAll` | demo/k3s/services/settings-service/src/settings/rest.rs:145-160 | Over an unchanged table, a client that starts on page 1 and requests what the `next` reference of each header it is sent asks for: every request is for the next page with the same size and query, every answer reports the same total, the walk stops exactly after the last page, which is the one `last` leads to, and has then collected every row shown once in key order, given a query that the links carry, distinct visible keys and a total of at most size * (2^32-1) |
| `LinkWalk.WalkGoesOnIff` | demo/k3s/services/settings-service/src/settings/rest.rs:145-160 | When there is a second page, the first step of the walk asks for it, with the same size and query, if and only if the links carry the query |
| `LinkWalk.Defaults` | demo/k3s/services/settings-service/src/settings/rest.rs:110-116 | Without page and size a request is for the first twenty rows, without a query for the empty text; sizes are 1 to 100 |
| `LinkHeader.BuildLinkHeader` | demo/k3s/services/settings-service/src/settings/rest.rs:192-218 | The method that pushes the links one by one prints the text of the links of the page |
| `LinkHeader.HeaderPrinted` | demo/k3s/services/settings-service/src/settings/rest.rs:192-218 | That text, character by character: `first`, then `prev`, `next` and `last` where there are such pages, each with page, size and query |
| `LinkFollow.FollowedIff` | demo/k3s/services/settings-service/src/settings/rest.rs:145-160 | A client that reads the header it is sent and requests the reference of "first", "prev", "next" or "last" asks for page 1, the page before, the page after or the last page (modulo 2^32), the size and the query, if and only if the query has none of >, #, & and +, no % before two hexadecimal digits, and no ASCII control character but tabs; a relation the page does not have leads nowhere then |
| `LinkFollow.HeaderSentIff` | demo/k3s/services/settings-service/src/settings/rest.rs:155-158 | The text may be put in a header, and the request does not fail there, if and only if the query has no ASCII control character but tabs |
| `LinkFollow.ReferenceAsksIff` | demo/k3s/services/settings-service/src/settings/rest.rs:186-218 | A printed reference, cut at the fragment, split into parameters and form-decoded, asks for its own page, size and query if and only if there is no query or it has none of #, & and +, and no % before two hexadecimal digits |
| `LinkFollow.AmpersandChangesQuery` | demo/k3s/services/settings-service/src/settings/rest.rs:193 | A listing of a&b, at an input with a next page: that link asks for page 2 of the listing of a |
| `LinkFollow.LineFeedNotSent` | demo/k3s/services/settings-service/src/settings/rest.rs:155-158 | A query of one line feed: no header can be sent |
| `FormQuery.DecodeFixedIff` | demo/k3s/services/settings-service/src/settings/rest.rs:102 | A parameter decodes to itself if and only if it has no plus sign and no % before two hexadecimal digits, however escaped bytes are read as text |
| `FormQuery.EscapesDecode` | demo/k3s/services/settings-service/src/settings/rest.rs:102 | Any bytes, escaped with digits of either case, decode to what they are read as together |
| `FormQuery.BadParameters` | demo/k3s/services/settings-service/src/settings/rest.rs:73-78 | A parameter that comes twice, or a page or size that is no 32-bit number, makes a bad request; parameters of other names are ignored |
| `Paging.LastIsLastIff` | demo/k3s/services/settings-service/src/settings/rest.rs:211-212 | `last` names the last page, the cast losing nothing, if and only if the total is at most size * (2^32-1) |
| `Paging.NextIsExact` | demo/k3s/services/settings-service/src/settings/rest.rs:205-208 | There is a next link exactly before the last page, and `page + 1` does not overflow |
| `Paging.PagesJoinToAll` | demo/k3s/services/settings-service/src/settings/pg_settings.rs:231-233 | The pages of a list, joined, are the list |
| `Paging.BindsFit` | demo/k3s/services/settings-service/src/settings/pg_settings.rs:246-247 | Limit and offset fit the 64-bit integers they are bound as |
| `Etag.EtagRoundTrip` | demo/k3s/services/settings-service/src/settings/rest.rs:364-382 | A tag is the version in decimal digits between quotes, and `If-Match` reads back every u64 version an ETag prints |
| `Etag.IfMatchIff` | demo/k3s/services/settings-service/src/settings/rest.rs:377-382 | Exactly which header values are read as a version: printable ones that are its digits, perhaps after zeros and a plus sign, between any quotes, between any blanks |
| `Etag.ForeignCharacter` | demo/k3s/services/settings-service/src/settings/rest.rs:377-382 | A header with any other character is read as no version |
| `Etag.ForeignTags` | demo/k3s/services/settings-service/src/settings/rest.rs:377-382 | A weak tag, a list of tags and `*`, at an input each, count as no header |
| `RateLimit.RateLimiter.Allow` | demo/k3s/services/settings-service/src/common/rate_limit.rs:33-46 | Whether a call is allowed is decided by the earlier calls of its own key, and the stored buckets are those of the calls so far |
| `RateLimit.OwnCallsOnly` | demo/k3s/services/settings-service/src/common/rate_limit.rs:33-46 | What is stored for a key depends on that key's calls only |
| `RateLimit.CountIsAllowedSince` | demo/k3s/services/settings-service/src/common/rate_limit.rs:37-44 | With a window of some length the stored count is the number of calls allowed since the window started |
| `RateLimit.OpenWindowCounts` | demo/k3s/services/settings-service/src/common/rate_limit.rs:37-45 | On any clock a call before the end of the open window is counted in it and allowed while the budget lasts: a clock that goes back opens no window |
| `RateLimit.LimiterThroughput` | demo/k3s/services/settings-service/src/common/rate_limit.rs:33-46 | In any span of at most n windows, both ends included, a key gets at most max * (n + 1) calls through, whatever other keys do; in a half-open span one less |
| `RateLimit.BoundsReached` | demo/k3s/services/settings-service/src/common/rate_limit.rs:33-46 | For every number of windows some calls reach the bound of the closed span, and some that of the half-open one |
| `RateLimit.AtMostMaxIff` | demo/k3s/services/settings-service/src/common/rate_limit.rs:21-46 | The documented limit, max calls a window, holds in every (half-open) span of one window if and only if max is at most 1 or the window is at most a single moment; otherwise some span lets 2 * max - 1 through; with an empty window, which such spans do not constrain, any number of calls gets through at one moment unless none ever does |
| `Jwks.JwksCache.Refresh` | demo/k3s/services/settings-service/src/auth/jwt.rs:68-98 | It succeeds exactly when the fetch does and some key has an id; then the two maps are the last two sets fetched, by the two writes copy and swap; otherwise it is Unavailable and changes nothing |
| `Jwks.JwksCache.KeyFor` | demo/k3s/services/settings-service/src/auth/jwt.rs:51-66 | A usable key of that id of the last set fetched, or else of the one before, is returned without fetching; otherwise one refresh, and Unavailable, or the usable key of the set fetched, or InvalidToken; a returned key is usable and has the id |
| `Jwks.LastKeyWins` | demo/k3s/services/settings-service/src/auth/jwt.rs:80-85 | The map of a fetched set holds exactly the ids of its keys, each with the last key of that id |
| `Jwks.OneRefreshHits` | demo/k3s/services/settings-service/src/auth/jwt.rs:51-99 | With one refresh in flight, a lookup of a usable key of the set current at its begin finds a usable one of that id without fetching, however its two reads fall among the two writes |
| `Jwks.HitsIff` | demo/k3s/services/settings-service/src/auth/jwt.rs:51-99 | For every key and any interleaving of the writes of any number of refreshes, a lookup hits without fetching if and only if the set last put in place before its first read has the key, or the one last in place before the last copy does, or nothing was copied and the set that was previous at its begin does |
| `Jwks.MissedLookup` | demo/k3s/services/settings-service/src/auth/jwt.rs:51-99 | A lookup of a key current at its begin that misses, at an input, among two refreshes one after the other: the first swaps before its first read and the second copies before its second |
| `Jwks.OverlapLosesSet` | demo/k3s/services/settings-service/src/auth/jwt.rs:89-95 | Two overlapping refreshes lose a generation: the previous set is right only if nothing changed |
| `Revocation.PurgeIsUnseenIff` | demo/k3s/services/settings-service/src/auth/revocation.rs:45-58 | Over any calls on any clock, the lazily purged map answers as the full log if and only if no ask at or after the expiry of the latest revocation is followed, with no new revocation between, by an ask of the same jti before that expiry |
| `Revocation.PurgeIsUnseen` | demo/k3s/services/settings-service/src/auth/revocation.rs:45-58 | On a clock that does not go back a purge is never seen: revoked exactly until the expiry of the latest revocation |
| `Revocation.RevokedIff` | demo/k3s/services/settings-service/src/auth/revocation.rs:32-43 | By the full log a session is revoked exactly if some revocation of it, which no later one follows, was made less than its ttl ago |
| `Revocation.InMemoryRevocationStore.Revoke` | demo/k3s/services/settings-service/src/auth/revocation.rs:32-43 | Stores now plus ttl over any earlier expiry of the jti and nothing else |
| `Revocation.InMemoryRevocationStore.IsRevoked` | demo/k3s/services/settings-service/src/auth/revocation.rs:45-58 | Answers by the full log unless the entry was purged; on a clock that does not go back true exactly if some revocation of the jti, which no later one follows, was made less than its ttl ago; removes only an expired entry of the jti |

## Left out

- HTTP routing, middleware, CORS, security headers, status codes, NDJSON and the text of responses: plumbing around the modelled calls.
- The Link header: a client is taken to read the list of links as section 3 of RFC 8288 writes it, to send raw characters of a reference that need it percent-encoded, and to have them decoded back; one that strips white space from references is not modelled. How escaped bytes are read as text is arbitrary, but for reading no more characters than bytes.
- Token decoding, signatures and claims, role parsing, the HTTP client, MQTT, telemetry, configuration, Kubernetes manifests, shell and demo scripts, the C broker: foreign code or one-branch lookups.
- Notifications are appended to a sequence; delivery, and a crash between commit and notice, are not modelled. Until its notice is sent a commit has none, which `NoticesInject` allows.
- PostgreSQL itself: each statement is atomic, a keyed statement sees the latest committed table, and the serial `id` is not modelled. ILIKE is an arbitrary predicate on key and value, JSONB storage is the identity, and the ORDER BY collation of search is an arbitrary total order. The find statement orders non-null users by code point; only that nulls come first is used.
- A database failure is a step that ends the request with Unavailable or Internal and changes nothing; a statement that took effect although its answer was lost is not modelled. Poisoned locks are left out.
- Numbers in JSON are represented by their printed text, so equality of values is equality of that text; value nesting limits of the parser are left out.
- The `user` column holding an empty string: the schema and the decoding identify it with no user. Lemmas that need a non-empty user id say so in a precondition, and `StoredAggregateIff` and `ShownIsReadableIff` say exactly what happens without it.
- `u64` overflow of the aggregate's version and panics of instant arithmetic: versions are unbounded naturals, kept at most 2^31-1 by `ReachableRow`, and instants are unbounded integers.
- JwksCache: the fetch itself is a parameter; its time to live is left out because the lookup never reads it; a lock that is held is not a step of its own.
- RateLimiter: the unused burst argument is left out, and time is passed in by the caller, once for each call.
- `get` and `search` of the decorator pass through and are left out; so are `ready`, `ping` and the event types nobody emits.
- PgSettings.PgSettingsRepository.Search: with equal keys, which only an admin can be shown, the database may choose among several pages, and the contract leaves that choice open; `ListingUniqueIff` says that it is the only freedom.
