# Persist file sources: a Dafny model

This project models the incremental persistence of file sources in SonarQube's
Compute Engine step `PersistFileSourcesStep`. For every file of a project the step
merges per-line metadata into one record and computes its fingerprints. It then
decides, against the row stored by an earlier analysis, whether to insert a new
`file_sources` row, update the stored one, or write nothing.

Modules, following the structure of the Java class:

- `FileSources` (file_sources.dfy): the `file_sources` row (`FileSourceRec`) and the
  store. The store is a map from (file uuid, data type) to the row. It also holds SCM
  changesets.
- `PreviousIndex` (previous_index.dfy): the index that `visitProject` builds once, mapping
  file uuid to the stored SOURCE row of the project. `BuildIndex` is the fold over the
  streamed query rows. Later rows overwrite earlier ones.
- `LineReaders` (line_readers.dfy): the `LineReaders` aggregate. It covers the fixed
  reader order, the three closeable report iterators, `close()` and
  `getLatestChangeWithRevision`. The SCM reader's running "latest changeset with a
  revision" is modelled by `ScmRead`/`ReadLines`. `ScmLineReader` is not part of this
  model. It is assumed to keep the most recent changeset (by date) that carries a
  non-empty revision, the first one read winning a tie.
- `PersistDecision` (persist_decision.dfy): `computeRevision`, the fresh values of
  `persistSource`, the four comparisons, and the insert / update / skip decision
  (`Decide`). `Apply` applies an action to the store.
- `PersistStep` (persist_step.dfy): the traversal as a fold over the project's files. It
  builds the index once and commits each write on its own. An update also changes the
  indexed row, because the source mutates that object in place; an insert leaves the
  index alone. The step stops at the first file that fails, whether the merge or the
  decision throws or closing the file's resources throws after its write was
  committed. It also proves idempotence of a whole run.

The MD5 digest and the protobuf encoding of the merged file are parameters of the
model (`Codec`), so every property holds for any digest and any encoding. No
collision-freedom is assumed. The clock is a parameter as well. The insert branch
reads it twice (`ClockReads.first` for `createdAt`, `second` for `updatedAt`); the
update branch reads it once (`first`).

## Model

| member | source | states |
|---|---|---|
| `PersistDecision.Decide` | server/sonar-ce-task-projectanalysis/src/main/java/org/sonar/ce/task/projectanalysis/step/PersistFileSourcesStep.java:132-177 | Insert exactly when no previous row exists. The new row is a SOURCE row of the current project and file, carrying the fresh data, hashes, line hashes, version and revision, stamped with the two clock reads. With a previous row, no write happens exactly when data hash, source hash, revision and line-hash version all equal the fresh ones. Otherwise the update carries all fresh content, takes the clock as update time, and keeps project, file, data type and creation time. |
| `PersistDecision.Apply` | server/sonar-ce-task-projectanalysis/src/main/java/org/sonar/ce/task/projectanalysis/step/PersistFileSourcesStep.java:155-174 | An insert or update stores the row under its own key and leaves every other key of the store as it was. A skip leaves the store unchanged. |
| `PersistDecision.ComputeRevision` | server/sonar-ce-task-projectanalysis/src/main/java/org/sonar/ce/task/projectanalysis/step/PersistFileSourcesStep.java:179-185 | No changeset gives no revision. A changeset gives exactly its own revision, absent or not, so one with a non-empty revision gives that non-empty revision. |
| `PersistDecision.InsertStampsEqual` | server/sonar-ce-task-projectanalysis/src/main/java/org/sonar/ce/task/projectanalysis/step/PersistFileSourcesStep.java:152-153 | A new row has createdAt equal to updatedAt when the clock does not move between its two reads. |
| `PersistDecision.DataHashAlwaysFresh` | server/sonar-ce-task-projectanalysis/src/main/java/org/sonar/ce/task/projectanalysis/step/PersistFileSourcesStep.java:135-136 | Whatever the previous row held, every written row carries the fresh encoding and its MD5 as data hash. The data hash is never carried over. |
| `PersistDecision.RevisionOnlyChangeUpdates` | server/sonar-ce-task-projectanalysis/src/main/java/org/sonar/ce/task/projectanalysis/step/PersistFileSourcesStep.java:158-172 | A changed revision alone, with equal hashes and version, forces an update. The updated row differs from the previous one only in data, line hashes, revision and update time. |
| `PersistDecision.VersionOnlyChangeUpdates` | server/sonar-ce-task-projectanalysis/src/main/java/org/sonar/ce/task/projectanalysis/step/PersistFileSourcesStep.java:163-172 | A changed line-hash version alone forces an update (progressive migration). The updated row differs from the previous one only in data, line hashes, version and update time. |
| `PersistDecision.MissingSrcHashUpdates` | server/sonar-ce-task-projectanalysis/src/main/java/org/sonar/ce/task/projectanalysis/step/PersistFileSourcesStep.java:158-160 | A previous row without a source hash is always updated, and afterwards it has the fresh source hash. |
| `PersistDecision.SkipIgnoresClock` | server/sonar-ce-task-projectanalysis/src/main/java/org/sonar/ce/task/projectanalysis/step/PersistFileSourcesStep.java:159-164 | Whether a file is skipped does not depend on the time. |
| `PersistDecision.DecideIdempotent` | server/sonar-ce-task-projectanalysis/src/main/java/org/sonar/ce/task/projectanalysis/step/PersistFileSourcesStep.java:142-175 | Deciding again with the same input against the row that was just written (or kept) gives no write, at any time. |
| `PreviousIndex.BuildIndex` | server/sonar-ce-task-projectanalysis/src/main/java/org/sonar/ce/task/projectanalysis/step/PersistFileSourcesStep.java:112-116 | Every streamed row's file uuid is a key of the index. Each entry is one of the streamed rows, stored under its own file uuid. |
| `PreviousIndex.BuildIndexLastWins` | server/sonar-ce-task-projectanalysis/src/main/java/org/sonar/ce/task/projectanalysis/step/PersistFileSourcesStep.java:115 | A row that no later row with the same file uuid follows is the entry kept for that uuid. |
| `PreviousIndex.BuildIndexMatchesStore` | server/sonar-ce-task-projectanalysis/src/main/java/org/sonar/ce/task/projectanalysis/step/PersistFileSourcesStep.java:110-117 | Whatever the order of the query's rows, the index equals the project's SOURCE rows of the store, keyed by file uuid. |
| `LineReaders.NewLineReaders` | server/sonar-ce-task-projectanalysis/src/main/java/org/sonar/ce/task/projectanalysis/step/PersistFileSourcesStep.java:194-217 | The readers are ordered coverage, SCM (only when SCM info is present), highlighting, symbols, duplication. So there are 5 readers with SCM info and 4 without. The closeables are exactly the coverage, highlighting and symbol iterators, in acquisition order. |
| `LineReaders.ReadLines` | server/sonar-ce-task-projectanalysis/src/main/java/org/sonar/ce/task/projectanalysis/step/PersistFileSourcesStep.java:232 | The SCM reader behind `getLatestChangeWithRevision`, run over lines 1..n, remembers nothing exactly when nothing was remembered before and no read line carries a revision. Otherwise it remembers a changeset with a revision, from a read line or kept from before, at least as recent as every read line's changeset with a revision. |
| `LineReaders.LatestChangePolicy` | server/sonar-ce-task-projectanalysis/src/main/java/org/sonar/ce/task/projectanalysis/step/PersistFileSourcesStep.java:230-233 | After the merge, the latest change is absent exactly when there is no SCM reader or no read line carries a revision. Otherwise it is the changeset of a read line, has a revision, and is at least as recent as every such changeset. |
| `LineReaders.Close` | server/sonar-ce-task-projectanalysis/src/main/java/org/sonar/ce/task/projectanalysis/step/PersistFileSourcesStep.java:224-227 | The iterators are closed in registration order. With no throwing close, all are closed. Otherwise the closes stop at the first one that throws, and the iterators after it stay open. |
| `LineReaders.CloseLeaksAfterFailure` | server/sonar-ce-task-projectanalysis/src/main/java/org/sonar/ce/task/projectanalysis/step/PersistFileSourcesStep.java:224-227 | When closing the coverage iterator throws, the highlighting and symbol iterators are never closed. |
| `LineReaders.CloseAll` | server/sonar-ce-task-projectanalysis/src/main/java/org/sonar/ce/task/projectanalysis/step/PersistFileSourcesStep.java:224-227 | The corrected release closes every iterator whichever throw, and reports the same first failure as the loop as written. |
| `PersistStep.RevisionPolicy` | server/sonar-ce-task-projectanalysis/src/main/java/org/sonar/ce/task/projectanalysis/step/PersistFileSourcesStep.java:179-185 | The persisted revision is absent exactly when the file has no SCM data or no line carries a revision. Otherwise it is the non-empty revision of the most recent such changeset among the file's lines. |
| `PersistStep.VisitFiles` | server/sonar-ce-task-projectanalysis/src/main/java/org/sonar/ce/task/projectanalysis/step/PersistFileSourcesStep.java:119-130 | A run makes at most one insert or update per visited file. What each file's row becomes, which failure is reported and which rows stay untouched are stated by the lemmas below. |
| `PersistStep.ReleaseFailsIsCloseFailure` | server/sonar-ce-task-projectanalysis/src/main/java/org/sonar/ce/task/projectanalysis/step/PersistFileSourcesStep.java:121-122 | Releasing a merged file's resources fails exactly when closing its `LineReaders` (the loop over the three report iterators) reports a failure or closing its raw-line iterator throws. |
| `PersistStep.RunStoresDecisions` | server/sonar-ce-task-projectanalysis/src/main/java/org/sonar/ce/task/projectanalysis/step/PersistFileSourcesStep.java:140-175 | After a run over files with distinct uuids in which no file fails, the run reports no failure. Each file's SOURCE row is the row its own decision against the stored row inserted or updated, or the stored row when the decision was to skip. |
| `PersistStep.NewFileInsertedOnce` | server/sonar-ce-task-projectanalysis/src/main/java/org/sonar/ce/task/projectanalysis/step/PersistFileSourcesStep.java:142-156 | After such a run, a file that had no stored row has a SOURCE row of the project under its uuid. The row is stamped with the two clock reads of that file's visit and carries the digest of the file's fresh encoding. |
| `PersistStep.RevisitAfterUpdateSkips` | server/sonar-ce-task-projectanalysis/src/main/java/org/sonar/ce/task/projectanalysis/step/PersistFileSourcesStep.java:140-173 | The update mutates the indexed row in place. So when the same file is visited again right after an update in one run, it is compared with the updated row and nothing more is written: the run makes exactly one write and reports no failure. |
| `PersistStep.RunKeepsWellKeyed` | server/sonar-ce-task-projectanalysis/src/main/java/org/sonar/ce/task/projectanalysis/step/PersistFileSourcesStep.java:155-174 | Every row the step writes is stored under its own key, so a store with that property keeps it. |
| `PersistStep.RunReportsFirstFailure` | server/sonar-ce-task-projectanalysis/src/main/java/org/sonar/ce/task/projectanalysis/step/PersistFileSourcesStep.java:119-129 | The step fails exactly when some file's visit throws. It then reports "Cannot persist sources of" followed by the key of the first such file in visiting order. |
| `PersistStep.VisitFrame` | server/sonar-ce-task-projectanalysis/src/main/java/org/sonar/ce/task/projectanalysis/step/PersistFileSourcesStep.java:140-176 | Visiting the files leaves every row alone except the SOURCE rows of the visited files. |
| `PersistStep.RunIdempotent` | server/sonar-ce-task-projectanalysis/src/main/java/org/sonar/ce/task/projectanalysis/step/PersistFileSourcesStep.java:110-130 | After a run over files with distinct uuids completes, a second run with the same merge results, at any times, writes nothing and leaves the store unchanged. |
| `PersistStep.RunStopsAtFirstFailure` | server/sonar-ce-task-projectanalysis/src/main/java/org/sonar/ce/task/projectanalysis/step/PersistFileSourcesStep.java:119-129 | The first file whose visit throws aborts the step with "Cannot persist sources of <key>", and the run over the files before it reports no failure. If the merge or the decision threw, the store and write count are those of the run over the earlier files. If closing the file's resources threw, its own write was already committed: the store is that run's store with the file's action applied, and the count includes that write. |

## Left out

- The database session, the MyBatis streaming `select`, the DAO `insert`/`update` and `commit` are replaced by the map store and `Apply`. The query's filter (project uuid and SOURCE data type) is stated as `PreviousIndex.QueryResult`, not modelled as SQL.
- The index holds full rows, while the real query loads only the comparison fields and the row identity. The DAO update writes by row identity, so the model's "preserved" fields stand for the columns the update leaves alone.
- The component-tree walk (`DepthTraversalTypeAwareCrawler`) is modelled as a sequence of files in visiting order. The exception wrapping in `visitFile` keeps only the message, not the cause.
- `ComputeFileSourceData`, the coverage, highlighting, symbol and duplication readers, `RangeOffsetConverter`, `SourceLinesHashRepository` and the protobuf encoding are not part of this model. Their outputs (merged data, source hash, line hashes, line count, line-hash version) are inputs. So the invariant that there is one line hash per line read is not modelled.
- MD5 and the encoding are function parameters. Nothing is assumed about them beyond being functions.
- The try-with-resources in `visitFile` is modelled by whether each close throws (`PersistStep.ReleaseFails`). The order in which Java closes the two resources and its suppressed exceptions are not modelled; the step's failure message is the same either way.
- `PersistStep.VisitFiles`: a file uuid visited again after its first visit inserted a row is inserted again. The insert branch does not put the new row in the index (line 155), and the map store keeps the later row where the database would hold a second row. The component tree visits each file once, so the lemmas about whole runs assume distinct uuids (`DistinctFiles`).
- `PersistDecision.Decide`: compares the line-hash versions as values. The source compares them with `!=` at line 163. If that getter returns a boxed `Integer`, Java compares references. References agree with values only for cached small integers, so for large version numbers the source would see a change every time.
- The `close()` loop does not protect the remaining closes when one throws. The model follows the code (`LineReaders.Close`) and records the leak under Findings, with `LineReaders.CloseAll` as the release that closes every iterator.
- `ScmLineReader` is not part of this model. It is assumed to keep the first of equally dated changesets that it reads.

## Findings

| source | as written | input that shows it | evidently intended | confidence | as-written member | corrected member |
|---|---|---|---|---|---|---|
| server/sonar-ce-task-projectanalysis/src/main/java/org/sonar/ce/task/projectanalysis/step/PersistFileSourcesStep.java:226 | `close()` closes the registered iterators in a plain loop, so an exception from one close skips every later close | closing the coverage iterator throws: the highlighting and symbol iterators stay open | every acquired iterator is released, and the first failure is reported | low, not executed | `LineReaders.CloseLeaksAfterFailure` | `LineReaders.CloseAll` |
