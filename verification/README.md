# Verification of the wiki build protocol, incremental compiler, memory store and text kernels

This project models the parts of the server whose correctness does not show in any one function: the
leased build queue and its commit and activation steps, the incremental wiki compiler behind its check
gate, the replacement graph and feedback counters of durable memories, and the text and arithmetic
kernels underneath (glob matching, Markdown sections, paragraph packing, context budgets, tar sizes,
the stale-page walk). `dafny verify dfyconfig.toml` checks everything.

## How it is organised

| Files | Subject |
|---|---|
| `Ordering`, `Lists`, `Text`, `Wrappers` | string order and sorting, list building, Go's string splitting and trimming |
| `Wiki`, `Check`, `Assembly` | pages, the check gate and its declarative meaning, the generated index and log, what a commit stores |
| `Incremental`, `IncrementalBuild`, `IncrementalProperties` | revision diff, impacted pages, scope filtering, reuse and merge; the compiler is an arbitrary reply |
| `BuildStore`, `Enqueue` | the build tables as a class, one method per transaction; queueing a request |
| `Protocol`, `ProtocolSteps`, `ProtocolTheorems`, `Leases`, `QuietRuns`, `Freshness` | all processes together as a transition system, its invariant, and what holds over every run |
| `StaleFinish`, `Instances` | a concrete run and concrete inputs on which conditional guarantees fail |
| `Worker` | which transaction ends a compile, the retry wait, slots and shutdown of one process |
| `Lint` | stale citations and the bounded cascade |
| `Glob`, `Sections`, `Packing` | manifest patterns, Markdown sections, chunk packing |
| `Replacement`, `MemoryStore`, `Ranking` | memory supersession, feedback log, search ranking |
| `ContextPack`, `TarSize` | context budgets; tar size fields and archive limits |

Each database transaction is one atomic step. A step of the transition system is one transaction, one
compile (which reads the tables and leaves a draft in the worker's memory, to be committed at any later
time or never), one request, or the clock. A request is several statements in the source: it either
runs without interruption, or appears as its last statement alone, the insert of a build whose inputs
were read at any earlier moment. Which process steps next is open, so crashed, stalled, partitioned and
restarted workers are all runs. Code that updates fields is a class or a method with loops, proved
against a function of the old state; the theorems are about those functions and the runs they make.

## What the code turns out to guarantee, and what it does not

- The wiki a reader sees is the complete page set of one commit that passed the check, its links are
  closed, and every citation names a document of the build's own revision with the hash it had when the
  page's text was last compiled, however long the chain of incremental builds. This holds for every run
  and every compiler reply.
- What is recorded as a build's model is what was configured when it was requested. `RunBuild` does not
  compare it with the compiler it calls, so the identity of a page's text is the recorded one only as
  far as the two agree; the proofs speak of recorded identities.
- `FinishBuild` has no lease guard, so a process that lost its lease can mark the active build failed.
  A finish is harmless to the label if and only if the build has no committed pages
  (`FinishIsHarmlessExactly`), and over every run a committed build is labelled succeeded if and only if
  nobody finished it after its commit (`CommittedLabelExact`). `StaleFinish` holds a run from empty
  tables in which it goes wrong. Under the discipline that only the lease holder finishes a build, labels
  are right in every run.
- The same finish undoes the stability of requests: polling for covered inputs queues nothing unless a
  worker finishes a succeeded build of the source again. Coverage survives a step if and only if the
  builds it leaves alone still cover (`CoverageSurvivesExactly`); the run in `StaleFinish` goes on to
  queue a second build for a request that was covered.
- Lint and the incremental compiler disagree on one kind of document: one sent again with its old hash
  but without content. The revision diff reads indexed documents only and has it removed; lint joins all
  files of the revision and sees the same hash. Lint's stale pages always cite a touched document, and
  are all of them if and only if no page is hidden that way (`Lint.StaleMeansCitingTouched`,
  `Lint.LostTextIsHidden`).
- One hop of rescheduling keeps links closed if and only if no carried page links to a deleted one
  (`CopiesClosedExactly`). Deleting a page that was scheduled only because it links to a cited one can
  leave a dangling link two hops away (`SecondHopDeletionDangles`, with wiki, documents and reply in
  `Instances.SecondHopExample`). The check catches it before the commit.
- When no document moved, the incremental path returns the parent's pages in load order, by kind and
  then path. That is path order if and only if kinds and paths agree (`IdleBuildIsSortedExactly`).
- A path the compiler both rewrote and asked to delete appears in both outcome lists
  (`OutcomeListsOverlap`); the deletion wins.
- A memory whose validity starts in the future cannot be superseded: closing its window at the call time
  violates a table constraint (`SupersedesExactlyWhen`).
- Two overlapping supersedes of disjoint pairs pass both cycle checks; the exact condition under which
  they close a cycle is `OverlappingSupersedesExact`, with four entries in
  `Instances.OverlappingExample`. The forest guarantee is about transactions that
  take effect one at a time.
- A request is not one transaction, so two of them, or one and a commit, can interleave. Its late insert is
  the uninterrupted request exactly under the condition of `Enqueue.LateInsertExact`; the run in
  `StaleFinish.LateInsertHappens` queues a build for inputs that are covered.
- A process that loses a build and claims it again tracks it only until the first of the two compiles
  ends (`Worker.Process.EndOfRun`), so a shutdown after that does not give it back.

## Model

| member | source | states |
|---|---|---|
| `Check.RelativeDriftSymmetric` | internal/knowledge/wiki_check.go:288-301 | between two non-empty wikis the drift is symmetric, and 0 exactly for equal counts |
| `Check.RunChecks` | internal/knowledge/wiki_check.go:64-217 | the report holds exactly the violations of the declarative rules, and is empty exactly for a well-formed build |
| `Check.CheckPlan` | internal/knowledge/wiki_check.go:233-284 | the incremental rules: every scheduled page handled, nothing deleted or written outside the schedule |
| `Check.FindDuplicates` | internal/knowledge/wiki_check.go:64-217 | exactly the paths held by two pages are reported, once each |
| `Check.ReportExact` | internal/knowledge/wiki_check.go:64-217 | soundness and completeness for each single failure, whatever the page order |
| `Check.ReportIgnoresPageOrder` | internal/knowledge/wiki_check.go:64-217 | with distinct paths, two runs over the same pages in any order give the same list |
| `Ordering.OrderOfFirstDifference` | internal/knowledge/wiki_check.go:117-119 | the order of paths is that of the first character in which they differ, a prefix first |
| `Check.DriftReportedExactly` | internal/knowledge/wiki_check.go:93-104 | drift is reported if and only if the two page counts, with a parent and a limit, differ by more than the limit times the larger one |
| `Check.LimitsReportedExactly` | internal/knowledge/wiki_check.go:84-111 | page count and token budget are reported exactly beyond a limit above zero |
| `Check.BlankReportedExactly` | internal/knowledge/wiki_check.go:124-130 | reported as empty is exactly a page of nothing but space |
| `Check.UncitedReportedExactly` | internal/knowledge/wiki_check.go:152-164 | a missing citation is reported exactly for pages other than index and log, where the profile requires one |
| `Check.CoverageReportedExactly` | internal/knowledge/wiki_check.go:196-215 | with an index page, exactly the content pages no index page links to |
| `Assembly.BuildIndexPage` | internal/knowledge/wiki_compile.go:270-311 | the index lists every page once, grouped by kind and ordered within each group |
| `Assembly.IndexLinksEveryPage` | internal/knowledge/wiki_compile.go:270-311 | the index's link targets are exactly the paths of the pages |
| `Assembly.IndexNeverMissesAPage` | internal/knowledge/wiki_service.go:279-292 | for any content pages plus the generated index and log, missing index coverage is never reported |
| `Assembly.StoredLinkIsGiven` | internal/knowledge/wiki_repo.go:470-519 | every stored link is one of the page's links, its target resolved exactly when the build has that page |
| `Assembly.GivenLinkIsStored` | internal/knowledge/wiki_repo.go:470-519 | conflict handling drops only repeats: each link's target and type is stored |
| `Assembly.StoredLinksAreUnique` | internal/knowledge/wiki_repo.go:470-519 | no two stored links of a page share target and type |
| `Assembly.StoredPageExactly` | internal/knowledge/wiki_repo.go:470-519 | page for page, everything but the links is stored as given, under the build |
| `Incremental.DiffRevisionDocuments` | internal/knowledge/wiki_incremental_repo.go:21-76 | over the indexable documents of both revisions, exactly the added, removed and changed paths, sorted, and the rest counted |
| `Incremental.DiffAccountsForEveryDocument` | internal/knowledge/wiki_incremental_repo.go:21-76 | every document of either revision is counted in exactly one class |
| `Incremental.UntouchedIsUnchanged` | internal/knowledge/wiki_model.go:423-435 | a document outside Touched is there in both revisions with the same hash, and conversely |
| `Incremental.DiffListsExactly` | internal/knowledge/wiki_incremental_repo.go:21-76 | which documents each list holds; touched are those gone or rewritten, never added ones |
| `Incremental.DiffIsEmptyExactly` | internal/knowledge/wiki_incremental_repo.go:21-76 | empty if and only if both revisions hold the same documents with the same hashes |
| `Incremental.ImpactedExactly` | internal/knowledge/wiki_incremental_repo.go:94-135 | impacted is a page that cites a touched document or has a link resolved to one that does |
| `Incremental.FindImpacted` | internal/knowledge/wiki_incremental_repo.go:94-135 | pages citing a touched document and pages linking to those, sorted, no further |
| `Incremental.PrepareReusedPages` | internal/knowledge/wiki_incremental_repo.go:229-262 | the in-place loops give every page its lineage, re-resolved citations and unresolved links, and change nothing else |
| `Incremental.PreparedExactly` | internal/knowledge/wiki_incremental_repo.go:229-262 | field by field what a copy keeps and what it resets |
| `Incremental.MergeIncremental` | internal/knowledge/wiki_incremental.go:284-318 | the merged list is the path-keyed overlay, strictly sorted, and the count is the number of carried paths |
| `Incremental.MergedAt` | internal/knowledge/wiki_incremental.go:284-318 | per path: deletion wins over a rewrite, a rewrite over a copy, the last rewrite over earlier ones |
| `IncrementalBuild.ClassifyReply` | internal/knowledge/wiki_incremental.go:212-268 | which reply entries become pages, deletions and refusals |
| `IncrementalBuild.EnforceWriteScope` | internal/knowledge/wiki_incremental.go:469-483 | writes survive exactly when scheduled or new; the others are listed as rejected |
| `IncrementalBuild.EnforceDeleteScope` | internal/knowledge/wiki_incremental.go:484-494 | deletions survive exactly when scheduled |
| `IncrementalBuild.RunIncremental` | internal/knowledge/wiki_incremental.go:333-524 | the whole run: errors in order, plan, scope filtering, reuse and merge |
| `IncrementalBuild.WrittenIsFromCompiler` | internal/knowledge/wiki_incremental.go:228-267 | every page the compiler wrote is unstored, underived, and cites by the revision's own documents |
| `IncrementalBuild.ReplyAsksExactly` | internal/knowledge/wiki_incremental.go:212-268 | which paths a reply deletes and is refused, and that its other entries and no more become pages with their own text, evidence and links |
| `IncrementalBuild.FullWritesEntry` | internal/knowledge/wiki_compile.go:158-237 | a full compile writes every authored entry of the reply, flagged for deletion or not |
| `IncrementalBuild.FullPageHasEntry` | internal/knowledge/wiki_compile.go:158-237 | and nothing else |
| `IncrementalProperties.ScheduledExact` | internal/knowledge/wiki_incremental.go:368-389 | a path is scheduled exactly when it is an impacted content page |
| `IncrementalProperties.UnscheduledIsUntouched` | internal/knowledge/wiki_incremental.go:368-440 | a page that is not scheduled cites nothing that moved |
| `IncrementalProperties.CopySource` | internal/knowledge/wiki_incremental.go:420-511 | every copy in the result comes from an unscheduled parent page at the same path |
| `IncrementalProperties.IncrementalKeepsOnlyFreshCopies` | internal/knowledge/wiki_incremental.go:333-524 | whatever the reply, each result page is the compiler's or a copy all of whose citations are unchanged since the parent |
| `IncrementalProperties.EveryParentPageAccountedFor` | internal/knowledge/wiki_check.go:233-284 | if the plan passes, each parent content path was reused, recompiled or deleted |
| `IncrementalProperties.MergedPathsExact` | internal/knowledge/wiki_incremental.go:284-318 | the result's paths are exactly reused plus recompiled minus deleted, without repeats |
| `IncrementalProperties.UnscheduledPageSurvives` | internal/knowledge/wiki_incremental.go:430-511 | an unscheduled parent page is in the result as its prepared copy even if the compiler rewrote or deleted it |
| `IncrementalProperties.ReusedListIsCopiedPages` | internal/knowledge/wiki_incremental.go:420-440 | the plan's reused list names exactly the copied pages |
| `IncrementalProperties.ReusedCountExact` | internal/knowledge/wiki_incremental.go:284-318 | the reused count is the number of copied pages in the result |
| `IncrementalProperties.RejectedExactly` | internal/knowledge/wiki_incremental.go:469-494 | rejected is exactly an unscheduled path that was to be deleted, or rewritten and already in the parent |
| `IncrementalProperties.OversteppingIsNotHonoured` | internal/knowledge/wiki_check.go:264-283 | one such request makes the plan dishonoured, and the check report it |
| `IncrementalProperties.OutcomeListsOverlap` | internal/knowledge/wiki_incremental.go:496-511 | reused is disjoint from the other lists; a path is in both others exactly when written and deleted |
| `IncrementalProperties.OneHopIsEnough` | internal/knowledge/wiki_incremental_repo.go:78-117 | closed parent links, every scheduled page handled and only directly citing pages deleted: no copied page dangles |
| `IncrementalProperties.CopiesClosedExactly` | internal/knowledge/wiki_check.go:183-190 | copied pages' links are closed if and only if no carried page links to a deleted path |
| `IncrementalProperties.SecondHopDeletionDangles` | internal/knowledge/wiki_incremental_repo.go:78-117 | deleting a page scheduled only by its link leaves a dangling link two hops out |
| `Instances.SecondHopExample` | internal/knowledge/wiki_incremental_repo.go:78-117 | a closed wiki of three pages, one rewritten document and a reply: the result honours its plan and a copied page dangles |
| `IncrementalProperties.IdleBuildKeepsLoadOrder` | internal/knowledge/wiki_incremental.go:420-428 | with an empty diff the pages come out in the order they were loaded |
| `IncrementalProperties.IdleBuildIsSortedExactly` | internal/knowledge/wiki_repo.go:674-682 | loaded by kind and path, that is path order if and only if no content page of a later kind has a smaller path |
| `Instances.IdleBuildOutOfOrder` | internal/knowledge/wiki_incremental.go:420-428 | a parent whose idle build is not in path order |
| `IncrementalProperties.ResultExists` | internal/knowledge/wiki_incremental.go:430-523 | every reply, whatever it asks, has a result |
| `BuildStore.Repo.FindNextClaim` | internal/knowledge/wiki_repo.go:215-243 | the row picked is the eligible unlocked one that is first in queue order, and none is picked only if there is none |
| `BuildStore.Repo.ClaimNextBuild` | internal/knowledge/wiki_repo.go:215-303 | a spent build is retired, any other leased with its pages cleared; all other rows unchanged |
| `BuildStore.Repo.HeartbeatBuild` | internal/knowledge/wiki_repo.go:307-326 | extends the lease of its owner's running build or changes nothing |
| `BuildStore.Repo.RequeueBuild` | internal/knowledge/wiki_repo.go:330-353 | returns the owner's build to the queue with a delay or changes nothing |
| `BuildStore.Repo.YieldBuild` | internal/knowledge/wiki_repo.go:357-367 | returns the owner's running build and its attempt or changes nothing |
| `BuildStore.Repo.CommitBuild` | internal/knowledge/wiki_repo.go:460-564 | pages and terminal status land together, or nothing changes and the reason is given |
| `BuildStore.InsertFailsExactly` | internal/knowledge/wiki_repo.go:470-519 | the exact reasons an insert fails: no build, a repeated or existing path, a value its column refuses |
| `BuildStore.Repo.FinishBuild` | internal/knowledge/wiki_repo.go:581-602 | writes the label whoever calls |
| `BuildStore.Repo.ActivateBuild` | internal/knowledge/wiki_repo.go:606-658 | moves the pointer exactly for a succeeded, passed build and reports the previous one |
| `BuildStore.RollbackIsUndone` | internal/knowledge/wiki_repo.go:606-658 | activating the previous build again restores the tables |
| `Enqueue.RunEnqueue` | internal/knowledge/wiki_service.go:31-167 | the branches of a request over the build table, when nothing runs between its statements |
| `Enqueue.LateInsertExact` | internal/knowledge/wiki_service.go:89-156 | otherwise its insert does what the whole request would do at that moment if and only if active revision and latest succeeded build are still those it read and nothing covers it by then |
| `Enqueue.CreatesExactlyWhen` | internal/knowledge/wiki_service.go:89-156 | a build is queued if and only if inputs exist, an incremental request has a usable parent, and nothing already covers it unless forced |
| `Enqueue.QueuesExactlyWhen` | internal/knowledge/wiki_service.go:49-156 | the same in terms of the tables alone: indexed documents, the newest succeeded build as parent, no succeeded build that answers |
| `Enqueue.QueuedRowExactly` | internal/knowledge/wiki_repo.go:140-172 | the row that is queued, column by column |
| `Enqueue.ReusesExactly` | internal/knowledge/wiki_service.go:137-151 | a reused build is a succeeded one that answers; the pointer moves to it exactly when activation was asked for and it passed the check, the outcome says so, and nothing else changes |
| `Enqueue.RejectsExactlyWhen` | internal/knowledge/wiki_service.go:49-105 | which input is missing for each error, and that nothing changes |
| `Enqueue.PollingQueuesNothing` | internal/knowledge/wiki_service.go:458-464 | any sequence of covered unforced requests leaves the build table as it is |
| `ProtocolSteps.StepKeepsInv` | internal/knowledge/wiki_repo.go:215-658 | every step of every process keeps the invariant and changes nothing committed |
| `ProtocolSteps.InputLasts` | internal/knowledge/wiki_service.go:89-156 | the inputs a request settled on stay good inputs however other steps interleave before its insert |
| `ProtocolTheorems.ActiveWikiIsOneCheckedCommit` | internal/knowledge/wiki_service.go:309-351 | in every reachable state the active build holds the page set of exactly one commit, which passed the check |
| `ProtocolTheorems.CommittedPagesNeverChange` | internal/knowledge/wiki_repo.go:273-283 | no later run alters a committed build's pages or commits it again |
| `ProtocolTheorems.LeaseInvariant` | internal/knowledge/wiki_repo.go:215-367 | running exactly when an owner is set; unfinished builds have no pages; at most one commit per build |
| `Leases.ClaimTakesEffectExactly` | internal/knowledge/wiki_repo.go:215-243 | a claim changes anything exactly for a queued or running row whose wait and lease are over |
| `Leases.RowIsProtected` | internal/knowledge/wiki_repo.go:215-367 | until then, in every run, nobody but the lease holder changes the row, except by finishing it |
| `Leases.LeaseIsExclusive` | internal/knowledge/wiki_repo.go:244-303 | while a lease lasts the build stays its claimer's and no other process can commit it |
| `ProtocolTheorems.ClaimDeletesNothing` | internal/knowledge/wiki_repo.go:273-283 | the claim's clean-up never removes a page |
| `ProtocolTheorems.TerminalIsAbsorbing` | internal/knowledge/wiki_repo.go:536-602 | a finished build stays finished in every run |
| `ProtocolTheorems.AttemptBudget` | internal/knowledge/wiki_repo.go:244-267 | the attempt counter is claims minus refunds, within 0 and the maximum |
| `ProtocolTheorems.RefundOncePerClaim` | internal/knowledge/wiki_repo.go:357-367 | an effective yield refunds one spent attempt, and a second yield for the same claim changes nothing |
| `ProtocolTheorems.ClaimRetiresExactlyWhenSpent` | internal/knowledge/wiki_repo.go:244-291 | a claim retires a build exactly when claims reached the maximum plus refunds |
| `ProtocolTheorems.FinishIsHarmlessExactly` | internal/knowledge/wiki_repo.go:590-598 | finishing by a worker that once claimed the build keeps committed builds labelled succeeded if and only if the build has no committed pages |
| `ProtocolTheorems.CommittedLabelExact` | internal/knowledge/wiki_repo.go:590-598 | in every run a committed build is labelled succeeded if and only if no such worker finished it after its commit |
| `ProtocolTheorems.GuardedRunKeepsLabels` | internal/knowledge/wiki_worker.go:212-232 | if only lease holders finish builds, every committed build is labelled succeeded in every run |
| `ProtocolTheorems.StaleFinishRelabelsActiveBuild` | internal/knowledge/wiki_repo.go:590-598 | after a commit, any process that once claimed the build can mark the active build failed; its pages stay |
| `StaleFinish.StaleFinishHappens` | internal/knowledge/wiki_worker.go:212-232 | a run from empty tables: A claims, the lease expires, B claims, compiles, commits and activates, A finishes, and the active build is failed |
| `StaleFinish.AfterThatARequestQueuesAgain` | internal/knowledge/wiki_service.go:137-156 | in that run a request covered before the finish queues another build after it |
| `StaleFinish.LateInsertHappens` | internal/knowledge/wiki_service.go:137-156 | a request that read its inputs before that commit and inserts after it queues a build where the uninterrupted request would return the first |
| `QuietRuns.CoverageSurvivesExactly` | internal/knowledge/wiki_service.go:89-156 | over any step that neither commits nor syncs the source, coverage survives if and only if the builds left unfinished by the step still cover |
| `QuietRuns.FinishUncovers` | internal/knowledge/wiki_repo.go:590-598 | finishing the only covering full build makes the next unforced request queue a build |
| `QuietRuns.QuietRunQueuesNothing` | internal/knowledge/wiki_service.go:89-156 | while nothing commits, the source stands still and none of its succeeded builds is finished again, covered requests add no build, whatever else the workers do |
| `Freshness.StoredWikiIsWellFormed` | internal/knowledge/wiki_repo.go:470-519 | what passed the check still passes it as stored row by row |
| `Freshness.CommittedWikiIsGoodParent` | internal/knowledge/wiki_incremental.go:347-356 | a committed wiki has unique paths, closed links and resolved targets, so it can be a parent |
| `Freshness.EveryCommittedPageIsFresh` | internal/knowledge/wiki_incremental_repo.go:229-262 | over every run, each citation is resolved in the build's own revision and has the hash it had where the text was compiled; both builds record the same compiler identity |
| `Freshness.ActiveWikiIsClosedAndFresh` | internal/knowledge/wiki_service.go:309-351 | the active wiki is closed and fresh in every reachable state |
| `Freshness.LintSeesWhatMoved` | internal/knowledge/wiki_lint_repo.go:100-150 | for any committed wiki, lint's stale pages cite a document that the diff touches, and are all such pages if and only if none is hidden by documents that kept their hash but lost their text |
| `Worker.Backoff` | internal/knowledge/wiki_worker.go:273-285 | the wait is the base doubled once per earlier attempt, capped |
| `Worker.WaitsGrow` | internal/knowledge/wiki_worker.go:273-285 | waits never shrink and never pass the cap |
| `Worker.WaitDoubles` | internal/knowledge/wiki_worker.go:273-285 | the first wait is the base, each later one twice the last, until the cap |
| `Worker.EndRun` | internal/knowledge/wiki_worker.go:178-239 | which transaction follows which result |
| `Worker.Process.ClaimAndRun` | internal/knowledge/wiki_worker.go:145-175 | never more compiles than slots; a slot is kept exactly when a build was claimed |
| `Worker.Process.EndOfRun` | internal/knowledge/wiki_worker.go:160-174 | the slot is freed; tracking stays complete exactly when the process ran the build once |
| `Worker.Process.Shutdown` | internal/knowledge/wiki_worker.go:307-324 | every tracked build's row is yielded and no other, and only builds being compiled are tracked |
| `Lint.StaleCitationExact` | internal/knowledge/wiki_lint_repo.go:104-121 | lint and the revision diff agree on a citation except for a document that kept its hash but lost its indexed text |
| `Lint.StaleIsCitingTouched` | internal/knowledge/wiki_lint_repo.go:104-121 | every stale page cites a document the revision diff touches |
| `Lint.StaleMeansCitingTouched` | internal/knowledge/wiki_lint_repo.go:104-121 | the two sets are equal if and only if every page citing a document that lost its text is stale anyway |
| `Lint.LostTextIsHidden` | internal/knowledge/service.go:352-389 | a document sent again with its hash but without content: removed for the diff, nothing stale for lint |
| `Lint.StaleExactly` | internal/knowledge/wiki_lint_repo.go:104-121 | stale if and only if a cited path is gone, or a resolved citation's document differs from the one now at its path |
| `Lint.Walk` | internal/knowledge/wiki_lint_repo.go:152-186 | the recursive query terminates on any links and holds exactly the chains of at most four links |
| `Lint.StaleCascade` | internal/knowledge/wiki_lint_repo.go:152-204 | reported with h hops exactly the content pages, not stale, at distance h from 1 to 4; ordered by hops and path |
| `Lint.FirstHopExactly` | internal/knowledge/wiki_lint_repo.go:152-186 | reported one hop out is exactly a page, not stale and neither index nor log, with a resolved references or elaborates link to a stale page |
| `Lint.FirstHopIsScheduled` | internal/knowledge/wiki_incremental_repo.go:94-135 | what lint reports one hop out an incremental build would reschedule |
| `Lint.UnchangedSourcesAreClean` | internal/knowledge/wiki_lint_repo.go:100-204 | with unmoved sources nothing is stale and nothing cascades |
| `Glob.MatchSegments` | internal/knowledge/manifest.go:199-245 | the two-row dynamic program decides exactly the backtracking meaning of the pattern |
| `Glob.SelectsDocument` | internal/knowledge/manifest.go:155-177 | never the manifest; some include or none given; no exclude |
| `Glob.DirectoryPattern` | internal/knowledge/manifest.go:199-245 | literal segments and a trailing double star match exactly what lies strictly below |
| `Glob.AnyDepthPattern` | internal/knowledge/manifest.go:199-245 | a leading double star and one segment match by the last segment at any depth |
| `Glob.SegmentsExactly` | internal/knowledge/manifest.go:199-245 | the segments hold no slash and, joined by slashes, are the path |
| `Glob.BelowDirectory` | internal/knowledge/manifest.go:199-245 | a literal directory, a slash and a double star match exactly the paths that continue after directory and slash |
| `Sections.FlushSections` | internal/knowledge/chunker.go:116-167 | one section ends at each out-of-fence heading and one at the end, with the path of the headings open there |
| `Sections.SplitMarkdownSections` | internal/knowledge/chunker.go:116-175 | those sections, without the blank ones, in order |
| `Sections.SectionsCoverContent` | internal/knowledge/chunker.go:116-167 | the flushed bodies in order are the content and one newline |
| `Sections.OpenLevelsIncrease` | internal/knowledge/chunker.go:147-156 | along the heading stack levels strictly increase |
| `Sections.PathListsOpenHeadings` | internal/knowledge/chunker.go:147-156 | a path is the titles, in order and once each, of the earlier headings that none of equal or smaller level closed, its own last |
| `Sections.HeadingIsParsed` | internal/knowledge/chunker.go:186-206 | one to six hashes, a blank and a title are a heading of that level and title, without closing hashes and up to 200 runes |
| `Sections.OtherLinesAreNoHeading` | internal/knowledge/chunker.go:186-206 | no hash, seven hashes, or another character right after them: no heading |
| `Sections.BareHashesAreUntitled` | internal/knowledge/chunker.go:186-206 | hashes alone are an untitled heading |
| `Sections.FenceHidesHeadings` | internal/knowledge/chunker.go:125-141 | from an opening fence line to the next line with its marker there is no heading, and after that line the fence is closed |
| `Sections.NoFenceBefore` | internal/knowledge/chunker.go:125-141 | with no opening line before it a line is outside every fence |
| `Sections.NestedSectionPath` | internal/knowledge/chunker.go:142-161 | in a document, the next heading line, if deeper, has the path of the one before it, the separator and its own title |
| `Sections.SectionOfHeading` | internal/knowledge/chunker.go:142-167 | each heading line starts a section with its path and the lines up to the next heading |
| `Packing.SplitRuneWindows` | internal/knowledge/chunker.go:261-272 | the loop cuts the fixed windows |
| `Packing.WindowsConcat` | internal/knowledge/chunker.go:261-272 | the windows concatenate back to the paragraph |
| `Packing.WindowsFit` | internal/knowledge/chunker.go:261-272 | no window is empty or over size and only the last is short |
| `Packing.PackParagraphs` | internal/knowledge/chunker.go:216-247 | the pieces are a layout: paragraphs in order, each whole in one piece or cut, none over the cap, no piece with room for the next |
| `Packing.LayoutIsUnique` | internal/knowledge/chunker.go:216-247 | there is only one such layout |
| `Packing.SplitOversized` | internal/knowledge/chunker.go:212-247 | a body that fits stays whole, any other is laid out; no piece is over the cap and no visible character is lost or moved |
| `Packing.ParagraphsExactly` | internal/knowledge/chunker.go:216-234 | a paragraph is not blank, has no newline at its ends and no blank line inside |
| `Packing.PackedKeepsVisible` | internal/knowledge/chunker.go:216-272 | packing loses nothing but space: all other characters are in the pieces, in order |
| `Replacement.CycleCheckIsExact` | internal/memory/repo.go:568-587 | a replacement keeps the graph a forest if and only if it does not lead back |
| `Replacement.ReplacementMovesCurrent` | internal/memory/repo.go:589-602 | the replaced entry's tree hangs under the replacement's current entry, all other chains stay |
| `MemoryStore.Repo.ChainHolds` | internal/memory/repo.go:568-584 | the recursive walk terminates and finds the entry exactly when the chain reaches it |
| `MemoryStore.Repo.CreateEntry` | internal/memory/repo.go:73-116 | a new entry is stored as given, current and without signals, unless its id is taken or its window ends before it starts |
| `MemoryStore.Repo.SupersedeEntry` | internal/memory/repo.go:519-613 | outcome and new tables for every branch, and the invariant kept |
| `MemoryStore.Repo.RecordFeedback` | internal/memory/repo.go:650-719 | the row and its counter move together or not at all |
| `MemoryStore.ReplacementsStayForest` | internal/memory/repo.go:519-613 | after any operations each chain ends at one existing, current entry and none returns to its start |
| `MemoryStore.SupersedesExactlyWhen` | internal/memory/repo.go:541-604 | the exact condition for a supersede to take effect |
| `MemoryStore.SupersedeRefusedExactly` | internal/memory/repo.go:519-604 | which refusal is given: the missing entry, the earlier replacement, the cycle or the future validity |
| `MemoryStore.SupersededRowExactly` | internal/memory/repo.go:589-602 | what is written to the replaced entry, and that nothing else is |
| `MemoryStore.SupersedeMovesCurrent` | internal/memory/repo.go:589-602 | which entry is current for every entry after a supersede |
| `MemoryStore.ReplayChangesNothing` | internal/memory/repo.go:549-566 | a repeated supersede changes nothing in any later state, another replacement is refused |
| `MemoryStore.OverlappingSupersedesExact` | internal/memory/repo.go:525-539 | exactly when two interleaved supersedes of different entries close a cycle |
| `Instances.OverlappingExample` | internal/memory/repo.go:525-539 | four entries and two disjoint pairs for which they do, leaving all four replaced |
| `MemoryStore.SupersededIsNeverFound` | internal/memory/service.go:826-843 | superseded at t, an entry matches no search from t on in any later state, and gains no validity before t |
| `MemoryStore.CountersEqualLog` | internal/memory/repo.go:633-719 | in every reachable state both counters equal the rows of the log |
| `MemoryStore.FeedbackCountsOnce` | internal/memory/repo.go:670-692 | a repeated signal of a session changes nothing, whatever happened since |
| `Ranking.AdjustmentIsBounded` | internal/memory/service.go:1120-1134 | the adjustment is strictly inside the cap |
| `Ranking.AdjustmentFollowsSignals` | internal/memory/service.go:1120-1134 | one more useful signal raises it and one more harmful signal lowers it, always |
| `Ranking.LeadSurvivesFeedback` | internal/memory/service.go:335-343 | a lead of twice the cap is never reversed by adjustment and clamping |
| `Ranking.SearchEntries` | internal/memory/service.go:278-330 | candidates in retrieval order up to the limit, their stable descending sort, the first top-k re-ranked |
| `Ranking.SearchIsDetermined` | internal/memory/service.go:278-330 | the re-ranking leaves no choice: equal searches deliver equal lists |
| `Ranking.SupersededIsNotDelivered` | internal/memory/service.go:278-330 | no search after a supersede delivers the superseded entry, whatever was done in between |
| `Ranking.LeadIsDelivered` | internal/memory/service.go:308-318 | a candidate with such a lead is delivered before the other |
| `Ranking.DeliveredMatches` | internal/memory/service.go:280-292 | everything delivered is a retrieved hit of an entry that matches the request at the search time |
| `Ranking.CandidateExactly` | internal/memory/service.go:826-843 | which hits are candidates: status, filters, validity and expiry |
| `Ranking.DeliveredScore` | internal/memory/service.go:294-302 | the score delivered is the retrieval score plus 0.15 times useful minus harmful over their number plus three, clamped to 0..1 |
| `Ranking.DeliveredInOrder` | internal/memory/service.go:320-330 | scores descend along the list and ranks count up |
| `Ranking.BetterBalanceComesFirst` | internal/memory/service.go:294-330 | of two delivered entries retrieved alike, off the ends of the scale, the one with the better balance comes first |
| `Ranking.BetterBalanceIsDelivered` | internal/memory/service.go:294-330 | and it is not left out while the other is delivered |
| `Ranking.MissingIsOutranked` | internal/memory/service.go:280-330 | a candidate within the limit is delivered unless the requested number were and none scored less |
| `ContextPack.Allocate` | internal/contextpack/budget.go:18-54 | proportional parts truncated, however the quotients were rounded, the remainder to the first largest share, an even split for unknown layers |
| `ContextPack.BudgetsSumExactly` | internal/contextpack/budget.go:18-54 | over distinct layers the budgets sum exactly to the total, however the quotients were rounded |
| `ContextPack.FullSplit` | internal/contextpack/model.go:47-53 | over all five layers hundreds of characters split 30, 35, 20, 10 and 5 |
| `ContextPack.TruncateAtBoundary` | internal/contextpack/budget.go:95-113 | a prefix within the limit, cut at the earliest-listed separator whose last occurrence keeps half, else hard |
| `ContextPack.CutPrefersLargerBreaks` | internal/contextpack/budget.go:95-113 | which break is cut at: blank line, ideographic stop, full stop and space, newline, space, in this order |
| `ContextPack.Fit` | internal/contextpack/budget.go:67-90 | a prefix of whole items and at most one cut, ending only where the next does not fit |
| `ContextPack.FitEndsExactly` | internal/contextpack/budget.go:67-90 | why a layer ends: budget used up, or the next item too long with less than 80 left; a cut needs at least 80 |
| `ContextPack.FitStaysInBudget` | internal/contextpack/budget.go:67-90 | kept plus dropped is what was retrieved, used is the kept length and within budget |
| `ContextPack.FitIsDetermined` | internal/contextpack/budget.go:67-113 | the whole result of a layer, cut text included, is determined by its items and budget |
| `ContextPack.ResolveLayers` | internal/contextpack/budget.go:117-151 | the asked layers once each in canonical order, all when none, the first unknown name otherwise |
| `ContextPack.ResolvedExactly` | internal/contextpack/budget.go:117-151 | of the five layers in their order, those asked for, or all |
| `ContextPack.Pack` | internal/contextpack/service.go:58-137 | packed exactly for a size of 0 or 500 to 200000 and known layers, within 12000 or the size asked for; each layer is the fit of what its provider returned to its proportional budget |
| `TarSize.ParseTarEntrySize` | internal/gitfetch/archive.go:270-306 | exactly the stated size when well formed and below 2^63, an error otherwise, no overflow on the way |
| `TarSize.OctalFieldStates` | internal/gitfetch/archive.go:292-306 | an octal field written for n is read as n |
| `TarSize.BinaryFieldStates` | internal/gitfetch/archive.go:274-290 | a base-256 field written for n is read as n |
| `TarSize.ArchiveIsListed` | internal/gitfetch/archive.go:226-268 | an archive written with padded contents is walked header by header: every size, in order, to the end |
| `TarSize.CutEntryIsShort` | internal/gitfetch/archive.go:226-268 | cut off inside an entry it is not read to its end |
| `TarSize.ValidateTarLimits` | internal/gitfetch/archive.go:226-268 | which of the four verdicts is given, from what the stream holds: bytes go over only within the admitted entries, a surplus header precedes its bad size, unreadable only with all before the break inside both limits; accepted exactly when it reads to its end inside both |

## Left out

- SQL, pgx, HTTP, MCP tools, prompts, environment configuration: each repository method is one step on maps and sequences.
- Account and scope checks, input length limits, JSON shapes, list endpoints: each is settled by reading one branch.
- Trimming and lower-casing of the compiler's reply fields: replies arrive already normalised; index and log Markdown is arbitrary text.
- Detail texts of failures, row identifiers, frontmatter, content hashes, cost and error columns, review outcome.
- BuildStore.Repo.FindNextClaim: ties in queue order are broken arbitrarily, as the query leaves them.
- Protocol: pages are read back by kind and path, but citations and links of a page keep their order. Building profile versions and unknown mode strings are left out.
- Enqueue.RunEnqueue: its contract is that of an uninterrupted request; for others `Enqueue.LateInsertExact` and the insert and activation steps of the transition system.
- Protocol: a process name stands for one process; two processes with the same owner string are not modelled.
- Worker.Backoff: durations are unbounded integers; the source's 64-bit nanoseconds overflow only for a cap above 2^62.
- Worker.EndRun: how an error is classified as transient is the language-model client's, and is a parameter.
- Lint.StaleCascade: the other lint rules are single queries over one relation and are left out.
- Glob.MatchSegments: matching one segment is the standard library's and stays an uninterpreted function; pattern validation is left out.
- Sections.SplitMarkdownSections: texts are sequences of characters, so invalid UTF-8 is not modelled; link extraction by regular expression is left out.
- Packing.SplitOversized: the assembly of final chunks around it prepends pending headings after sizing and is not bounded by the cap.
- MemoryStore.Repo.RecordFeedback: timestamps, reasons and attribution columns; a signal for a missing memory is a constraint error, modelled as its own outcome.
- MemoryStore.SupersededIsNeverFound: times are integers; the database's rounding to microseconds is not modelled.
- Ranking.SearchEntries: scores are reals and all entries are read at one moment; hybrid retrieval itself is not part of this model.
- ContextPack.Allocate: floating-point products are not computed. A truncated quotient is the exact one, or one less where the exact one is whole, for any choice of layers; that it is never further off is a bound on double precision not proved here.
- ContextPack.ResolveLayers: upper-casing is a parameter.
- ContextPack.Pack: validation of account, task text and top-k, provider failures and notes reduce to a layer without items.
- TarSize.ValidateTarLimits: the gzip layer and the later extraction pass are left out; the stream is the decompressed bytes.
- Compile cost across attempts: one method adds to columns another overwrites, so no conservation holds.
