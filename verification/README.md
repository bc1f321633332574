# A verified model of researchctl

researchctl governs research work in Git repositories: it commits records of runs and policies,
opens pull requests, renders documentation, and audits how a repository is protected. This
project models the parts of it with the most state and branching in Dafny, and proves what they
are meant to guarantee. `dafny verify dfyconfig.toml` verifies the whole project.

## What is modelled

- **The run protocol** (`GitModel`, `GitProcess`, `RunProtocol`, `RunAdapter`, `RunSafety`,
  `RunRecovery`, `RunEvidence`, `CommitObject`). A repository is a commit store, a branch with its
  head, tags, an index and a worktree. Every Git call is one atomic step, and the process can die
  before, inside or after any of them. `RunAdapter` is the adapter as it executes; each of its
  methods is proved to leave behind, whenever it dies, a state of the run that `RunProtocol`
  describes as a function of the repository. Over these functions `RunSafety` proves what holds in
  every history of calls, crashes, retries and edits, `RunRecovery` when retries get to the end, and
  `RunEvidence` that the independent reader accepts what the writer leaves, and when what it
  accepts is such a run.
- **Bootstrap acceptance and control operations** (`Bootstrap`, `BootstrapSafety`, `Control`) on
  the same repositories: one commit over the expected base, whatever crashes.
- **Agent guides** (`Text`, `AgentGuide`, `AgentGuideBlocks`). The rewriter of managed blocks and the
  linter that has to accept its result were written separately, one in terms of whole markers, the
  other of a marker prefix; the results say exactly which files are rewritten, to what, and when
  the two agree.
- **Branch protection** (`GlobCompiler`, `GovernanceFold`, `GovernanceMeaning`, `Ordering`). Ref patterns are compiled
  to the text of a regular expression; the model reads that text back as an expression and
  compares what it matches with what the pattern means. Rulesets are merged into one observation,
  which is shown to be a join, and each of its fields is traced to the JSON it comes from.
- **The bounded walk over protocol data** (`FiniteWalk`), with a heap of containers that can be
  shared or contain themselves, a mutable set of ancestors and a mutable budget.
- **Submission delivery** (`SubmissionDelivery`, `SubmissionSafety`). The remote answers late,
  loses requests, or performs them after the client gave up or died. Each call consumes a list of
  what happens meanwhile, so a result for all lists is a result for all behaviours of the remote.
- **Commit graphs, parsers and builders** (`AcceptedMerge`, `WriteScope`, `WorktreeList`,
  `SiteNavigation`, `ImpactPaths`, `LatencyRank`, `SingleLineJson`, `Slug`).

Operations that change state are methods, on a class where the original is one, with loops where
it has loops. Each is proved against a function or a predicate, and the lemmas speak about those.

## Where the expected property does not hold

These are properties one might expect of the code that it does not have. In each case the model
follows the code, and a lemma says exactly when the property holds.

- The run, control and bootstrap adapters commit before they look at the parent or the content of
  the commit. A refused call can therefore have moved the branch: `RunRecovery.MovesWhenRefused`,
  `Control.MovesWhenRefused` and `BootstrapSafety.MovesWhenRefused` say exactly when. Concrete
  cases are a second, different result (`RunRecovery.SecondResultMovesBranch`), a RunSpec made
  executable before it is tagged (`RunRecovery.ExecutableSpecMovesBranch`), an executable policy
  file (`Control.ExecutablePolicyMovesBranch`), and manifest files with other content
  (`BootstrapSafety.OtherContentMovesBranch`).
- A record or policy is written by way of a temporary file beside it, in the worktree. A process that
  dies before it is gone leaves an untracked file, and every later attempt is refused because of it.
  A left-alone freeze returns a receipt exactly when the tag is set or no such file is there, a
  collect or a control operation exactly when none is (`RunRecovery.RunRecoversIff`,
  `Control.ControlRecoversIff`); `RunRecovery.DeadWriteBlocks` and `Control.DeadWriteLeaves` show such
  a death. Bootstrap acceptance writes its temporary files elsewhere.
- The evidence reader cuts the header of a commit at every character at which Python ends a line, so
  a root commit whose author name hides a parent line can pass as a child
  (`CommitObject.HiddenParentIsRead`, `RunEvidence.RootIsAccepted`), and carriage returns pass for
  line feeds in records (`RunEvidence.ReturnsAreAccepted`). `CommitObject.ReadsWhatIsWrittenIff` and
  `RunEvidence.AcceptedIsLineageIff` say exactly when the reader is right.
- Output of commands arrives with its carriage returns translated. A path that holds one does not
  come back from a raw diff (`WriteScope.DiffRoundTripIff`) or a worktree listing
  (`WorktreeList.ReadsWhatArrives`); the write scope is decided rightly all the same
  (`WriteScope.ArrivedIffInScope`).
- A governance flag that is set already hides a malformed value of the same flag, because `or`
  does not evaluate its right side. Whether a listing of rulesets is accepted can depend on its
  order (`GovernanceFold.OrderCanDecide`): exactly when it can be read in some order, which
  `GovernanceFold.SomeOrderIff` decides, and some ruleset is not accepted alone
  (`GovernanceFold.OrderDecidesIff`, `GovernanceFold.AcceptedAloneIff`). Likewise the order of ref
  patterns decides whether an unsupported one is an error (`GlobCompiler.OrderDecidesIff`, and
  `GlobCompiler.OrderDecidesErrors` for a concrete pair).
- The agent-guide rewriter accepts files that the linter then refuses: those with the bare marker
  prefix outside blocks, and those where dropping a block joins two halves of it. There are no
  others (`AgentGuide.AcceptedIffCleanFile`), and of the second kind none whose later blocks start
  lines (`AgentGuide.AcceptedIffCleanLines`). `AgentGuide.CutPrefixIsRefused` is of that kind, and the
  tool's own prefixes can be cut like it (`AgentGuide.OwnPrefixesCanBeCut`); files without either are
  rewritten once and for all (`AgentGuide.CleanFilesAreAccepted`).
- Below a protected head more than one commit can incorporate a subject: already the subject itself
  and the ordinary merge that brings it in (`AcceptedMerge.SubjectAndItsMerge`).
  `AcceptedMerge.UniqueBelowIff` says exactly when there is at most one, in any graph; on a
  first-parent history there always is (`AcceptedMerge.AtMostOneIncorporates`), and for one whose
  oldest commit does not have the subject `AcceptedMerge.IncorporatedIff` says when there is one.
- `_single_line_json_text` gives back every text in which no two surrogates stand together as a pair,
  every text of Unicode scalar values among them, and no other one (`SingleLineJson.RoundTripIff`),
  so it is not injective on all Python strings (`SingleLineJson.SurrogatesCollide`).

## Model

| member | source | states |
|---|---|---|
| `RunSafety.RunSafety` | `src/researchctl/adapters/git_run.py:142-232` | over every history of freezes, collects, crashes, retries, and edits of worktree and index between two calls, the commit store only grows from the base to base, spec, result, each record committed at most once; a tag never moves; a freeze receipt names the tagged commit for ever after; a collect receipt names the branch tip, whose only parent is the frozen commit |
| `RunSafety.StagesAdvance` | `src/researchctl/adapters/git_run.py:142-232` | the stage of the run (source, spec, tagged, collected) never goes back between any two states of a history |
| `RunSafety.SetupOfIsWellFormed` | `src/researchctl/adapters/git_run.py:152-153` | the record paths, markers and tag of a RunSpec and a RunResult are distinct, so every run of the repository is one the safety results speak about |
| `RunSafety.TempIsNoRecord` | `src/researchctl/services/run_records.py:311-311` | the temporary files that writes make beside a record never have a record's name |
| `RunSafety.CommitPathEffect` | `src/researchctl/adapters/git_run.py:277-321` | committing a record path leaves everything but the index alone, or adds exactly one commit over the tip that differs from it at that path only |
| `RunSafety.WriteOnceEffect` | `src/researchctl/services/run_records.py:302-329` | a write leaves all other files alone at every point where it can die; when it ends, only the record has been added |
| `RunSafety.MatchesMeans` | `src/researchctl/adapters/git_run.py:346-386` | a commit with one parent matches exactly when, under the marker, it changed the record and nothing else and gave it the content of the worktree; control operations use the same check |
| `RunSafety.VerifiedIff` | `src/researchctl/adapters/git_run.py:323-386` | a commit is verified exactly when its message is the marker, its one parent the expected one, and its tree differs from that parent's at the record only, where it holds what the worktree holds |
| `RunSafety.TaggedIff` | `src/researchctl/adapters/git_run.py:154-171` | for any existing tag: a receipt, naming the tag as it is, exactly when identity and path are valid and the tagged commit is an ancestor of the tip with that message, parent and tree; refused otherwise; nothing changes either way |
| `RunSafety.ObservedIff` | `src/researchctl/adapters/git_run.py:277-344` | with a clean worktree a record is reported as committed exactly when the tip has that message, parent and tree |
| `RunSafety.FrozenUnderItsNames` | `src/researchctl/services/run_records.py:201-229` | a freeze that returns was asked for on `research/run/<id>` and leaves the tag `research-run/<id>` at a commit over the source whose message is the freeze marker and which adds just the canonical RunSpec |
| `RunSafety.CollectedUnderItsNames` | `src/researchctl/services/run_records.py:252-287` | a collection that returns leaves the branch at a commit over the frozen one, under the collect marker, which adds just the canonical RunResult of that run |
| `RunSafety.SpecCommitVerifies` | `src/researchctl/adapters/git_run.py:346-407` | the spec commit passes the marker, path, content and parent checks at every later stage and stays an ancestor of the tip |
| `RunSafety.ResultCommitVerifies` | `src/researchctl/adapters/git_run.py:346-407` | the result commit passes the same checks against the frozen commit |
| `RunSafety.SpecIsNoResult` | `src/researchctl/adapters/git_run.py:204-232` | a spec commit never passes for a result commit |
| `RunSafety.SourceIsNoSpec` | `src/researchctl/adapters/git_run.py:173-186` | an uncommitted run is not taken for a frozen one |
| `RunSafety.EventStep` | `src/researchctl/services/run_records.py:201-287` | one freeze, collect, crash or edit moves the run from a stage to one no earlier, and reports only commits of that run |
| `RunRecovery.RunRecoversIff` | `src/researchctl/services/run_records.py:201-287` | after any number of crashes and retries, a freeze that is left alone returns a receipt exactly when the tag is set or no temporary file of a dead write is left over, and a collect after it exactly when none is; the whole run is then on the branch |
| `RunRecovery.FreezeCompletes` | `src/researchctl/services/run_records.py:201-229` | from every state that crashes can leave, an undisturbed freeze ends in a receipt exactly when the tag is set or no temporary file is left over, and is refused as dirty otherwise |
| `RunRecovery.CollectCompletes` | `src/researchctl/services/run_records.py:252-287` | from every such state, an undisturbed collect over the frozen commit ends in a receipt with the run complete exactly when no temporary file is left over |
| `RunRecovery.StaysClean` | `src/researchctl/services/run_records.py:201-287` | crashes and retries of the operation itself leave nothing in worktree and index but its own records and, where a write died, its temporary file |
| `RunRecovery.DeadWriteBlocks` | `src/researchctl/services/run_records.py:311-329` | a concrete case: a freeze that dies between creating and unlinking its temporary file; every later freeze is refused as dirty |
| `RunRecovery.CommittedVerifies` | `src/researchctl/adapters/git_run.py:277-407` | a call that commits a record returns a receipt for the new commit when the tip was the expected parent, and the parent error otherwise |
| `RunRecovery.MovesWhenRefused` | `src/researchctl/adapters/git_run.py:173-187` | the commit comes before the look at its parent: a call is refused with the branch moved exactly when there is something to commit and the tip is not the expected parent |
| `RunRecovery.ResultMovesWhenRefused` | `src/researchctl/adapters/git_run.py:204-232` | the same, exactly, for the result step |
| `RunRecovery.SpecMovesWhenRefused` | `src/researchctl/adapters/git_run.py:142-202` | the same, exactly, for the spec step while the tag is absent |
| `RunRecovery.SecondResultMovesBranch` | `src/researchctl/adapters/git_run.py:204-232` | a concrete case: a second, different result is refused and yet becomes the branch tip |
| `RunRecovery.ExecutableSpecMovesBranch` | `src/researchctl/adapters/git_run.py:173-187` | a concrete case: the RunSpec of a frozen run without its tag is made executable; the call is refused and the branch ends in a second commit of the RunSpec |
| `RunAdapter.GitRunAdapter.CommitPath` | `src/researchctl/adapters/git_run.py:277-321` | whenever the process dies or ends, it leaves a state of the specified run of status, add, diff and commit, with the worktree untouched |
| `RunAdapter.GitRunAdapter.VerifyRecord` | `src/researchctl/adapters/git_run.py:323-344` | a commit is verified by marker, path, content and parent |
| `RunAdapter.GitRunAdapter.FreezeRecord` | `src/researchctl/adapters/git_run.py:154-202` | checking an existing tag as `RunSafety.TaggedIff` says, or committing, verifying and tagging, with every crash point |
| `RunAdapter.GitRunAdapter.CommitSpecOrObserve` | `src/researchctl/adapters/git_run.py:142-202` | `commit_spec_or_observe` with every crash point; an existing tag is answered as `RunSafety.TaggedIff` says |
| `RunAdapter.GitRunAdapter.CommitResultOrObserve` | `src/researchctl/adapters/git_run.py:204-232` | `commit_result_or_observe` with every crash point |
| `RunAdapter.GitRunAdapter.Create` | `src/researchctl/services/run_records.py:302-329` | a record is written once, by way of a temporary file that is made, filled, linked and unlinked, with every crash point; the same content is accepted again, other content refused |
| `RunAdapter.GitRunAdapter.Freeze` | `src/researchctl/services/run_records.py:201-229` | write the RunSpec, then commit and tag it |
| `RunAdapter.GitRunAdapter.CollectOver` | `src/researchctl/services/run_records.py:252-287` | refuse a result of another run, else write it and commit it over the frozen commit |
| `GitProcess.GitProcess.Write` | `src/researchctl/adapters/git_run.py:499-525` | a Git call that changes the repository and dies may or may not have had its effect |
| `RunEvidence.WriterAndReaderAgree` | `src/researchctl/adapters/git_evidence.py:62-155` | from the moment a collector has its receipt, and whatever happens afterwards, the independent reader accepts the run and returns its records and both commits, as long as these are stored with plain header lines |
| `RunEvidence.AcceptedIsLineageIff` | `src/researchctl/adapters/git_evidence.py:62-244` | what the reader accepts is source, spec, result, one parent each, each under the message its record calls for, and each tree its parent with just the canonical record put in, exactly when neither of the two commits is a root commit and neither record holds a carriage return |
| `RunEvidence.AcceptedAsRead` | `src/researchctl/adapters/git_evidence.py:62-244` | whatever the reader accepts: each commit has its expected parent, or none and a header line that hides it; its message as read is the freeze or collect marker of the returned records; each tree is its parent's with one regular file put in that arrives as the canonical record |
| `RunEvidence.PlainMarker` | `src/researchctl/adapters/git_evidence.py:176-178` | where a commit has plain header lines, its stored message without final newlines is the marker that was read |
| `RunEvidence.RootIsAccepted` | `src/researchctl/adapters/git_evidence.py:156-165` | a concrete case: a root commit in the place of the tagged one, with an author line that hides the source commit, is accepted like it |
| `RunEvidence.ReturnsAreAccepted` | `src/researchctl/adapters/git_evidence.py:272-321` | a concrete case: a result record whose line feeds are all carriage returns is accepted as the canonical record |
| `RunEvidence.CollectedIsAccepted` | `src/researchctl/adapters/git_evidence.py:62-155` | a collected run with readable, size-bounded records reads back as exactly what was written |
| `RunEvidence.CollectedForever` | `src/researchctl/adapters/git_evidence.py:62-155` | a collect receipt means the run is collected in every later state |
| `CommitObject.ReadCommit` | `src/researchctl/adapters/git_evidence.py:323-355` | size, text, parents and message of a raw commit object, or the malformed cases |
| `CommitObject.ReadsWhatIsWrittenIff` | `src/researchctl/adapters/git_evidence.py:323-355` | of a commit as Git writes it the reader gets the parents and the message exactly when it is not too large, the message holds no carriage return, and no header line hides a parent or a blank line |
| `CommitObject.ParentsReadMeans` | `src/researchctl/adapters/git_evidence.py:323-355` | whatever is read, the parents reported are the commit's own and then those that header lines hide at the line ends of `splitlines` |
| `CommitObject.HiddenParentIsRead` | `src/researchctl/adapters/git_evidence.py:342-350` | a concrete case: a commit without parents whose author name holds a parent line between vertical tabs is read as a child of any commit |
| `CommitObject.HeaderEnds` | `src/researchctl/adapters/git_evidence.py:336-342` | the first empty line ends the headers exactly when they hold no blank line of their own |
| `BootstrapSafety.AcceptedOnce` | `src/researchctl/adapters/git_bootstrap.py:287-369` | under any calls, crashes, retries and edits the branch is the proposal, or the proposal and one commit that is never replaced; every receipt ever returned names it, and its managed tree is the manifest |
| `BootstrapSafety.RecoveryCompletes` | `src/researchctl/services/control_bootstrap.py:270-329` | whenever the manifest is in the worktree, a call that is left alone returns the receipt of the one commit, however many earlier attempts died |
| `BootstrapSafety.VerifiedIff` | `src/researchctl/adapters/git_bootstrap.py:411-492` | a commit is verified exactly when it has the proposal as its one parent, the operation message, changes including the project record and only manifest paths, a managed tree equal to the manifest in paths, modes and bytes, and a clean worktree |
| `BootstrapSafety.ObservedIff` | `src/researchctl/adapters/git_bootstrap.py:248-285` | an observation finds nothing exactly at the proposal with changes inside the manifest only, a receipt exactly at the verified commit of the operation with a clean worktree, and is refused for any other head |
| `BootstrapSafety.RequestIff` | `src/researchctl/adapters/git_bootstrap.py:371-409` | the requests let through: an Operation ID and the branch named after it, a SHA-256 digest in lower-case hexadecimal, and files by the segments of their paths, the project record among them |
| `BootstrapSafety.ControlledIff` | `src/researchctl/adapters/git_bootstrap.py:135-173` | the paths compared with the manifest are those whose first segment is one of the two managed names |
| `BootstrapSafety.AcceptedIff` | `src/researchctl/adapters/git_bootstrap.py:315-369` | from the proposal, a call returns a receipt exactly when it commits, the worktree holds the manifest and the project record differs from the proposal |
| `BootstrapSafety.MovesWhenRefused` | `src/researchctl/adapters/git_bootstrap.py:315-369` | a call is refused with the branch moved exactly when it commits a worktree that does not hold the manifest or whose project record is the proposal's |
| `BootstrapSafety.OtherContentMovesBranch` | `src/researchctl/adapters/git_bootstrap.py:315-369` | a concrete case: manifest files with other content than the manifest says are committed over the proposal, and the call is refused |
| `BootstrapSafety.MovesIff` | `src/researchctl/adapters/git_bootstrap.py:315-369` | a call moves the branch exactly when the status lies inside the manifest, includes the project record and the worktree differs from the proposal, and then by the whole worktree |
| `BootstrapSafety.ObservedIsCommitted` | `src/researchctl/adapters/git_bootstrap.py:248-285` | when `observe_prepared` returns a receipt, `commit_or_observe` in the same state returns the same one and changes nothing |
| `BootstrapSafety.ReceiptsRepeat` | `src/researchctl/adapters/git_bootstrap.py:287-329` | after a receipt, committing and observing both return the same commit again, marked as unchanged |
| `BootstrapSafety.AddedIsWorktree` | `src/researchctl/adapters/git_bootstrap.py:331-332` | staging all manifest paths makes the index the worktree |
| `BootstrapSafety.StaysPrepared` | `src/researchctl/services/control_bootstrap.py:270-329` | the operation's own writes and calls never touch anything outside the manifest |
| `Bootstrap.GitBootstrapCommitAdapter.Verify` | `src/researchctl/adapters/git_bootstrap.py:411-492` | the checks of `_verify_commit` in their order |
| `Bootstrap.GitBootstrapCommitAdapter.CompareFiles` | `src/researchctl/adapters/git_bootstrap.py:467-481` | every manifest file is compared with the committed one |
| `Bootstrap.GitBootstrapCommitAdapter.StatusPaths` | `src/researchctl/adapters/git_bootstrap.py:520-555` | the changed paths, or an error for one outside the manifest |
| `Bootstrap.GitBootstrapCommitAdapter.ObservePrepared` | `src/researchctl/adapters/git_bootstrap.py:248-285` | `observe_prepared`: nothing is changed |
| `Bootstrap.GitBootstrapCommitAdapter.CommitOrObserve` | `src/researchctl/adapters/git_bootstrap.py:287-369` | `commit_or_observe` with every crash point |
| `Control.ControlOnce` | `src/researchctl/adapters/git_control.py:651-769` | under any crashes and retries of one control operation there is at most one operation commit and it is final; every receipt names it, only the call that made it says so, and nothing changes after the first receipt |
| `Control.ControlRecoversIff` | `src/researchctl/adapters/git_control.py:651-769` | whenever the file is written, a call that is left alone returns the receipt of the one commit exactly when no temporary file of a dead write is left over, and is refused as dirty otherwise |
| `Control.DeadWriteBlocks` | `src/researchctl/services/control_github_governance_policy.py:292-320` | once a write has died and left its temporary file, no later call of the operation returns a receipt and the branch stays at its base |
| `Control.DeadWriteLeaves` | `src/researchctl/services/control_github_governance_policy.py:300-306` | a concrete case: a write that dies once its temporary file is made leaves exactly that file |
| `Control.OperationOfEndsMarker` | `src/researchctl/adapters/git_control.py:715-724` | the operations of the program have commit messages as the results ask for |
| `Control.OwnBranchAndMessage` | `src/researchctl/adapters/git_control.py:91-111` | a call is refused for its identity exactly when the ID is none or the branch is not the one named after it; what it reports as its own is a commit on that branch with command and ID as message |
| `Control.ValidateHeadIff` | `src/researchctl/adapters/git_control.py:332-403` | of any commit: false exactly for the base; true exactly when its only parent is the base, its message is the marker and its tree the base's with one regular file put in at the path that was not there like that; refused otherwise |
| `Control.CommittedIff` | `src/researchctl/adapters/git_control.py:651-769` | a call moves the branch exactly when the path is the only change; it is then accepted exactly when the tip was the requested base and the file is a plain one, and refused with the branch moved otherwise |
| `Control.MovesWhenRefused` | `src/researchctl/adapters/git_control.py:651-769` | a call is refused with the branch moved exactly when it commits a policy over another base than the requested one, or an executable file over it |
| `Control.ExecutablePolicyMovesBranch` | `src/researchctl/adapters/git_control.py:651-769` | a concrete case: an executable policy file over its own base is committed, and the call is refused |
| `Control.CommitIsTheOperations` | `src/researchctl/adapters/git_control.py:771-817` | the commit a call makes carries the operation's effect, and passes the head check exactly over that base and for a plain file |
| `Control.ReceiptAgreesWithHeadCheck` | `src/researchctl/adapters/git_control.py:332-403` | what a policy receipt says of the tip is what the independent head check says of it, unless the requested base itself carries the operation message |
| `Control.CallFromBase` | `src/researchctl/adapters/git_control.py:651-769` | from the base a call commits once, through states of the base or of the one commit only |
| `Control.CallFromCommit` | `src/researchctl/adapters/git_control.py:651-769` | from the operation commit a call only observes it |
| `Control.GitControlCommitAdapter.ValidatePolicyOperationHead` | `src/researchctl/adapters/git_control.py:332-403` | the same checks in their order, for the head that is read; `Control.ValidateHeadIff` says what they amount to |
| `Control.GitControlCommitAdapter.CommitPathOrObserve` | `src/researchctl/adapters/git_control.py:651-769` | `_commit_path_or_observe` with every crash point |
| `AgentGuide.AcceptedIffCleanFile` | `src/researchctl/document_cli.py:499-550` | for every file that is rewritten, the linter accepts the result exactly when the file given does not hold the marker prefix outside its blocks, piece by piece, and no block that is dropped stands inside a prefix |
| `AgentGuide.AcceptedIffCleanLines` | `src/researchctl/document_cli.py:499-550` | where all blocks but the first start lines, the linter accepts the result exactly when the file given does not hold the marker prefix outside its blocks |
| `AgentGuide.RewritingTwiceIsRewritingOnce` | `src/researchctl/document_cli.py:499-550` | rewriting an accepted result with the same rendering changes nothing |
| `AgentGuide.OutsideTextSurvives` | `src/researchctl/document_cli.py:539-550` | of the file as it is read, the text before the first block and every piece of text behind it that is not blank survive whole and in order around the one rendering, and so does every character outside the blocks that is not white space |
| `Text.ReceivedIff` | `src/researchctl/document_cli.py:495-496` | a file is read as it is exactly when it has no carriage return; otherwise it is rewritten with line feeds |
| `AgentGuide.AddedBlockStartsParagraph` | `src/researchctl/document_cli.py:536-538` | a block added to a file without one starts a paragraph of its own, behind all of the file |
| `AgentGuide.SplicedHalvesAreRefused` | `src/researchctl/document_cli.py:539-550` | when dropping a block joins two halves of the prefix, the result is refused |
| `AgentGuide.CutPrefixIsRefused` | `src/researchctl/document_cli.py:539-550` | a concrete case: a prefix cut in two by an empty block, between two others, is rewritten and then refused |
| `AgentGuide.MarkedTextIsARendering` | `src/researchctl/services/agent_guides.py:44-49` | any text without the prefix, put between the two markers, is a rendering the linter accepts as a file of its own |
| `AgentGuide.RenderingOccurrences` | `src/researchctl/services/agent_guides.py:124-143` | a rendering holds the marker prefix at its two markers and nowhere else |
| `AgentGuide.ScansFindTheBlock` | `src/researchctl/document_cli.py:503-532` | in a text with one rendered block and no other prefix, the scans find that block, no legacy block and two markers |
| `AgentGuide.PrefixesAreProper` | `src/researchctl/services/agent_guides.py:44-49` | the marker prefixes of both formats are what the results above require of a prefix |
| `AgentGuide.Rewrite` | `src/researchctl/document_cli.py:539-550` | the pieces joined are the text before the first block, the rendering, and the text kept behind each block |
| `AgentGuide.Upsert` | `src/researchctl/document_cli.py:499-550` | the new contents of the file, or the marker error: which files get which is said by the rows of `AgentGuideBlocks` |
| `AgentGuideBlocks.SpelledIsRewritten` | `src/researchctl/document_cli.py:503-550` | a text spelled out as marker-free text, blocks between a begin and an end marker of one version (none, or `.v` and digits), and marker-free text becomes the text before the first block, the rendering, and what is not blank of each text behind a block; without a block it becomes itself, a separator and the rendering |
| `AgentGuideBlocks.RewritableIff` | `src/researchctl/document_cli.py:503-535` | exactly such texts are rewritten; every other text is refused |
| `AgentGuideBlocks.RewrittenIffPaired` | `src/researchctl/document_cli.py:523-535` | a text is rewritten exactly when each of its markers has its partner: the next marker behind a begin, or before an end, is of the other kind and the same version |
| `AgentGuideBlocks.TextScans` | `src/researchctl/document_cli.py:507-532` | in a text spelled out like this the two block patterns find exactly its blocks, in order, and the marker pattern twice as many markers |
| `AgentGuideBlocks.Decompose` | `src/researchctl/document_cli.py:523-532` | a text whose blocks do not overlap has at least two markers for each block, and is spelled out like this if it has no more |
| `AgentGuideBlocks.FormatsAreApart` | `src/researchctl/services/agent_guides.py:44-49` | no marker of one format is a marker of the other |
| `GlobCompiler.CompiledMeans` | `src/researchctl/adapters/github_governance.py:149-175` | for every pattern without brackets and every text without line ends, the compiled expression, read back as a regular expression, matches the text exactly when the pattern, read directly, does; the compiler fails exactly on brackets |
| `GlobCompiler.ReadsBody` | `src/researchctl/adapters/github_governance.py:149-175` | the written expression parses as one element for each token of the pattern |
| `GlobCompiler.ElementsMean` | `src/researchctl/adapters/github_governance.py:149-175` | those elements match from any place of a text exactly what the pattern means there |
| `GlobCompiler.LiteralMatchesItself` | `src/researchctl/adapters/github_governance.py:149-175` | a pattern without wildcards matches itself and nothing else |
| `GlobCompiler.WideningKeepsMatches` | `src/researchctl/adapters/github_governance.py:149-175` | widening an isolated `*` to `**` never loses a match, even where it makes `**/` |
| `GlobCompiler.Compile` | `src/researchctl/adapters/github_governance.py:149-174` | the expression built by the loop, or the bracket error |
| `GlobCompiler.RefPatternMatches` | `src/researchctl/adapters/github_governance.py:144-175` | whether a pattern selects `refs/heads/<branch>`, with the two special names |
| `GlobCompiler.AnyMatches` | `src/researchctl/adapters/github_governance.py:195-202` | `any(...)` over patterns: an unsupported pattern is an error exactly when nothing before it selects the branch |
| `GlobCompiler.RulesetApplies` | `src/researchctl/adapters/github_governance.py:178-203` | a ruleset applies exactly when an include selects the branch, or there are none, and no exclude does; it is an error exactly when an entry is no string or empty, or a list trips over an unsupported pattern |
| `GlobCompiler.OrderDecidesIff` | `src/researchctl/adapters/github_governance.py:178-205` | the order of ref patterns decides whether they are an error exactly when some pattern is unsupported and some pattern selects the branch; it never decides what they select |
| `GovernanceFold.SameRulesetsSameObservation` | `src/researchctl/adapters/github_governance.py:369-516` | two listings of the same rulesets, in any order and with any repetitions, give the same observation whenever both are accepted |
| `GovernanceFold.AcceptedInEveryOrder` | `src/researchctl/adapters/github_governance.py:369-516` | the rulesets are accepted in every order exactly when each is accepted alone |
| `GovernanceFold.AcceptedAloneIff` | `src/researchctl/adapters/github_governance.py:466-498` | a ruleset is accepted alone exactly when it holds nothing malformed but flags that classic protection or an earlier part of the same ruleset has raised |
| `GovernanceFold.SomeOrderIff` | `src/researchctl/adapters/github_governance.py:369-516` | some order of the rulesets is accepted exactly when reading whichever ruleset can be read next never gets stuck; repeating rulesets does not help |
| `GovernanceFold.OrderDecidesIff` | `src/researchctl/adapters/github_governance.py:369-516` | whether a listing is accepted depends on the order of its rulesets, or on order and repetitions, exactly when that reading never gets stuck and some ruleset is not accepted alone |
| `GovernanceFold.AddingProtectsMore` | `src/researchctl/adapters/github_governance.py:369-516` | putting an accepted ruleset anywhere into an accepted listing is accepted, only adds to the observation, and changes nothing when the ruleset is there already |
| `GovernanceFold.ObservationGrows` | `src/researchctl/adapters/github_governance.py:500-516` | what only adding means for the observation: approvals not lower, no flag cleared, no source, check or bypass lost |
| `GovernanceFold.TotalMeans` | `src/researchctl/adapters/github_governance.py:369-516` | the state merged from all responses is what was read, no more and no less, and the approvals are the highest count asked for |
| `GovernanceFold.ObservedReports` | `src/researchctl/adapters/github_governance.py:500-516` | each field of the observation by what was read: every flag by its own signal, `required`, both blocks, the highest count of approvals, and each tuple sorted with exactly the labels read |
| `GovernanceMeaning.ObservationDescribes` | `src/researchctl/adapters/github_governance.py:369-516` | each field of the observation down to the JSON responses: the flag, count, label or switch in classic protection or in a rule of some ruleset that it stands for, and nothing else |
| `GovernanceMeaning.MalformedRulesetIff` | `src/researchctl/adapters/github_governance.py:441-498` | a ruleset holds something malformed other than a flag exactly when it is not of the form spelled out there, field by field |
| `GovernanceMeaning.MalformedClassicIff` | `src/researchctl/adapters/github_governance.py:390-439` | so does classic protection |
| `GovernanceMeaning.MalformedFlagIff` | `src/researchctl/adapters/github_governance.py:84-98` | a flag is malformed exactly where its own parameter is there and is no boolean |
| `GovernanceMeaning.DigitsMean` | `src/researchctl/adapters/github_governance.py:101-119` | the number in a label is the decimal numeral of the id |
| `GovernanceFold.RuleRaises` | `src/researchctl/adapters/github_governance.py:456-483` | a rule raises each flag exactly by the parameter that belongs to it |
| `GovernanceFold.RuleCounts` | `src/researchctl/adapters/github_governance.py:459-465` | a rule asks for as many approvals as its own count says |
| `GovernanceFold.RuleBlocks` | `src/researchctl/adapters/github_governance.py:455-498` | a rule requires pull requests, blocks force pushes or blocks deletions exactly by its type |
| `GovernanceFold.ClassicMeans` | `src/researchctl/adapters/github_governance.py:390-439` | classic protection raises each flag exactly by its own field, and blocks force pushes and deletions exactly when they are not allowed |
| `GovernanceFold.OrderCanDecide` | `src/researchctl/adapters/github_governance.py:466-469` | a concrete case: a malformed flag is refused in one order of two rulesets and unnoticed in the other |
| `GovernanceFold.FoldIsMonotone` | `src/researchctl/adapters/github_governance.py:369-516` | what can be read from a state can be read from any state that protects more |
| `GovernanceFold.Absorb` | `src/researchctl/adapters/github_governance.py:390-498` | reading signals one by one updates each field as the fold says, and stops at the first error |
| `GovernanceFold.Normalize` | `src/researchctl/adapters/github_governance.py:369-516` | `_normalize`: classic protection, then every ruleset, then the sorted tuples; the fields of the result report exactly the signals read |
| `Ordering.AscendingIsUnique` | `src/researchctl/adapters/github_governance.py:504-515` | a sorted tuple without duplicates is determined by its set |
| `FiniteWalk.Check` | `src/researchctl/serialization.py:82-128` | the walk accepts exactly the values that unfold to a finite tree of at most 100,000 nodes and 64 levels with finite numbers and string keys only |
| `FiniteWalk.Walk.AssertFinite` | `src/researchctl/serialization.py:82-128` | from any budget, depth and set of ancestors: accepted exactly when such a tree exists within them; the budget falls by exactly its size, and the ancestors are restored in every case |
| `FiniteWalk.UnfoldsIffAcyclic` | `src/researchctl/serialization.py:104-108` | a value unfolds to a finite tree exactly when no way down from it repeats a container |
| `FiniteWalk.UnfoldsOnce` | `src/researchctl/serialization.py:82-128` | a value unfolds to one tree only, however it is shared |
| `FiniteWalk.NoUnfoldingInsideItself` | `src/researchctl/serialization.py:104-106` | a value that is its own ancestor unfolds to nothing, so refusing it loses nothing |
| `FiniteWalk.ChildTooMuch` | `src/researchctl/serialization.py:108-126` | a child that cannot be walked within what is left makes the whole value too much |
| `SubmissionSafety.BranchMovesOnce` | `src/researchctl/adapters/github_submission.py:176-243` | with one writer the branch goes from absent to the exact commit at most once and never changes again, however many pushes are under way or land late |
| `SubmissionSafety.PushReceiptsHold` | `src/researchctl/adapters/github_submission.py:176-243` | once a push has returned, the branch is at the commit for the rest of the session |
| `SubmissionSafety.RequestsFollowAbsence` | `src/researchctl/adapters/github_submission.py:176-332` | over any session a push or a creation is sent only right after the client's own observation that there is nothing yet, so never after it has seen another commit |
| `SubmissionSafety.NeverTwoOpen` | `src/researchctl/adapters/github_submission.py:245-332` | whatever happens there are never two open pull requests for the branch and base, and in all at most one more than were closed on the way |
| `SubmissionSafety.SamePull` | `src/researchctl/adapters/github_submission.py:245-332` | while nobody closes one there is at most one pull request, ever, and it stays the same |
| `SubmissionSafety.SessionsStayDeliverable` | `src/researchctl/adapters/github_submission.py:176-332` | with one writer and nobody closing, every state of every session is one from which a push and then an opening that are left alone return receipts |
| `SubmissionSafety.OpenReceiptsAreExact` | `src/researchctl/adapters/github_submission.py:418-540` | a receipt is given for a listing of exactly one open pull request of the exact lineage, author, title and body, as it was at one moment of the call |
| `SubmissionSafety.PullStep` | `src/researchctl/adapters/github_submission.py:245-332` | no single action leaves two open pull requests |
| `SubmissionDelivery.GitHubSubmissionDelivery.PushExact` | `src/researchctl/adapters/github_submission.py:176-243` | what a push call can have done, by the way it ended, with every timeout and crash; left alone, with its request landing and its observations answered, it returns a receipt and the branch is at the commit |
| `SubmissionDelivery.GitHubSubmissionDelivery.OpenOrObserve` | `src/researchctl/adapters/github_submission.py:245-332` | what a call can have done, by the way it ended, with every timeout and crash; left alone over a pushed branch it returns a receipt |
| `SubmissionDelivery.GitHubSubmissionDelivery.RemoteHead` | `src/researchctl/adapters/github_submission.py:377-416` | an observation is true when it is made, and may fail without effect |
| `SubmissionDelivery.GitHubSubmissionDelivery.ListPulls` | `src/researchctl/adapters/github_submission.py:418-456` | a listing is true when it is made, and may fail without effect |
| `SubmissionDelivery.GitHubSubmissionDelivery.ObservePullRequest` | `src/researchctl/adapters/github_submission.py:418-540` | an observation lists the pull requests as they are at that moment and judges the listing; a failed one judges nothing |
| `SubmissionDelivery.GitHubSubmissionDelivery.Request` | `src/researchctl/adapters/github_submission.py:202-219` | a request is under way from the moment it is sent, also for a client that gives up or dies |
| `SiteNavigation.SimpleNavigation` | `src/researchctl/integrations/mkdocs.py:330-359` | the navigation shows exactly the pages of the manifest, each at its home, composed of the root pages under Overview, the written sections in policy order, and History, with every section arranged by directories |
| `SiteNavigation.NavigationIsUnique` | `src/researchctl/integrations/mkdocs.py:330-401` | only one navigation is composed like that: the pages, their headings and the order at every level are all determined by the manifest |
| `SiteNavigation.EveryPageOnce` | `src/researchctl/integrations/mkdocs.py:330-401` | so every page stands in the navigation exactly once, and nowhere else |
| `SiteNavigation.NoHeadingIsEmpty` | `src/researchctl/integrations/mkdocs.py:330-401` | no heading of such a navigation is empty, at any level |
| `SiteNavigation.NestedItems` | `src/researchctl/integrations/mkdocs.py:375-401` | every page once, under the headings of its directories; at every level the pages directly at it first and in manifest order, then its directories in the order of their first page, each with exactly its own pages |
| `SiteNavigation.SectionGroups` | `src/researchctl/integrations/mkdocs.py:361-373` | a heading for each section that has pages, in policy order, with exactly its pages arranged by directories |
| `SiteNavigation.HomesAreShown` | `src/researchctl/integrations/mkdocs.py:330-359` | current and retired roots and sections make up all pages |
| `SiteNavigation.OneLevelDown` | `src/researchctl/integrations/mkdocs.py:386-400` | one directory level down is one heading more |
| `AcceptedMerge.AtMostOneIncorporates` | `src/researchctl/adapters/git_accepted_merge.py:168-196` | on a first-parent history at most one commit incorporates a subject |
| `AcceptedMerge.IncorporatedIff` | `src/researchctl/adapters/git_accepted_merge.py:168-196` | for a history whose oldest commit does not have the subject, some commit incorporates it exactly when the subject is reachable from the head, the base is its ancestor, and it does not come in through a merge of three or more |
| `AcceptedMerge.IncorporatingMeans` | `src/researchctl/adapters/git_accepted_merge.py:168-196` | inside a history a commit incorporates the subject exactly where the subject enters it |
| `AcceptedMerge.UniqueBelowIff` | `src/researchctl/adapters/git_accepted_merge.py:168-196` | in any graph, at most one commit that a head reaches incorporates the subject exactly when every merge of two below the head that reaches the subject from above reaches it by its first parent, or the base is no ancestor of the subject |
| `AcceptedMerge.SubjectAndItsMerge` | `src/researchctl/adapters/git_accepted_merge.py:168-196` | a concrete case, and the plain one: a subject and the ordinary merge that brings it in both incorporate it, and the protected head reaches both |
| `AcceptedMerge.FindDecision` | `src/researchctl/adapters/git_accepted_merge.py:198-239` | a decision is returned exactly when every YAML entry is well-formed and it is the only attested one |
| `WorktreeList.ReadsWhatArrives` | `src/researchctl/adapters/git_worktree.py:432-486` | what is read of a printed listing is the worktrees as they arrive, in order; that is what was printed exactly when no branch holds a carriage return and each path means the same without its own |
| `WorktreeList.InventoryRefines` | `src/researchctl/adapters/reconcile.py:716-766` | the inventory accepts exactly the listings the lenient parser accepts whose paths are absolute and distinct and whose branches have no line ends, and gives the same entries, sorted |
| `WorktreeList.ParseWorktreeList` | `src/researchctl/adapters/git_worktree.py:432-466` | the entries of all records, or an error for a malformed one |
| `WorktreeList.ParseWorktrees` | `src/researchctl/adapters/reconcile.py:716-745` | the strict entries of all records, distinct and sorted, or an error |
| `WorktreeList.TakesWorktree` | `src/researchctl/adapters/git_worktree.py:432-466` | a printed worktree is read as its own dictionary, whatever comes behind it |
| `WorktreeList.RecordsAreNulFree` | `src/researchctl/adapters/reconcile.py:752-753` | no value of a parsed listing holds NUL, so that test never fails |
| `WorktreeList.RecordsIff` | `src/researchctl/adapters/git_worktree.py:432-466` | a listing falls into records exactly when each line that is not empty is one that Git writes and no record has two lines with one key |
| `WriteScope.DiffRoundTripIff` | `src/researchctl/adapters/git_ci.py:233-290` | parsing the raw diff of two trees gives exactly their differing paths, each once and in order, with modes and objects of both sides, if and only if no differing path holds a carriage return |
| `WriteScope.ArrivedIffInScope` | `src/researchctl/adapters/git_scope.py:282-407` | whatever the paths hold, the diff as it arrives is accepted exactly when every differing path is in scope, a regular file or absent on both sides, with its mode kept |
| `WriteScope.AcceptedIffInScope` | `src/researchctl/adapters/git_scope.py:353-407` | the changes between two trees are all allowed exactly when every differing path is canonical and permitted, absent or a regular file on both sides, and keeps its mode |
| `WriteScope.ChainsStayInScope` | `src/researchctl/adapters/git_scope.py:353-407` | over any chain of accepted steps everything outside the scope stays as it was, and a path that is not canonical is never touched |
| `WriteScope.CanonicalIff` | `src/researchctl/adapters/git_scope.py:579-590` | a changed path is canonical exactly when it is names joined by slashes, none of them empty or a dot segment or holding a backslash, NUL or line end |
| `WriteScope.ValidateChanges` | `src/researchctl/adapters/git_scope.py:353-407` | accepted exactly when every change is allowed, and then all paths are returned |
| `WriteScope.ValidateSource` | `src/researchctl/adapters/git_scope.py:282-350` | accepted exactly when the baseline is protected history below the source and the source stays in scope; the returned paths are the differing ones |
| `WriteScope.Changes` | `src/researchctl/adapters/git_ci.py:253-290` | the parsed, distinct and sorted changes, or an error |
| `WriteScope.ParsedIff` | `src/researchctl/adapters/git_ci.py:253-290` | exactly the output that lists changes to distinct paths as Git prints them, with or without the last NUL, is parsed, and to these changes in the order of their paths |
| `WriteScope.ParsesHeader` | `src/researchctl/adapters/git_ci.py:262-277` | a printed change is parsed as itself |
| `LatencyRank.NearestRankIff` | `src/researchctl/benchmarks.py:285-292` | the nearest rank is the one sample with at least p of all samples at most it and fewer than p below it |
| `LatencyRank.NearestRankOfPermutation` | `src/researchctl/benchmarks.py:285-292` | the order of the samples does not matter |
| `LatencyRank.NearestRankIsMonotone` | `src/researchctl/benchmarks.py:285-292` | a higher percentile is no smaller |
| `LatencyRank.Measure` | `src/researchctl/benchmarks.py:246-282` | measuring fails only when the timer moved backwards or nothing was to be measured; otherwise the measurement passes its own validation |
| `LatencyRank.DurationsMean` | `src/researchctl/benchmarks.py:246-268` | a duration is among the samples exactly as often as a call whose result passed the validator took it, in milliseconds |
| `LatencyRank.PercentilesAreInOrder` | `src/researchctl/benchmarks.py:41-69` | the three percentiles of durations are absent together or present, not negative and in order |
| `ImpactPaths.AcceptedIff` | `src/researchctl/adapters/git_impact.py:117-158` | the checks pass exactly for the impact file together with precisely the `.md` and the `.yaml` of each of one to 256 report revisions, and of one when an impact is created |
| `ImpactPaths.AcceptedReports` | `src/researchctl/adapters/git_impact.py:129-156` | accepted report paths are precisely both files of the Markdown stems |
| `ImpactPaths.RevisionIff` | `src/researchctl/adapters/git_impact.py:26-29` | a report revision is a report directory named by date, time and 24 hexadecimal digits, and a number that starts with no zero |
| `ImpactPaths.ImpactFiles` | `src/researchctl/adapters/git_impact.py:120-124` | the impact file of each command, by name |
| `ImpactPaths.ImpactIsNoReport` | `src/researchctl/adapters/git_impact.py:126-131` | a revision file is never the impact file |
| `SingleLineJson.ReadsBackPaired` | `src/researchctl/notification_cli.py:31-41` | for every Python string, reading the rendered text back by section 7 of RFC 8259 gives the string with its surrogate pairs joined |
| `SingleLineJson.RoundTripIff` | `src/researchctl/notification_cli.py:31-41` | a text comes back as it was exactly when no two surrogates in it stand together as a pair; every text of Unicode scalar values is such a text |
| `SingleLineJson.RendersNothingUnsafe` | `src/researchctl/notification_cli.py:31-41` | no character of an unsafe category is emitted, whatever the text |
| `SingleLineJson.RenderIsInjective` | `src/researchctl/notification_cli.py:31-41` | two texts without adjacent surrogate pairs, in particular two texts of scalar values, are never rendered alike |
| `SingleLineJson.SurrogatesCollide` | `src/researchctl/notification_cli.py:31-41` | a concrete case outside these: two separate surrogates are rendered like the unsafe character they stand for together |
| `SingleLineJson.RenderIsQuoted` | `src/researchctl/notification_cli.py:34-41` | the two passes together escape each character on its own, between quotes |
| `Slug.SlugifyIsSlug` | `src/researchctl/document_cli.py:745-749` | every title becomes a slug of the grammar of at most 80 characters, whatever lower-casing does |
| `Slug.FixedIffSlug` | `src/researchctl/domain/types.py:215-222` | the slugs of the grammar are exactly the titles that stay as they are |
| `Slug.SlugifyIsIdempotent` | `src/researchctl/document_cli.py:745-749` | making a slug twice is making it once |
| `Slug.SlugIsWords` | `src/researchctl/document_cli.py:745-749` | a slug is the runs of `a`-`z` and `0`-`9` of the lower-cased title joined by dashes, with `document` in front where there is no leading letter, cut to 80 characters and not behind a dash |

## Left out

Of all modules:

- Subprocesses, environments, timeouts of local Git commands, file locks, `fsync`, writes that fail
  without the process dying, and the probing of parent directories for symbolic links. A Git command
  is an atomic step, and so are making, filling, linking, renaming and unlinking a file. Temporary
  files are modelled where they stand in a worktree.
- Ignore rules: `git status` reports every untracked file.
- Error messages and error codes beyond the distinctions that the adapters themselves act on.
- Hashes, YAML and JSON decoding, pydantic models: uninterpreted functions and predicates, with
  injectivity or round trips assumed only where a lemma says so in its `requires`.
- The grammars of Operation, Run, Task and Report ids, except where a path grammar contains one.

Of the Git adapters:

- The preparation of branches and worktrees, the execution worktree, and the second writer that
  ignores the worktree lock (the branch of `commit_spec_or_observe` in which the tag appears
  between two calls is shown to be unreachable under the lock).
- Rename entries of `git status`, which the adapters refuse: the model's status is a set of paths.
  The operations themselves never delete a file, so they never make such an entry.
- Newline translation in the adapters that commit: there the contents of a text file are its
  characters. The evidence reader, the raw diff and the worktree listing are read as they arrive.
- The NUL-delimited output of `git ls-tree` and `git diff-tree --name-only`, which the model reads
  as sets of paths.
- RunSafety.RunSafety: edits happen between two calls, not between the Git commands of one, and may
  change anything in worktree and index except that they do not make the two record files
  executable or links; the chmod case is one of the exact conditions of
  `RunRecovery.MovesWhenRefused`.
- Control.ControlOnce: speaks about the operation's own writes and calls; what a call does after
  any other edit is the exact condition of `Control.CommittedIff`.
- `git_bootstrap_proposal.py`, `git_submission.py`, `git_impact_decision.py` and the committing half
  of `git_impact.py`: the same protocol shapes again.

Of the others:

- AgentGuide.Upsert: speaks of the text of the file as it is read (`Text.ReceivedIff`); the path
  checks, the file mode and the atomic replacement of the file, and the loop over configured guide
  files around the linter.
- GovernanceFold.Normalize: the HTTP calls of `observe` and its choice of active branch rulesets;
  a JSON number that is no integer is only told from zero.
- SubmissionDelivery.GitHubSubmissionDelivery.OpenOrObserve: the checks of the request and of the
  configured policy before the first call, and the JSON typing of a listed pull request.
- SubmissionSafety.BranchMovesOnce: assumes that nobody else moves the branch; a push is not forced,
  so it can fast-forward a branch that someone else put at an ancestor meanwhile.
- AcceptedMerge.FindDecision: an attestation without a decision digest or report id, for which no
  entry is read at all.
- SiteNavigation.SimpleNavigation: links relative to the document root, and the older `_navigation`
  for version 1 manifests, whose two-level grouping is a simpler case of the same argument.
- LatencyRank.Measure: rounding to six digits and floating-point products; durations are real
  numbers and percentiles fractions.
- WorktreeList.InventoryRefines: `Path` normalisation is a function of the path text.
- WriteScope.ValidateChanges: the Task's own `permits_write_path` is a predicate, and the second
  parser of the same raw format in `git_scope.py` is not modelled.
- FiniteWalk.Check: the path text in error messages.
- Credentials, SSH, tmux, session and proposal hosts, the SQLite runtime store, rendering and the
  command line.
