/** Freezing a RunSpec and collecting its RunResult as two commits on the run branch
    (src/researchctl/adapters/git_run.py, driven by services/run_records.py). */
module RunProtocol {
  import opened Wrappers
  import opened GitModel
  import opened GitProcess

  datatype RunSpec = RunSpec(
    runId: string, sourceCommit: CommitId, sourceTree: Tree, digest: string, body: string)

  datatype RunResult = RunResult(runId: string, resultId: string, specDigest: string, body: string)

  /** Canonical YAML of records, and the grammar of run ids, both left uninterpreted. */
  datatype Records = Records(
    validRunId: string -> bool,
    specText: RunSpec -> string,
    resultText: RunResult -> string)

  datatype Receipt = Receipt(commit: CommitId, changed: bool)

  function RecordPath(runId: string, kind: string): Path {
    ".research/runs/" + runId + "/" + kind + ".yaml"
  }

  function TagName(runId: string): string {
    "research-run/" + runId
  }

  function BranchName(runId: string): string {
    "research/run/" + runId
  }

  function FreezeMarker(runId: string, digest: string): string {
    "researchctl: freeze run " + runId + " " + digest
  }

  function CollectMarker(runId: string, resultId: string): string {
    "researchctl: collect run " + runId + " " + resultId
  }

  /** A record about to be committed: whether its identity is acceptable, where it goes, under
      which marker, and its canonical text. */
  datatype Step = Step(valid: bool, path: Path, marker: string, text: string) {
    function AsFile(): File {
      File(Regular, text)
    }
  }

  function FreezeStep(records: Records, branch: string, spec: RunSpec): Step {
    Step(records.validRunId(spec.runId) && branch == BranchName(spec.runId),
         RecordPath(spec.runId, "spec"), FreezeMarker(spec.runId, spec.digest), records.specText(spec))
  }

  function CollectStep(records: Records, branch: string, runId: string, result: RunResult): Step {
    Step(records.validRunId(runId) && branch == BranchName(runId),
         RecordPath(runId, "result"), CollectMarker(runId, result.resultId), records.resultText(result))
  }

  predicate Binds(result: RunResult, spec: RunSpec) {
    result.runId == spec.runId && result.specDigest == spec.digest
  }

  // ----- What each step does, as functions of the repository -----

  /** The record is an existing file reached without a symbolic link. */
  predicate IsRecordFile(f: Option<File>) {
    f.Some? && (f.value.mode.Regular? || f.value.mode.Executable?)
  }

  function Put(r: Repository, p: Path, text: string): Repository {
    r.(worktree := r.worktree[p := File(Regular, text)])
  }

  function Unlink(r: Repository, p: Path): Repository {
    r.(worktree := r.worktree - {p})
  }

  /** `_write_once`: a temporary file beside the record is created, filled, linked under the
      record's name, and unlinked. A process that dies meanwhile leaves it in the worktree. */
  function WriteOnce(r: Repository, p: Path, text: string, temp: Path): (run: Run<()>)
    ensures run.Sound() && run.trail[0] == r
  {
    match Get(r.worktree, p)
    case Some(f) => Run([r], if IsRecordFile(Some(f)) && f.content == text then Done(()) else Refused(RecordConflict))
    case None =>
      var made, filled := Put(r, temp, ""), Put(r, temp, text);
      Run([r, made, filled, Put(filled, p, text), Unlink(Put(filled, p, text), temp)], Done(()))
  }

  /** Names that `mkstemp` picks for a record. */
  function TempPath(runId: string, kind: string, random: string): Path {
    ".research/runs/" + runId + "/." + kind + ".yaml." + random
  }

  function CommitPathRun(r: Repository, p: Path, marker: string): (run: Run<bool>)
    requires Valid(r)
    ensures run.Sound() && run.trail[0] == r
    ensures forall i :: 0 <= i < |run.trail| ==> Valid(run.trail[i])
  {
    if !(Status(r) <= {p}) then Run([r], Refused(WorktreeDirty))
    else if Status(r) == {} then Run([r], Done(false))
    else
      var added := Add(r, p);
      if !Staged(added, p) then Run([r, added], Done(false))
      else Run([r, added, CommitOnly(added, p, marker)], Done(true))
  }

  function Matches(r: Repository, c: CommitId, p: Path, marker: string): Outcome<bool, Error>
    requires Valid(r) && c < |r.commits|
  {
    if WithoutFinalNewlines(r.commits[c].message) != marker then Done(false)
    else if ChangedPaths(r, c) != {p} then Refused(CommitInvalid)
    else if p !in r.commits[c].tree then Refused(GitFailed)
    else if p !in r.worktree then Refused(RecordPathInvalid)
    else if r.commits[c].tree[p].content != r.worktree[p].content then Refused(CommitInvalid)
    else Done(true)
  }

  /** `_matches_commit` followed by `_verify_parent`. */
  function Verified(r: Repository, c: CommitId, p: Path, marker: string, parent: CommitId, missing: Error)
    : Outcome<(), Error>
    requires Valid(r) && c < |r.commits|
  {
    var effect := Matches(r, c, p, marker);
    if effect.IsFailure() then effect.PropagateFailure()
    else if !effect.value then Refused(missing)
    else if r.commits[c].parents == [] then Refused(GitFailed)
    else if r.commits[c].parents[0] != parent then Refused(ParentMismatch)
    else Done(())
  }

  /** `_commit_path`, then `_verify` of the branch tip. */
  function CommitVerified(r: Repository, p: Path, marker: string, parent: CommitId): (run: Run<Receipt>)
    requires Valid(r)
    ensures run.Sound() && run.trail[0] == r
    ensures forall i :: 0 <= i < |run.trail| ==> Valid(run.trail[i])
  {
    var committed := CommitPathRun(r, p, marker);
    Run(committed.trail,
        if committed.outcome.IsFailure() then committed.outcome.PropagateFailure()
        else
          var s := committed.End();
          var v := Verified(s, s.head, p, marker, parent, CommitMissing);
          if v.IsFailure() then v.PropagateFailure() else Done(Receipt(s.head, committed.outcome.value)))
  }

  /** `commit_spec_or_observe`. */
  function SpecRun(r: Repository, valid: bool, tag: string, p: Path, marker: string, source: CommitId)
    : (run: Run<Receipt>)
    requires Valid(r)
    ensures run.Sound() && run.trail[0] == r
    ensures forall i :: 0 <= i < |run.trail| ==> Valid(run.trail[i])
  {
    if !valid then Run([r], Refused(IdentityInvalid))
    else if !IsRecordFile(Get(r.worktree, p)) then Run([r], Refused(RecordPathInvalid))
    else if tag in r.tags then
      var v := Verified(r, r.tags[tag], p, marker, source, TagConflict);
      Run([r],
          if v.IsFailure() then v.PropagateFailure()
          else if !IsAncestor(r.commits, r.tags[tag], r.head) then Refused(HistoryInvalid)
          else Done(Receipt(r.tags[tag], false)))
    else
      var committed := CommitVerified(r, p, marker, source);
      if committed.outcome.IsFailure() then committed
      else
        var s := committed.End();
        Run(committed.trail + [s.(tags := s.tags[tag := s.head])], committed.outcome)
  }

  /** `commit_result_or_observe`. */
  function ResultRun(r: Repository, valid: bool, p: Path, marker: string, spec: CommitId): (run: Run<Receipt>)
    requires Valid(r)
    ensures run.Sound() && run.trail[0] == r
    ensures forall i :: 0 <= i < |run.trail| ==> Valid(run.trail[i])
  {
    if !valid then Run([r], Refused(IdentityInvalid))
    else if !IsRecordFile(Get(r.worktree, p)) then Run([r], Refused(RecordPathInvalid))
    else CommitVerified(r, p, marker, spec)
  }

  /** `freeze`: write the RunSpec unless it is there, then commit and tag it. */
  function FreezeRun(r: Repository, step: Step, tag: string, source: CommitId, temp: Path): (run: Run<Receipt>)
    requires Valid(r)
    ensures run.Sound() && run.trail[0] == r
  {
    var written := WriteOnce(r, step.path, step.text, temp);
    if written.outcome.IsFailure() then Run(written.trail, written.outcome.PropagateFailure())
    else
      var frozen := SpecRun(written.End(), step.valid, tag, step.path, step.marker, source);
      Run(written.trail + frozen.trail, frozen.outcome)
  }

  /** The second half of `collect`: write the result and commit it over the frozen commit. */
  function CollectRun(r: Repository, step: Step, bound: bool, frozen: Receipt, temp: Path): (run: Run<Receipt>)
    requires Valid(r)
    ensures run.Sound() && run.trail[0] == r
  {
    if !bound then Run([r], Refused(ResultMismatch))
    else
      var written := WriteOnce(r, step.path, step.text, temp);
      if written.outcome.IsFailure() then Run(written.trail, written.outcome.PropagateFailure())
      else
        var collected := ResultRun(written.End(), step.valid, step.path, step.marker, frozen.commit);
        Run(written.trail + collected.trail, collected.outcome)
  }
}
