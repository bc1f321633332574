/** The run adapter as it executes, one Git call after another; each of its methods leaves
    behind, whenever it dies, a state of the run that RunProtocol describes. */
module RunAdapter {
  import opened Wrappers
  import opened GitModel
  import opened GitProcess
  import opened RunProtocol

  class GitRunAdapter {
    const git: GitProcess
    const records: Records

    constructor (git: GitProcess, records: Records)
      ensures this.git == git && this.records == records
    {
      this.git, this.records := git, records;
    }

    method CommitPath(relative: Path, marker: string) returns (o: Outcome<bool, Error>)
      requires Valid(git.repo)
      modifies git
      ensures CommitPathRun(old(git.repo), relative, marker).Explains(o, git.repo)
      ensures Valid(git.repo) && git.repo.worktree == old(git.repo.worktree) && git.repo.tags == old(git.repo.tags)
    {
      ghost var run := CommitPathRun(git.repo, relative, marker);
      ghost var r := git.repo;
      assert run.trail[0] == r;
      var paths :- git.StatusPaths();
      if !(paths <= {relative}) {
        return Refused(WorktreeDirty);
      }
      if paths == {} {
        return Done(false);
      }
      assert run.trail[1] == Add(r, relative);
      var _ :- git.Write(Add(git.repo, relative));
      var staged :- git.HasStaged(relative);
      if !staged {
        return Done(false);
      }
      var _ :- git.Write(CommitOnly(git.repo, relative, marker));
      return Done(true);
    }

    method MatchesCommit(commit: CommitId, relative: Path, marker: string) returns (o: Outcome<bool, Error>)
      requires Valid(git.repo) && commit < |git.repo.commits|
      modifies git`callsLeft
      ensures o.Crashed? || o == Matches(git.repo, commit, relative, marker)
    {
      var shown :- git.ShowCommit(commit);
      if WithoutFinalNewlines(shown.message) != marker {
        return Done(false);
      }
      var paths :- git.DiffTreeNames(commit);
      if paths != {relative} {
        return Refused(CommitInvalid);
      }
      var blob :- git.ShowCommit(commit);
      if relative !in blob.tree {
        return Refused(GitFailed);
      }
      if relative !in git.repo.worktree {
        return Refused(RecordPathInvalid);
      }
      if blob.tree[relative].content != git.repo.worktree[relative].content {
        return Refused(CommitInvalid);
      }
      return Done(true);
    }

    method VerifyRecord(commit: CommitId, relative: Path, marker: string, parent: CommitId, missing: Error)
      returns (o: Outcome<(), Error>)
      requires Valid(git.repo) && commit < |git.repo.commits|
      modifies git`callsLeft
      ensures o.Crashed? || o == Verified(git.repo, commit, relative, marker, parent, missing)
    {
      var effect :- MatchesCommit(commit, relative, marker);
      if !effect {
        return Refused(missing);
      }
      var shown :- git.ShowCommit(commit);
      if shown.parents == [] {
        return Refused(GitFailed);
      }
      if shown.parents[0] != parent {
        return Refused(ParentMismatch);
      }
      return Done(());
    }

    method CommitSpecOrObserve(branch: string, runId: string, digest: string, source: CommitId)
      returns (o: Outcome<Receipt, Error>)
      requires Valid(git.repo)
      modifies git
      ensures SpecRun(old(git.repo), records.validRunId(runId) && branch == BranchName(runId), TagName(runId),
                      RecordPath(runId, "spec"), FreezeMarker(runId, digest), source).Explains(o, git.repo)
    {
      if !records.validRunId(runId) || branch != BranchName(runId) {
        return Refused(IdentityInvalid);
      }
      var relative, marker, tag := RecordPath(runId, "spec"), FreezeMarker(runId, digest), TagName(runId);
      o := FreezeRecord(relative, marker, tag, source);
    }

    method FreezeRecord(relative: Path, marker: string, tag: string, source: CommitId)
      returns (o: Outcome<Receipt, Error>)
      requires Valid(git.repo)
      modifies git
      ensures SpecRun(old(git.repo), true, tag, relative, marker, source).Explains(o, git.repo)
    {
      hide CommitPathRun, Verified, IsAncestor, WellParented;
      ghost var run := SpecRun(git.repo, true, tag, relative, marker, source);
      if !IsRecordFile(Get(git.repo.worktree, relative)) {
        return Refused(RecordPathInvalid);
      }
      var tagged :- git.ResolveTag(tag);
      if tagged.Some? {
        var _ :- VerifyRecord(tagged.value, relative, marker, source, TagConflict);
        var _ :- git.Read();
        if !IsAncestor(git.repo.commits, tagged.value, git.repo.head) {
          return Refused(HistoryInvalid);
        }
        return Done(Receipt(tagged.value, false));
      }
      ghost var committed := CommitPathRun(git.repo, relative, marker);
      assert forall s <- committed.trail :: s in run.trail;
      var changed :- CommitPath(relative, marker);
      assert git.repo == committed.End();
      var head :- git.Head();
      var _ :- VerifyRecord(head, relative, marker, source, CommitMissing);
      if tag in git.repo.tags {
        // Only a writer that ignores the worktree lock could have put it there meanwhile.
        assert false;
      }
      var _ :- git.Write(git.repo.(tags := git.repo.tags[tag := head]));
      return Done(Receipt(head, changed));
    }

    method CommitResultOrObserve(branch: string, runId: string, resultId: string, spec: CommitId)
      returns (o: Outcome<Receipt, Error>)
      requires Valid(git.repo)
      modifies git
      ensures ResultRun(old(git.repo), records.validRunId(runId) && branch == BranchName(runId),
                        RecordPath(runId, "result"), CollectMarker(runId, resultId), spec).Explains(o, git.repo)
    {
      if !records.validRunId(runId) || branch != BranchName(runId) {
        return Refused(IdentityInvalid);
      }
      var relative, marker := RecordPath(runId, "result"), CollectMarker(runId, resultId);
      if !IsRecordFile(Get(git.repo.worktree, relative)) {
        return Refused(RecordPathInvalid);
      }
      var changed :- CommitPath(relative, marker);
      var head :- git.Head();
      var _ :- VerifyRecord(head, relative, marker, spec, CommitMissing);
      return Done(Receipt(head, changed));
    }

    /** Link the record into place unless it is there already, with the same content. */
    method Create(p: Path, text: string, temp: Path) returns (o: Outcome<(), Error>)
      requires Valid(git.repo)
      modifies git
      ensures WriteOnce(old(git.repo), p, text, temp).Explains(o, git.repo) && Valid(git.repo)
    {
      if p in git.repo.worktree {
        var f := git.repo.worktree[p];
        return if IsRecordFile(Some(f)) && f.content == text then Done(()) else Refused(RecordConflict);
      }
      ghost var r := git.repo;
      ghost var run := WriteOnce(r, p, text, temp);
      ghost var made, filled := Put(r, temp, ""), Put(r, temp, text);
      assert run.trail[0] == r && run.trail[1] == made && run.trail[2] == filled;
      assert run.trail[3] == Put(filled, p, text) && run.trail[4] == run.End();
      hide WriteOnce;
      var _ :- git.Write(Put(git.repo, temp, ""));
      assert Put(made, temp, text) == filled;
      var _ :- git.Write(Put(git.repo, temp, text));
      var _ :- git.Write(Put(git.repo, p, text));
      var _ :- git.Write(Unlink(git.repo, temp));
      return Done(());
    }

    method Freeze(spec: RunSpec, temp: Path) returns (o: Outcome<Receipt, Error>)
      requires Valid(git.repo)
      modifies git
      ensures FreezeRun(old(git.repo), FreezeStep(records, BranchName(spec.runId), spec),
                        TagName(spec.runId), spec.sourceCommit, temp).Explains(o, git.repo)
    {
      hide SpecRun, Status, IsAncestor;
      ghost var step := FreezeStep(records, BranchName(spec.runId), spec);
      ghost var run := FreezeRun(git.repo, step, TagName(spec.runId), spec.sourceCommit, temp);
      ghost var written := WriteOnce(git.repo, step.path, step.text, temp);
      assert forall s <- written.trail :: s in run.trail;
      var _ :- Create(RecordPath(spec.runId, "spec"), records.specText(spec), temp);
      ghost var frozen := SpecRun(git.repo, step.valid, TagName(spec.runId), step.path, step.marker, spec.sourceCommit);
      assert run == Run(written.trail + frozen.trail, frozen.outcome);
      o := CommitSpecOrObserve(BranchName(spec.runId), spec.runId, spec.digest, spec.sourceCommit);
    }

    method CollectOver(spec: RunSpec, result: RunResult, frozen: Receipt, temp: Path)
      returns (o: Outcome<Receipt, Error>)
      requires Valid(git.repo)
      modifies git
      ensures CollectRun(old(git.repo), CollectStep(records, BranchName(spec.runId), spec.runId, result),
                         Binds(result, spec), frozen, temp).Explains(o, git.repo)
    {
      hide ResultRun, Status;
      ghost var step := CollectStep(records, BranchName(spec.runId), spec.runId, result);
      ghost var run := CollectRun(git.repo, step, Binds(result, spec), frozen, temp);
      if !Binds(result, spec) {
        return Refused(ResultMismatch);
      }
      ghost var written := WriteOnce(git.repo, step.path, step.text, temp);
      assert forall s <- written.trail :: s in run.trail;
      var _ :- Create(RecordPath(spec.runId, "result"), records.resultText(result), temp);
      ghost var collected := ResultRun(git.repo, step.valid, step.path, step.marker, frozen.commit);
      assert run == Run(written.trail + collected.trail, collected.outcome);
      o := CommitResultOrObserve(BranchName(spec.runId), spec.runId, result.resultId, frozen.commit);
    }
  }
}
