/** Control operations that commit one fixed path on their own branch, and the check of such a
    branch's head (src/researchctl/adapters/git_control.py). */
module Control {
  import opened Wrappers
  import opened GitModel
  import opened GitProcess
  import opened RunProtocol
  import opened RunSafety
  import opened RunRecovery

  /** An operation: whether its identity is acceptable, its branch, the one path it may change,
      its commit message, and for policies the commit it must be based on. */
  datatype Operation = Operation(valid: bool, branch: string, path: Path, marker: string, base: Option<CommitId>)

  datatype ControlReceipt = ControlReceipt(commit: CommitId, changed: bool, effectApplied: bool)

  function OperationOf(validOperation: string -> bool, operationId: string, command: string, path: Path,
                       branch: string, base: Option<CommitId>): Operation {
    Operation(validOperation(operationId) && branch == "research/control/" + operationId,
              branch, path, "researchctl: " + command + " " + operationId, base)
  }

  /** The operations of the program have markers as the results below ask for. */
  lemma OperationOfEndsMarker(validOperation: string -> bool, operationId: string, command: string, path: Path,
                              branch: string, base: Option<CommitId>)
    requires EndsMarker(operationId)
    ensures EndsMarker(OperationOf(validOperation, operationId, command, path, branch, base).marker)
  {
  }

  /** `validate_policy_operation_head`: false for the bare base, true for the operation's commit. */
  function ValidateHead(r: Repository, c: CommitId, base: CommitId, p: Path, marker: string): Outcome<bool, Error>
    requires Valid(r) && c < |r.commits|
  {
    if c == base then Done(false)
    else if WithoutFinalNewlines(r.commits[c].message) != marker
      || r.commits[c].parents != [base]
      || ChangedPaths(r, c) != {p}
      || p !in r.commits[c].tree || r.commits[c].tree[p].mode != Regular
    then Refused(CommitInvalid)
    else Done(true)
  }

  /** MAIN: what the check of a branch head says of any commit: it is the base; or its one parent
      is the base, its message the marker, and its tree the base's with one regular file put in
      that was not there like that before; or it is refused. */
  lemma ValidateHeadIff(r: Repository, c: CommitId, base: CommitId, p: Path, marker: string)
    requires Valid(r) && c < |r.commits|
    ensures var v := ValidateHead(r, c, base, p, marker);
      && (v == Done(false) <==> c == base)
      && (v == Done(true) <==>
          && c != base && r.commits[c].parents == [base] && base < |r.commits|
          && WithoutFinalNewlines(r.commits[c].message) == marker
          && p in r.commits[c].tree && r.commits[c].tree[p].mode.Regular?
          && r.commits[c].tree == r.commits[base].tree[p := r.commits[c].tree[p]]
          && Get(r.commits[base].tree, p) != Some(r.commits[c].tree[p]))
      && (v.Done? || v == Refused(CommitInvalid))
  {
    var commit := r.commits[c];
    hide WithoutFinalNewlines;
    if commit.parents == [base] {
      assert base == commit.parents[0] < c;
      if p in commit.tree {
        OneFilePutIn(r.commits[base].tree, commit.tree, p);
      }
    }
  }

  lemma OneFilePutIn(a: Tree, b: Tree, p: Path)
    requires p in b
    ensures Differing(a, b) == {p} <==> b == a[p := b[p]] && Get(a, p) != Some(b[p])
  {
    if Differing(a, b) == {p} {
      forall q | q != p ensures Get(a, q) == Get(b, q) {
        assert q !in Differing(a, b);
      }
      SameFiles(b, a[p := b[p]]);
      assert p in Differing(a, b);
    }
    if b == a[p := b[p]] {
      SetChangesOnly(a, p, Some(b[p]));
    }
  }

  /** What is reported once the branch tip has been looked at. */
  function Concluded(r: Repository, op: Operation, created: bool): (o: Outcome<ControlReceipt, Error>)
    requires Valid(r)
    ensures !o.Crashed?
  {
    var effect := Matches(r, r.head, op.path, op.marker);
    if effect.IsFailure() then effect.PropagateFailure()
    else
      var based := if op.base.None? then Done(true)
                   else if effect.value then ValidateHead(r, r.head, op.base.value, op.path, op.marker)
                   else if r.head != op.base.value then Refused(CommitInvalid)
                   else Done(false);
      if based.IsFailure() then based.PropagateFailure()
      else if created && !effect.value then Refused(CommitInvalid)
      else Done(ControlReceipt(r.head, created, effect.value))
  }

  /** `_commit_path_or_observe` and the checks of its callers. */
  function ControlRun(r: Repository, op: Operation): (run: Run<ControlReceipt>)
    requires Valid(r)
    ensures run.Sound() && run.trail[0] == r
  {
    if !op.valid then Run([r], Refused(IdentityInvalid))
    else if !IsRecordFile(Get(r.worktree, op.path)) then Run([r], Refused(RecordPathInvalid))
    else if r.branch != op.branch then Run([r], Refused(BranchMismatch))
    else
      var committed := CommitPathRun(r, op.path, op.marker);
      Run(committed.trail,
          if committed.outcome.IsFailure() then committed.outcome.PropagateFailure()
          else Concluded(committed.End(), op, committed.outcome.value))
  }

  /** MAIN: an operation of the program is refused for its identity exactly when its ID is none or
      the branch is not the one named after it; and what it reports as its own is a commit on that
      branch with the command and the ID as its message. */
  lemma OwnBranchAndMessage(r: Repository, validOperation: string -> bool, operationId: string, command: string,
                            path: Path, branch: string, base: Option<CommitId>)
    requires Valid(r)
    ensures var run := ControlRun(r, OperationOf(validOperation, operationId, command, path, branch, base));
      && (run.outcome == Refused(IdentityInvalid) <==>
          !validOperation(operationId) || branch != "research/control/" + operationId)
      && (run.outcome.Done? ==>
          var receipt, s := run.outcome.value, run.End();
          && s.branch == "research/control/" + operationId && receipt.commit == s.head < |s.commits|
          && (receipt.effectApplied ==>
              WithoutFinalNewlines(s.commits[s.head].message) == "researchctl: " + command + " " + operationId))
  {
    ControlRunMeans(r, OperationOf(validOperation, operationId, command, path, branch, base));
    hide ControlRun, Valid, WithoutFinalNewlines;
  }

  lemma ControlRunMeans(r: Repository, op: Operation)
    requires Valid(r)
    ensures var run := ControlRun(r, op);
      && (run.outcome == Refused(IdentityInvalid) <==> !op.valid)
      && (run.outcome.Done? ==>
          var receipt, s := run.outcome.value, run.End();
          && s.branch == op.branch && receipt.commit == s.head < |s.commits|
          && (receipt.effectApplied ==> WithoutFinalNewlines(s.commits[s.head].message) == op.marker))
  {
    CommitPathKeepsBranch(r, op.path, op.marker);
    var committed := CommitPathRun(r, op.path, op.marker);
    if committed.outcome.Done? {
      ConcludedMeans(committed.End(), op, committed.outcome.value);
      HeadInStore(committed.End());
    }
    hide CommitPathRun, Concluded, Valid, WithoutFinalNewlines, IsRecordFile;
  }

  lemma HeadInStore(r: Repository)
    requires Valid(r)
    ensures r.head < |r.commits|
  {
  }

  lemma CommitPathKeepsBranch(r: Repository, p: Path, marker: string)
    requires Valid(r)
    ensures var run := CommitPathRun(r, p, marker);
      run.Sound() && Valid(run.End()) && run.End().branch == r.branch && run.outcome != Refused(IdentityInvalid)
  {
  }

  lemma ConcludedMeans(r: Repository, op: Operation, created: bool)
    requires Valid(r)
    ensures var o := Concluded(r, op, created);
      && o != Refused(IdentityInvalid)
      && (o.Done? ==> o.value.commit == r.head)
      && (o.Done? && o.value.effectApplied ==> WithoutFinalNewlines(r.commits[r.head].message) == op.marker)
  {
    hide WithoutFinalNewlines, ChangedPaths;
  }

  class GitControlCommitAdapter {
    const git: GitProcess

    constructor (git: GitProcess)
      ensures this.git == git
    {
      this.git := git;
    }

    method ValidatePolicyOperationHead(c: CommitId, base: CommitId, p: Path, marker: string)
      returns (o: Outcome<bool, Error>)
      requires Valid(git.repo) && c < |git.repo.commits|
      modifies git`callsLeft
      ensures o.Crashed? || o == ValidateHead(git.repo, c, base, p, marker)
    {
      if c == base {
        return Done(false);
      }
      var shown :- git.ShowCommit(c);
      var paths :- git.DiffTreeNames(c);
      var listed :- git.ShowCommit(c);
      if WithoutFinalNewlines(shown.message) != marker || shown.parents != [base] || paths != {p}
        || p !in listed.tree || listed.tree[p].mode != Regular {
        return Refused(CommitInvalid);
      }
      return Done(true);
    }

    method EffectApplied(c: CommitId, p: Path, marker: string) returns (o: Outcome<bool, Error>)
      requires Valid(git.repo) && c < |git.repo.commits|
      modifies git`callsLeft
      ensures o.Crashed? || o == Matches(git.repo, c, p, marker)
    {
      var shown :- git.ShowCommit(c);
      if WithoutFinalNewlines(shown.message) != marker {
        return Done(false);
      }
      var paths :- git.DiffTreeNames(c);
      if paths != {p} {
        return Refused(CommitInvalid);
      }
      var committed :- git.ShowCommit(c);
      if p !in committed.tree {
        return Refused(GitFailed);
      }
      if p !in git.repo.worktree {
        return Refused(RecordPathInvalid);
      }
      if committed.tree[p].content != git.repo.worktree[p].content {
        return Refused(CommitInvalid);
      }
      return Done(true);
    }

    method CommitPathOrObserve(op: Operation) returns (o: Outcome<ControlReceipt, Error>)
      requires Valid(git.repo)
      modifies git
      ensures ControlRun(old(git.repo), op).Explains(o, git.repo)
    {
      hide Matches, ValidateHead, WellParented, Differing;
      ghost var r := git.repo;
      ghost var run := ControlRun(r, op);
      assert run.trail[0] == r;
      if !op.valid {
        return Refused(IdentityInvalid);
      }
      if !IsRecordFile(Get(git.repo.worktree, op.path)) {
        return Refused(RecordPathInvalid);
      }
      var _ :- git.Read();
      if git.repo.branch != op.branch {
        return Refused(BranchMismatch);
      }
      ghost var committed := CommitPathRun(r, op.path, op.marker);
      assert run.trail == committed.trail;
      var status :- git.StatusPaths();
      if !(status <= {op.path}) {
        return Refused(WorktreeDirty);
      }
      var commitCreated := false;
      if status != {} {
        assert committed.trail[1] == Add(r, op.path);
        var _ :- git.Write(Add(git.repo, op.path));
        var staged :- git.HasStaged(op.path);
        if staged {
          assert committed.trail[2] == CommitOnly(git.repo, op.path, op.marker);
          var _ :- git.Write(CommitOnly(git.repo, op.path, op.marker));
          commitCreated := true;
        }
      }
      assert git.repo == committed.End() && committed.outcome == Done(commitCreated);
      var head :- git.Head();
      var effectApplied :- EffectApplied(head, op.path, op.marker);
      if op.base.Some? {
        if effectApplied {
          var _ :- ValidatePolicyOperationHead(head, op.base.value, op.path, op.marker);
        } else if head != op.base.value {
          return Refused(CommitInvalid);
        }
      }
      if commitCreated && !effectApplied {
        return Refused(CommitInvalid);
      }
      return Done(ControlReceipt(head, commitCreated, effectApplied));
    }
  }

  // ----- One call -----

  /** MAIN: a call that commits is accepted exactly when the commit is over the requested base
      (if one is requested) and the file is a plain one; otherwise it is refused although the
      branch has moved. Calls that do not commit leave the branch where it is. */
  lemma CommittedIff(r: Repository, op: Operation)
    requires Valid(r) && EndsMarker(op.marker) && op.valid && r.branch == op.branch
    requires IsRecordFile(Get(r.worktree, op.path))
    requires op.base.Some? ==> op.base.value < |r.commits|
    ensures var run := ControlRun(r, op);
      && (run.End().head != r.head <==> WillCommit(r, op.path))
      && (WillCommit(r, op.path) ==>
        && run.End().head == |r.commits|
        && run.End().commits == r.commits +
          [Commit([r.head], op.marker + "\n", HeadTree(r)[op.path := r.worktree[op.path]])]
        && run.outcome ==
           if op.base.None? || (op.base == Some(r.head) && r.worktree[op.path].mode.Regular?)
           then Done(ControlReceipt(|r.commits|, true, true)) else Refused(CommitInvalid))
  {
    CommitPathEffect(r, op.path, op.marker);
    hide CommitPathRun, Matches, ValidateHead;
    if WillCommit(r, op.path) {
      CommitIsTheOperations(r, op);
    }
  }

  /** MAIN: so a call is refused and has yet moved the branch exactly when it commits a policy
      over another base than the requested one, or an executable file over it. */
  lemma MovesWhenRefused(r: Repository, op: Operation)
    requires Valid(r) && EndsMarker(op.marker) && (op.base.Some? ==> op.base.value < |r.commits|)
    ensures var run := ControlRun(r, op);
      run.outcome.Refused? && run.End().head != r.head <==>
        && op.valid && r.branch == op.branch && IsRecordFile(Get(r.worktree, op.path)) && WillCommit(r, op.path)
        && op.base.Some? && (op.base.value != r.head || !r.worktree[op.path].mode.Regular?)
  {
    if op.valid && IsRecordFile(Get(r.worktree, op.path)) && r.branch == op.branch {
      CommittedIff(r, op);
    }
    hide Concluded, CommitPathRun;
  }

  /** One empty commit, with the given files over it. */
  function OneCommit(branch: string, worktree: Tree): (r: Repository)
    ensures Valid(r)
  {
    Repository([Commit([], "base\n", map[])], branch, 0, map[], map[], worktree)
  }

  /** A concrete case: an executable policy file over its own base. The call is refused, and the
      branch now ends in the commit of that file. */
  lemma ExecutablePolicyMovesBranch(op: Operation, text: string)
    requires op.valid && EndsMarker(op.marker) && op.base == Some(0)
    ensures var r := OneCommit(op.branch, map[op.path := File(Executable, text)]);
      && ControlRun(r, op).outcome == Refused(CommitInvalid)
      && ControlRun(r, op).End().head == 1
      && ControlRun(r, op).End().commits ==
         r.commits + [Commit([0], op.marker + "\n", map[op.path := File(Executable, text)])]
  {
    var r := OneCommit(op.branch, map[op.path := File(Executable, text)]);
    assert op.path in Differing(r.index, r.worktree);
    assert Status(r) == {op.path};
    CommittedIff(r, op);
    assert HeadTree(r)[op.path := r.worktree[op.path]] == map[op.path := File(Executable, text)];
  }

  /** The commit that a call makes carries the operation's effect, and passes the check of the
      head exactly when it is over that base and holds a plain file. */
  lemma CommitIsTheOperations(r: Repository, op: Operation)
    requires Valid(r) && EndsMarker(op.marker) && WillCommit(r, op.path)
    ensures var run := CommitPathRun(r, op.path, op.marker);
      && run.outcome == Done(true) && run.End().head == |r.commits|
      && run.End().commits == r.commits +
        [Commit([r.head], op.marker + "\n", HeadTree(r)[op.path := r.worktree[op.path]])]
      && Matches(run.End(), |r.commits|, op.path, op.marker) == Done(true)
      && forall base: CommitId :: base < |r.commits| ==>
           ValidateHead(run.End(), |r.commits|, base, op.path, op.marker) ==
             if base == r.head && r.worktree[op.path].mode.Regular? then Done(true) else Refused(CommitInvalid)
  {
    CommitPathEffect(r, op.path, op.marker);
    MessageRoundTrip(op.marker);
    SetChangesOnly(HeadTree(r), op.path, Some(r.worktree[op.path]));
    var s := CommitPathRun(r, op.path, op.marker).End();
    assert s.commits[s.head] == Commit([r.head], op.marker + "\n", HeadTree(r)[op.path := r.worktree[op.path]]);
    assert s.commits[r.head] == r.commits[r.head];
  }

  /** MAIN: what a policy receipt says of the tip is what the independent check of the branch
      head says of it, unless the requested base itself carries the operation's message. */
  lemma ReceiptAgreesWithHeadCheck(r: Repository, op: Operation)
    requires Valid(r) && op.base.Some? && ControlRun(r, op).outcome.Done?
    ensures var run, receipt := ControlRun(r, op), ControlRun(r, op).outcome.value;
      && Valid(run.End()) && receipt.commit == run.End().head < |run.End().commits|
      && var checked := ValidateHead(run.End(), receipt.commit, op.base.value, op.path, op.marker);
         && checked == Done(receipt.commit != op.base.value)
         && (receipt.commit != op.base.value ==> receipt.effectApplied)
         && (receipt.effectApplied && receipt.commit == op.base.value <==>
             receipt.commit == op.base.value
             && WithoutFinalNewlines(run.End().commits[receipt.commit].message) == op.marker)
  {
    hide CommitPathRun, ChangedPaths;
  }

  // ----- Histories of one operation -----

  /** How the file gets its name once its temporary file is filled: a new Task record is linked
      and the temporary unlinked, anything else is replaced. */
  datatype Naming = Linking | Replacing

  /** The services write the file by way of a temporary file beside it, in the worktree. */
  function WriteRun(r: Repository, p: Path, text: string, temp: Path, naming: Naming): (run: Run<()>)
    ensures run.Sound() && run.trail[0] == r
  {
    var made, filled := Put(r, temp, ""), Put(r, temp, text);
    var named := Put(filled, p, text);
    Run([r, made, filled] + (if naming.Linking? then [named] else []) + [Unlink(named, temp)], Done(()))
  }

  /** What the operation does between crashes: it writes the file unless it is there, and calls
      once it is written. */
  datatype Event =
    | Write(temp: Path, naming: Naming, written: Outcome<(), Error>)
    | Call(o: Outcome<ControlReceipt, Error>)

  ghost predicate Linked(op: Operation, file: File, r: Repository, event: Event, s: Repository) {
    && Valid(r)
    && match event
       case Write(temp, naming, o) =>
         && !(op.path in r.worktree && r.worktree[op.path].content == file.content)
         && temp !in r.worktree && temp != op.path
         && WriteRun(r, op.path, file.content, temp, naming).Explains(o, s)
       case Call(o) => Get(r.worktree, op.path) == Some(file) && ControlRun(r, op).Explains(o, s)
  }

  ghost predicate History(op: Operation, file: File, states: seq<Repository>, events: seq<Event>) {
    && |states| == |events| + 1
    && Startable(op, file, states[0])
    && forall i :: 0 <= i < |events| ==> Linked(op, file, states[i], events[i], states[i + 1])
  }

  /** The branch is at the base, nothing but the path differs from it, and the file is news. */
  ghost predicate Startable(op: Operation, file: File, r: Repository) {
    && Valid(r) && op.valid && EndsMarker(op.marker) && r.branch == op.branch
    && (op.base.None? || op.base.value == r.head)
    && file.mode.Regular? && Status(r) <= {op.path} && Get(HeadTree(r), op.path) != Some(file)
  }

  /** Files that are neither the base's nor the operation's: what writes that died have left. */
  function Leftovers(op: Operation, start: Repository, r: Repository): set<Path>
    requires start.head < |start.commits|
  {
    r.worktree.Keys - HeadTree(start).Keys - {op.path}
  }

  /** Not committed yet: away from the path the index is the base, and the worktree has all its
      files unchanged. */
  ghost predicate Unborn(op: Operation, start: Repository, r: Repository)
    requires start.head < |start.commits|
  {
    && r == start.(index := r.index, worktree := r.worktree)
    && forall q :: q != op.path ==>
         Get(r.index, q) == Get(HeadTree(start), q)
         && (q in HeadTree(start) ==> Get(r.worktree, q) == Get(HeadTree(start), q))
  }

  function OperationCommit(op: Operation, file: File, start: Repository): Commit
    requires start.head < |start.commits|
  {
    Commit([start.head], op.marker + "\n", HeadTree(start)[op.path := file])
  }

  ghost predicate Born(op: Operation, file: File, start: Repository, r: Repository)
    requires start.head < |start.commits|
  {
    var c := OperationCommit(op, file, start);
    r == start.(commits := start.commits + [c], head := |start.commits|, index := c.tree, worktree := c.tree)
  }

  lemma BornIsValid(op: Operation, file: File, start: Repository, r: Repository)
    requires Valid(start) && (Unborn(op, start, r) || Born(op, file, start, r))
    ensures Valid(r) && (Born(op, file, start, r) ==> Leftovers(op, start, r) == {})
  {
  }

  lemma StartIsUnborn(op: Operation, file: File, start: Repository)
    requires Startable(op, file, start)
    ensures Unborn(op, start, start) && Leftovers(op, start, start) == {}
  {
    forall q | q != op.path ensures Get(start.index, q) == Get(HeadTree(start), q) == Get(start.worktree, q) {
      assert q !in Status(start);
    }
    forall q ensures q !in Leftovers(op, start, start) {
      assert q != op.path ==> Get(start.worktree, q) == Get(HeadTree(start), q);
    }
  }

  /** Without leftovers only the path is reported as changed; a leftover is reported as well. */
  lemma LeftoversAreReported(op: Operation, start: Repository, r: Repository)
    requires Valid(start) && Unborn(op, start, r)
    ensures Status(r) <= {op.path} <==> Leftovers(op, start, r) == {}
  {
    assert HeadTree(r) == HeadTree(start);
    if Leftovers(op, start, r) == {} {
      forall q | q != op.path ensures q !in Status(r) {
        assert q !in Leftovers(op, start, r);
      }
    } else {
      var q :| q in Leftovers(op, start, r);
      assert Get(r.index, q) == None && q in Differing(r.index, r.worktree);
    }
  }

  /** Away from the path, HEAD, index and worktree agree. */
  lemma OnlyThePathDiffers(r: Repository, p: Path, file: File)
    requires r.head < |r.commits| && Status(r) <= {p} && Get(r.worktree, p) == Some(file)
    ensures r.worktree == r.index[p := file] == HeadTree(r)[p := file]
  {
    forall q | q != p ensures Get(HeadTree(r), q) == Get(r.index, q) == Get(r.worktree, q) {
      assert q !in Status(r);
    }
    SameFiles(r.worktree, r.index[p := file]);
    SameFiles(r.worktree, HeadTree(r)[p := file]);
  }

  /** From the base, a call commits once. */
  lemma CallFromBase(op: Operation, file: File, start: Repository, r: Repository)
    requires Startable(op, file, start) && Unborn(op, start, r) && Valid(r) && Get(r.worktree, op.path) == Some(file)
    requires Leftovers(op, start, r) == {}
    ensures var run := ControlRun(r, op);
      && run.outcome == Done(ControlReceipt(|start.commits|, true, true))
      && Born(op, file, start, run.End())
      && forall s <- run.trail :: Unborn(op, start, s) || Born(op, file, start, s)
  {
    LeftoversAreReported(op, start, r);
    OnlyThePathDiffers(r, op.path, file);
    assert op.path in Status(r);
    CommittedIff(r, op);
    CommitPathEffect(r, op.path, op.marker);
    hide Concluded, CommitPathRun, Status;
    var run := CommitPathRun(r, op.path, op.marker);
    forall i | 0 <= i < |run.trail| - 1 ensures Unborn(op, start, run.trail[i]) {
      TrailIndex(r, op.path, op.marker, i);
    }
  }

  lemma TrailIndex(r: Repository, p: Path, marker: string, i: nat)
    requires Valid(r) && i < |CommitPathRun(r, p, marker).trail| - 1
    ensures var s := CommitPathRun(r, p, marker).trail[i];
      s == r.(index := s.index) && forall q :: q != p ==> Get(s.index, q) == Get(r.index, q)
  {
  }

  /** A leftover makes every call refuse. */
  lemma CallWithLeftovers(op: Operation, file: File, start: Repository, r: Repository)
    requires Startable(op, file, start) && Unborn(op, start, r) && Valid(r) && Get(r.worktree, op.path) == Some(file)
    requires Leftovers(op, start, r) != {}
    ensures ControlRun(r, op) == Run([r], Refused(WorktreeDirty))
  {
    LeftoversAreReported(op, start, r);
    hide Status, Concluded;
  }

  /** From the operation's commit, a call only observes it. */
  lemma CallFromCommit(op: Operation, file: File, start: Repository, r: Repository)
    requires Startable(op, file, start) && Born(op, file, start, r) && Valid(r)
    ensures ControlRun(r, op) == Run([r], Done(ControlReceipt(|start.commits|, false, true)))
  {
    MessageRoundTrip(op.marker);
    SetChangesOnly(HeadTree(start), op.path, Some(file));
    assert r.commits[start.head] == start.commits[start.head];
    assert Status(r) == {};
  }

  lemma WritesStayUnborn(op: Operation, start: Repository, r: Repository, text: string, temp: Path, naming: Naming)
    requires Valid(start) && Unborn(op, start, r) && temp !in r.worktree && temp != op.path
    ensures forall s <- WriteRun(r, op.path, text, temp, naming).trail :: Unborn(op, start, s)
  {
  }

  lemma EventStep(op: Operation, file: File, start: Repository, r: Repository, event: Event, s: Repository)
    requires Startable(op, file, start) && Linked(op, file, r, event, s)
    requires Unborn(op, start, r) || Born(op, file, start, r)
    ensures Unborn(op, start, s) || Born(op, file, start, s)
    ensures Born(op, file, start, r) ==> s == r
    ensures event.Call? && event.o.Done? ==>
      Born(op, file, start, s) && event.o.value == ControlReceipt(|start.commits|, Unborn(op, start, r), true)
  {
    match event
    case Write(temp, naming, o) =>
      if Unborn(op, start, r) {
        WritesStayUnborn(op, start, r, file.content, temp, naming);
        EndIsOnTrail(r, op.path, file.content, temp, naming);
      }
    case Call(o) =>
      if Born(op, file, start, r) {
        CallFromCommit(op, file, start, r);
      } else if Leftovers(op, start, r) == {} {
        CallFromBase(op, file, start, r);
      } else {
        CallWithLeftovers(op, file, start, r);
      }
      hide ControlRun, Startable, Status;
  }

  lemma EndIsOnTrail(r: Repository, p: Path, text: string, temp: Path, naming: Naming)
    ensures var run := WriteRun(r, p, text, temp, naming); run.End() in run.trail
  {
  }

  lemma {:induction false} UnbornOrBorn(op: Operation, file: File, states: seq<Repository>, events: seq<Event>,
                                        i: nat, j: nat)
    requires History(op, file, states, events) && i <= j < |states|
    ensures Unborn(op, states[0], states[j]) || Born(op, file, states[0], states[j])
    ensures Born(op, file, states[0], states[i]) ==> states[j] == states[i]
    decreases j
  {
    hide ControlRun, Status;
    if j > 0 {
      UnbornOrBorn(op, file, states, events, if i == j then i - 1 else i, j - 1);
      EventStep(op, file, states[0], states[j - 1], events[j - 1], states[j]);
    } else {
      StartIsUnborn(op, file, states[0]);
    }
  }

  /** MAIN: under any crashes and retries there is at most one operation commit over the base and
      it is final; every receipt names it, only the call that makes it says so, and from the
      first receipt on the repository does not change. */
  lemma ControlOnce(op: Operation, file: File, states: seq<Repository>, events: seq<Event>, i: nat, j: nat)
    requires History(op, file, states, events) && i <= j < |states|
    ensures states[j].commits == states[0].commits ||
      states[j].commits == states[0].commits + [OperationCommit(op, file, states[0])]
    ensures states[i].commits <= states[j].commits
    ensures i < j && events[i].Call? && events[i].o.Done? ==>
      && states[j] == states[i + 1]
      && states[j].head == events[i].o.value.commit == |states[0].commits|
      && events[i].o.value.effectApplied
      && (events[i].o.value.changed <==> states[i].commits == states[0].commits)
  {
    hide ControlRun, Status;
    UnbornOrBorn(op, file, states, events, i, j);
    if i < j {
      UnbornOrBorn(op, file, states, events, i, i);
      EventStep(op, file, states[0], states[i], events[i], states[i + 1]);
      UnbornOrBorn(op, file, states, events, i + 1, j);
    }
  }

  /** MAIN: whenever the file is written, a call that is left alone returns the receipt exactly
      when no write that died has left its temporary file in the worktree; else the worktree
      counts as dirty. */
  lemma ControlRecoversIff(op: Operation, file: File, states: seq<Repository>, events: seq<Event>)
    requires History(op, file, states, events) && Get(states[|events|].worktree, op.path) == Some(file)
    ensures Valid(states[|events|])
    ensures var run := ControlRun(states[|events|], op);
      && (run.outcome.Done? <==> Leftovers(op, states[0], states[|events|]) == {})
      && (run.outcome.Done? ==>
          run.outcome.value.commit == |states[0].commits| && run.outcome.value.effectApplied
          && Born(op, file, states[0], run.End()))
      && (!run.outcome.Done? ==> run.outcome == Refused(WorktreeDirty))
  {
    var r := states[|events|];
    UnbornOrBorn(op, file, states, events, 0, |events|);
    BornIsValid(op, file, states[0], r);
    hide ControlRun;
    if Born(op, file, states[0], r) {
      CallFromCommit(op, file, states[0], r);
    } else if Leftovers(op, states[0], r) == {} {
      CallFromBase(op, file, states[0], r);
    } else {
      CallWithLeftovers(op, file, states[0], r);
    }
  }

  lemma EventKeepsLeftovers(op: Operation, file: File, start: Repository, r: Repository, event: Event, s: Repository)
    requires Startable(op, file, start) && Unborn(op, start, r) && Linked(op, file, r, event, s)
    ensures Leftovers(op, start, r) <= Leftovers(op, start, s)
  {
    match event
    case Write(temp, naming, o) =>
      EndIsOnTrail(r, op.path, file.content, temp, naming);
      WritesKeepLeftovers(op, start, r, file.content, temp, naming);
      hide ControlRun, Startable, Status, WriteRun, Leftovers;
    case Call(o) =>
      if Leftovers(op, start, r) != {} {
        CallWithLeftovers(op, file, start, r);
      }
      hide ControlRun, Startable, Status;
  }

  lemma WritesKeepLeftovers(op: Operation, start: Repository, r: Repository, text: string, temp: Path, naming: Naming)
    requires start.head < |start.commits| && temp !in r.worktree
    ensures forall s <- WriteRun(r, op.path, text, temp, naming).trail ::
      Leftovers(op, start, r) <= Leftovers(op, start, s)
  {
  }

  lemma StepKeepsLeftovers(op: Operation, file: File, states: seq<Repository>, events: seq<Event>, j: nat)
    requires History(op, file, states, events) && j < |events|
    ensures states[0].head < |states[0].commits|
    ensures Leftovers(op, states[0], states[j]) <= Leftovers(op, states[0], states[j + 1])
  {
    StartHasHead(op, file, states[0]);
    assert Linked(op, file, states[j], events[j], states[j + 1]);
    hide Linked, Startable, Born, Unborn, Leftovers;
    UnbornOrBorn(op, file, states, events, j, j + 1);
    UnbornOrBorn(op, file, states, events, j, j);
    if Unborn(op, states[0], states[j]) {
      EventKeepsLeftovers(op, file, states[0], states[j], events[j], states[j + 1]);
    }
  }

  /** Nothing that the operation does removes a leftover. */
  lemma {:induction false} LeftoversStay(op: Operation, file: File, states: seq<Repository>, events: seq<Event>,
                                         i: nat, j: nat)
    requires History(op, file, states, events) && i <= j < |states|
    ensures states[0].head < |states[0].commits|
    ensures Leftovers(op, states[0], states[i]) <= Leftovers(op, states[0], states[j])
    decreases j
  {
    hide *;
    HistoryLength(op, file, states, events);
    StartHasHead(op, file, states[0]);
    if i < j {
      LeftoversStay(op, file, states, events, i, j - 1);
      StepKeepsLeftovers(op, file, states, events, j - 1);
    }
  }

  lemma HistoryLength(op: Operation, file: File, states: seq<Repository>, events: seq<Event>)
    requires History(op, file, states, events)
    ensures |states| == |events| + 1 && Startable(op, file, states[0])
  {
  }

  /** MAIN: so one dead write blocks the operation for good: no later call returns a receipt. */
  lemma DeadWriteBlocks(op: Operation, file: File, states: seq<Repository>, events: seq<Event>, i: nat, j: nat)
    requires History(op, file, states, events) && i <= j < |events|
    requires Leftovers(op, states[0], states[i]) != {}
    ensures events[j].Call? ==> !events[j].o.Done?
    ensures states[j].commits == states[0].commits
  {
    StartHasHead(op, file, states[0]);
    assert Linked(op, file, states[j], events[j], states[j + 1]);
    hide ControlRun, Status, Leftovers, Unborn, Born, Startable;
    LeftoversStay(op, file, states, events, i, j);
    UnbornOrBorn(op, file, states, events, 0, j);
    HasLeftovers(op, file, states[0], states[j]);
    if events[j].Call? {
      CallWithLeftovers(op, file, states[0], states[j]);
    }
  }

  lemma StartHasHead(op: Operation, file: File, start: Repository)
    requires Startable(op, file, start)
    ensures start.head < |start.commits|
  {
  }

  lemma HasLeftovers(op: Operation, file: File, start: Repository, r: Repository)
    requires Startable(op, file, start) && (Unborn(op, start, r) || Born(op, file, start, r))
    requires Leftovers(op, start, r) != {}
    ensures Unborn(op, start, r) && r.commits == start.commits
  {
    BornIsValid(op, file, start, r);
  }

  /** A concrete case: a write that dies once its temporary file is made. */
  lemma DeadWriteLeaves(op: Operation, file: File, start: Repository, temp: Path, naming: Naming)
    requires Startable(op, file, start) && op.path !in start.worktree
    requires temp !in start.worktree && temp != op.path
    ensures Linked(op, file, start, Write(temp, naming, Crashed), Put(start, temp, ""))
    ensures Leftovers(op, start, Put(start, temp, "")) == {temp}
  {
    var dead := Put(start, temp, "");
    assert WriteRun(start, op.path, file.content, temp, naming).trail[1] == dead;
    StartIsUnborn(op, file, start);
    assert temp !in HeadTree(start);
    assert dead.worktree.Keys == start.worktree.Keys + {temp};
  }
}
