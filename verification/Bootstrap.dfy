/** Accepting a bootstrap manifest as one commit over the proposal
    (src/researchctl/adapters/git_bootstrap.py). */
module Bootstrap {
  import opened Wrappers
  import opened GitModel
  import opened GitProcess

  const PROJECT_RECORD := ".research/project.yaml"

  /** What is left uninterpreted: the grammar of Operation IDs and of path spellings. */
  datatype Rules = Rules(validOperation: string -> bool, safeSpelling: Path -> bool)

  datatype Request = Request(
    branch: string, proposal: CommitId, operationId: string, digest: string, files: map<Path, string>)

  datatype Receipt = Receipt(commit: CommitId, changedPaths: set<Path>, changed: bool)

  predicate IsDigest(d: string) {
    |d| == 71 && "sha256:" <= d && forall i :: 7 <= i < 71 ==> '0' <= d[i] <= '9' || 'a' <= d[i] <= 'f'
  }

  /** `_managed_path` lets a path through. */
  predicate Managed(rules: Rules, p: Path) {
    rules.safeSpelling(p) && (p == ".researchctl.toml" || ".research/" <= p)
  }

  /** `git ls-tree -r c -- .research .researchctl.toml` lists a path. */
  predicate Controlled(p: Path) {
    p == ".research" || ".research/" <= p || p == ".researchctl.toml" || ".researchctl.toml/" <= p
  }

  predicate ValidRequest(rules: Rules, q: Request) {
    && rules.validOperation(q.operationId) && q.branch == "research/control/" + q.operationId
    && IsDigest(q.digest)
    && (forall p <- q.files :: Managed(rules, p))
    && PROJECT_RECORD in q.files
  }

  function Message(q: Request): string {
    "researchctl: bootstrap.accept " + q.operationId + "\n\nmanifest-digest: " + q.digest
  }

  /** The managed part of a tree is the manifest: the same paths, plain files, the same bytes. */
  ghost predicate Holds(t: Tree, files: map<Path, string>) {
    forall p :: Controlled(p) || p in files ==>
      Get(t, p) == if p in files then Some(File(Regular, files[p])) else None
  }

  // ----- The two operations, as functions of the repository -----

  function StatusWithin(r: Repository, allowed: set<Path>): Outcome<set<Path>, Error>
    requires Valid(r)
  {
    if Status(r) <= allowed then Done(Status(r)) else Refused(WorktreeDirty)
  }

  function ControlledPaths(rules: Rules, t: Tree): Outcome<set<Path>, Error> {
    var paths := set p | p in t && Controlled(p);
    if exists p :: p in paths && t[p].mode != Regular then Refused(CommitInvalid)
    else if exists p :: p in paths && !Managed(rules, p) then Refused(RecordPathInvalid)
    else Done(paths)
  }

  function VerifyCommit(rules: Rules, r: Repository, q: Request, c: CommitId, changed: bool)
    : (o: Outcome<Receipt, Error>)
    requires Valid(r) && c < |r.commits|
    ensures !o.Crashed?
  {
    var paths := ChangedPaths(r, c);
    if r.commits[c].parents != [q.proposal] then Refused(CommitInvalid)
    else if WithoutFinalNewlines(r.commits[c].message) != Message(q) then Refused(CommitInvalid)
    else if PROJECT_RECORD !in paths || !(paths <= q.files.Keys) then Refused(CommitInvalid)
    else
      var controlled := ControlledPaths(rules, r.commits[c].tree);
      if controlled.IsFailure() then controlled.PropagateFailure()
      else if controlled.value != q.files.Keys then Refused(CommitInvalid)
      else if !SameContent(r.commits[c].tree, q.files) then Refused(CommitInvalid)
      else
        var left := StatusWithin(r, q.files.Keys);
        if left.IsFailure() then left.PropagateFailure()
        else if left.value != {} then Refused(WorktreeDirty)
        else Done(Receipt(c, paths, changed))
  }

  predicate SameContent(t: Tree, files: map<Path, string>) {
    forall p <- files :: p in t && t[p].content == files[p]
  }

  /** `observe_prepared`: None when the branch is still at the proposal. */
  function ObserveRun(rules: Rules, r: Repository, q: Request): (o: Outcome<Option<Receipt>, Error>)
    requires Valid(r)
    ensures !o.Crashed?
  {
    if !ValidRequest(rules, q) then Refused(IdentityInvalid)
    else if r.branch != q.branch then Refused(BranchMismatch)
    else
      var changed := StatusWithin(r, q.files.Keys);
      if changed.IsFailure() then changed.PropagateFailure()
      else if r.head == q.proposal then Done(None)
      else if changed.value != {} then Refused(WorktreeDirty)
      else
        var v := VerifyCommit(rules, r, q, r.head, false);
        if v.IsFailure() then v.PropagateFailure() else Done(Some(v.value))
  }

  /** `git add -- paths`; every path must be known to the worktree or the index. */
  function AddAll(r: Repository, paths: set<Path>): (added: Option<Repository>)
    ensures added.Some? ==> added.value == r.(index := added.value.index)
  {
    if exists p <- paths :: p !in r.worktree && p !in r.index then None
    else
      Some(r.(index := map p | p in r.index.Keys + r.worktree.Keys
                               && (if p in paths then p in r.worktree else p in r.index)
                           :: if p in paths then r.worktree[p] else r.index[p]))
  }

  /** `commit_or_observe`. */
  function CommitRun(rules: Rules, r: Repository, q: Request): (run: Run<Receipt>)
    requires Valid(r)
    ensures run.Sound() && run.trail[0] == r
  {
    if !ValidRequest(rules, q) then Run([r], Refused(IdentityInvalid))
    else if r.branch != q.branch then Run([r], Refused(BranchMismatch))
    else
      var changed := StatusWithin(r, q.files.Keys);
      if changed.IsFailure() then Run([r], changed.PropagateFailure())
      else if r.head != q.proposal then
        Run([r], if changed.value != {} then Refused(WorktreeDirty) else VerifyCommit(rules, r, q, r.head, false))
      else if PROJECT_RECORD !in changed.value then Run([r], Refused(TransitionMissing))
      else
        match AddAll(r, q.files.Keys)
        case None => Run([r], Refused(GitFailed))
        case Some(added) =>
          if added.index == HeadTree(r) then Run([r, added], Refused(TransitionMissing))
          else
            var s := CommitAdded(added, q);
            Run([r, added, s], VerifyCommit(rules, s, q, s.head, true))
  }

  function CommitAdded(r: Repository, q: Request): (s: Repository)
    requires Valid(r)
    ensures Valid(s)
  {
    CommitIndex(r, Message(q))
  }

  // ----- The adapter as it executes -----

  class GitBootstrapCommitAdapter {
    const git: GitProcess
    const rules: Rules

    constructor (git: GitProcess, rules: Rules)
      ensures this.git == git && this.rules == rules
    {
      this.git, this.rules := git, rules;
    }

    method StatusPaths(allowed: set<Path>) returns (o: Outcome<set<Path>, Error>)
      requires Valid(git.repo)
      modifies git`callsLeft
      ensures o.Crashed? || o == StatusWithin(git.repo, allowed)
    {
      var paths :- git.StatusPaths();
      if !(paths <= allowed) {
        return Refused(WorktreeDirty);
      }
      return Done(paths);
    }

    /** Read every manifest file of the commit, and compare it. */
    method CompareFiles(tree: Tree, files: map<Path, string>) returns (o: Outcome<bool, Error>)
      requires forall p <- files :: p in tree
      modifies git`callsLeft
      ensures o.Crashed? || o == Done(SameContent(tree, files))
    {
      var todo := files.Keys;
      while todo != {}
        invariant todo <= files.Keys
        invariant forall p :: p in files.Keys - todo ==> tree[p].content == files[p]
        decreases |todo|
      {
        var p :| p in todo;
        var _ :- git.Read();
        if tree[p].content != files[p] {
          return Done(false);
        }
        todo := todo - {p};
      }
      return Done(true);
    }

    method Verify(q: Request, commit: CommitId, changed: bool) returns (o: Outcome<Receipt, Error>)
      requires Valid(git.repo) && commit < |git.repo.commits|
      modifies git`callsLeft
      ensures o.Crashed? || o == VerifyCommit(rules, git.repo, q, commit, changed)
    {
      var shown :- git.ShowCommit(commit);
      if shown.parents != [q.proposal] {
        return Refused(CommitInvalid);
      }
      if WithoutFinalNewlines(shown.message) != Message(q) {
        return Refused(CommitInvalid);
      }
      var paths :- git.DiffTreeNames(commit);
      if PROJECT_RECORD !in paths || !(paths <= q.files.Keys) {
        return Refused(CommitInvalid);
      }
      var listed :- git.ShowCommit(commit);
      var treePaths :- ControlledPaths(rules, listed.tree);
      if treePaths != q.files.Keys {
        return Refused(CommitInvalid);
      }
      var same :- CompareFiles(listed.tree, q.files);
      if !same {
        return Refused(CommitInvalid);
      }
      var left :- StatusPaths(q.files.Keys);
      if left != {} {
        return Refused(WorktreeDirty);
      }
      return Done(Receipt(commit, paths, changed));
    }

    method ObservePrepared(q: Request) returns (o: Outcome<Option<Receipt>, Error>)
      requires Valid(git.repo)
      modifies git`callsLeft
      ensures o.Crashed? || o == ObserveRun(rules, git.repo, q)
    {
      if !ValidRequest(rules, q) {
        return Refused(IdentityInvalid);
      }
      var _ :- git.Read();
      if git.repo.branch != q.branch {
        return Refused(BranchMismatch);
      }
      var changed :- StatusPaths(q.files.Keys);
      var head :- git.Head();
      if head == q.proposal {
        return Done(None);
      }
      if changed != {} {
        return Refused(WorktreeDirty);
      }
      var receipt :- Verify(q, head, false);
      return Done(Some(receipt));
    }

    method CommitOrObserve(q: Request) returns (o: Outcome<Receipt, Error>)
      requires Valid(git.repo)
      modifies git
      ensures CommitRun(rules, old(git.repo), q).Explains(o, git.repo)
    {
      hide VerifyCommit, ValidRequest, Message, WellParented, Differing, AddAll;
      ghost var run := CommitRun(rules, git.repo, q);
      ghost var r := git.repo;
      assert run.trail[0] == r;
      if !ValidRequest(rules, q) {
        return Refused(IdentityInvalid);
      }
      var _ :- git.Read();
      if git.repo.branch != q.branch {
        return Refused(BranchMismatch);
      }
      var changed :- StatusPaths(q.files.Keys);
      var head :- git.Head();
      if head != q.proposal {
        if changed != {} {
          return Refused(WorktreeDirty);
        }
        o := Verify(q, head, false);
        return;
      }
      if PROJECT_RECORD !in changed {
        return Refused(TransitionMissing);
      }
      var added := AddAll(git.repo, q.files.Keys);
      if added.None? {
        return Refused(GitFailed);
      }
      assert run.trail[1] == added.value;
      var _ :- git.Write(added.value);
      var _ :- git.Read();
      if git.repo.index == HeadTree(git.repo) {
        return Refused(TransitionMissing);
      }
      var _ :- git.Write(CommitAdded(git.repo, q));
      var commit :- git.Head();
      o := Verify(q, commit, true);
    }
  }
}
