/** One Git repository with one checked-out worktree, as the adapters see it.
    Commits live in an append-only store and are named by their position in it; a
    repository is a value, and each Git command is a function from repository to repository. */
module GitModel {
  import opened Wrappers

  type Path = string
  type CommitId = nat

  datatype Mode = Regular | Executable | Symlink | Gitlink

  datatype File = File(mode: Mode, content: string)

  type Tree = map<Path, File>

  datatype Commit = Commit(parents: seq<CommitId>, message: string, tree: Tree)

  datatype Repository = Repository(
    commits: seq<Commit>,
    branch: string,
    head: CommitId,
    tags: map<string, CommitId>,
    index: Tree,
    worktree: Tree)

  /** References stay inside the store and parents are older than their children. */
  ghost predicate Valid(r: Repository) {
    && r.head < |r.commits|
    && (forall t <- r.tags :: r.tags[t] < |r.commits|)
    && WellParented(r.commits)
  }

  ghost predicate WellParented(commits: seq<Commit>) {
    forall c, i :: 0 <= c < |commits| && 0 <= i < |commits[c].parents| ==> commits[c].parents[i] < c
  }

  function Get(t: Tree, p: Path): Option<File> {
    if p in t then Some(t[p]) else None
  }

  function Set(t: Tree, p: Path, f: Option<File>): Tree {
    match f
    case None => t - {p}
    case Some(file) => t[p := file]
  }

  /** Paths on which two trees disagree. */
  function Differing(a: Tree, b: Tree): set<Path> {
    set p | p in a.Keys + b.Keys && Get(a, p) != Get(b, p)
  }

  function HeadTree(r: Repository): Tree
    requires r.head < |r.commits|
  {
    r.commits[r.head].tree
  }

  /** `git status --porcelain --untracked-files=all`: staged, unstaged and untracked paths. */
  function Status(r: Repository): set<Path>
    requires r.head < |r.commits|
  {
    Differing(HeadTree(r), r.index) + Differing(r.index, r.worktree)
  }

  /** `git diff --cached --quiet -- p` exits with 1. */
  predicate Staged(r: Repository, p: Path)
    requires r.head < |r.commits|
  {
    Get(r.index, p) != Get(HeadTree(r), p)
  }

  /** `git add -- p`. */
  function Add(r: Repository, p: Path): Repository {
    r.(index := Set(r.index, p, Get(r.worktree, p)))
  }

  function Append(r: Repository, tree: Tree, message: string): Repository {
    r.(commits := r.commits + [Commit([r.head], message + "\n", tree)], head := |r.commits|)
  }

  /** `git commit -m message -- p`: HEAD's tree with only p taken from the worktree. */
  function CommitOnly(r: Repository, p: Path, message: string): Repository
    requires r.head < |r.commits|
  {
    Append(Add(r, p), Set(HeadTree(r), p, Get(r.worktree, p)), message)
  }

  /** `git commit -m message`: the whole index. */
  function CommitIndex(r: Repository, message: string): Repository {
    Append(r, r.index, message)
  }

  /** `git diff-tree --root --no-commit-id --name-only -r c`: nothing is listed for a merge. */
  function ChangedPaths(r: Repository, c: CommitId): set<Path>
    requires Valid(r) && c < |r.commits|
  {
    var commit := r.commits[c];
    match |commit.parents|
    case 0 => commit.tree.Keys
    case 1 => Differing(r.commits[commit.parents[0]].tree, commit.tree)
    case _ => {}
  }

  /** `git merge-base --is-ancestor a d`; a commit is its own ancestor. */
  predicate IsAncestor(commits: seq<Commit>, a: CommitId, d: CommitId)
    requires WellParented(commits) && d < |commits|
    decreases d
  {
    a == d || exists i :: 0 <= i < |commits[d].parents| && IsAncestor(commits, a, commits[d].parents[i])
  }

  /** Python's `rstrip("\n")`. */
  function WithoutFinalNewlines(s: string): string {
    if |s| > 0 && s[|s| - 1] == '\n' then WithoutFinalNewlines(s[..|s| - 1]) else s
  }

  lemma MessageRoundTrip(marker: string)
    requires |marker| > 0 && marker[|marker| - 1] != '\n'
    ensures WithoutFinalNewlines(marker + "\n") == marker
  {
    assert (marker + "\n")[..|marker|] == marker;
  }

  lemma SetChangesOnly(t: Tree, p: Path, f: Option<File>)
    ensures Get(Set(t, p, f), p) == f
    ensures forall q :: q != p ==> Get(Set(t, p, f), q) == Get(t, q)
    ensures Differing(t, Set(t, p, f)) == if Get(t, p) == f then {} else {p}
  {
  }

  /** Trees are equal when they have the same file, or none, at every path. */
  lemma SameFiles(a: Tree, b: Tree)
    requires forall p :: Get(a, p) == Get(b, p)
    ensures a == b
  {
    forall p ensures p in a <==> p in b {
      assert Get(a, p) == Get(b, p);
    }
    forall p | p in a ensures a[p] == b[p] {
      assert Get(a, p) == Get(b, p);
    }
  }
}
