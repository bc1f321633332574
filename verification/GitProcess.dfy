/** A process that drives Git and can die between or inside any two of its Git calls. */
module GitProcess {
  import opened Wrappers
  import opened GitModel

  datatype Error =
    | IdentityInvalid | RecordPathInvalid | RecordConflict | WorktreeDirty
    | CommitInvalid | CommitMissing | ParentMismatch | TagConflict | HistoryInvalid
    | ResultMismatch | TransitionMissing | BranchMismatch | GitFailed

  /** What an operation does to a repository: `trail` starts with the state it found and goes
      on with the state after each of its state-changing calls; `outcome` is what it reports
      when it is not interrupted. */
  datatype Run<+T> = Run(trail: seq<Repository>, outcome: Outcome<T, Error>) {

    ghost predicate Sound() {
      |trail| > 0 && !outcome.Crashed?
    }

    function End(): Repository
      requires |trail| > 0
    {
      trail[|trail| - 1]
    }

    /** An execution that reported o and left `after` behind is one of this operation's:
        it ran to its end, or it died and left one of the states on the trail. */
    ghost predicate Explains(o: Outcome<T, Error>, after: Repository)
      requires |trail| > 0
    {
      if o.Crashed? then after in trail else o == outcome && after == End()
    }
  }

  class GitProcess {
    var repo: Repository
    var callsLeft: nat  // Git calls this process lives to finish

    constructor (repo: Repository, callsLeft: nat)
      ensures this.repo == repo && this.callsLeft == callsLeft
    {
      this.repo, this.callsLeft := repo, callsLeft;
    }

    /** A call that only reads: it answers, or the process dies. */
    method Read() returns (o: Outcome<(), Error>)
      modifies this`callsLeft
      ensures o.Crashed? || o == Done(())
    {
      if callsLeft == 0 {
        return Crashed;
      }
      callsLeft := callsLeft - 1;
      return Done(());
    }

    /** A call that changes the repository: a process that dies in it may or may not have
        had the effect. */
    method Write(after: Repository) returns (o: Outcome<(), Error>)
      modifies this
      ensures o == Done(()) ==> repo == after
      ensures o.Crashed? ==> repo == old(repo) || repo == after
      ensures !o.Refused?
    {
      if callsLeft == 0 {
        return Crashed;
      }
      callsLeft := callsLeft - 1;
      repo := after;
      return if callsLeft == 0 then Crashed else Done(());
    }

    method StatusPaths() returns (o: Outcome<set<Path>, Error>)
      requires Valid(repo)
      modifies this`callsLeft
      ensures o.Crashed? || o == Done(Status(repo))
    {
      var _ :- Read();
      return Done(Status(repo));
    }

    method ResolveTag(tag: string) returns (o: Outcome<Option<CommitId>, Error>)
      modifies this`callsLeft
      ensures o.Crashed? || o == Done(if tag in repo.tags then Some(repo.tags[tag]) else None)
    {
      var _ :- Read();
      return Done(if tag in repo.tags then Some(repo.tags[tag]) else None);
    }

    method HasStaged(p: Path) returns (o: Outcome<bool, Error>)
      requires Valid(repo)
      modifies this`callsLeft
      ensures o.Crashed? || o == Done(Staged(repo, p))
    {
      var _ :- Read();
      return Done(Staged(repo, p));
    }

    method Head() returns (o: Outcome<CommitId, Error>)
      modifies this`callsLeft
      ensures o.Crashed? || o == Done(repo.head)
    {
      var _ :- Read();
      return Done(repo.head);
    }

    method ShowCommit(c: CommitId) returns (o: Outcome<Commit, Error>)
      requires c < |repo.commits|
      modifies this`callsLeft
      ensures o.Crashed? || o == Done(repo.commits[c])
    {
      var _ :- Read();
      return Done(repo.commits[c]);
    }

    method DiffTreeNames(c: CommitId) returns (o: Outcome<set<Path>, Error>)
      requires Valid(repo) && c < |repo.commits|
      modifies this`callsLeft
      ensures o.Crashed? || o == Done(ChangedPaths(repo, c))
    {
      var _ :- Read();
      return Done(ChangedPaths(repo, c));
    }
  }
}
