/** Progress of the run protocol: while nobody edits the worktree, every interruption can be
    recovered from; and the exact condition under which a refused call has moved the branch. */
module RunRecovery {
  import opened Wrappers
  import opened GitModel
  import opened GitProcess
  import opened RunProtocol
  import opened RunSafety

  /** The records are acceptable and the source tree has neither of them yet. */
  ghost predicate Startable(e: Setup) {
    && e.WellFormed()
    && e.freeze.valid && e.collect.valid && e.bound
    && e.freeze.path !in e.SourceTree() && e.collect.path !in e.SourceTree()
  }

  /** A file the protocol itself is bringing in: it reaches the index after the worktree. */
  ghost predicate Incoming(r: Repository, p: Path, f: File) {
    && (p in r.worktree ==> r.worktree[p] == f)
    && (p in r.index ==> p in r.worktree && r.index[p] == f)
  }

  ghost predicate Arrived(r: Repository, p: Path, f: File) {
    Get(r.worktree, p) == Some(f) && Get(r.index, p) == Some(f)
  }

  /** Away from p and q the index is `tree`, and the worktree has all its files unchanged. */
  ghost predicate AgreeBut(r: Repository, tree: Tree, p: Path, q: Path) {
    forall x :: x != p && x != q ==>
      Get(r.index, x) == Get(tree, x) && (x in tree ==> Get(r.worktree, x) == Get(tree, x))
  }

  /** Files in the worktree that are neither the source's nor records: what writes that died
      have left there. */
  function Leftovers(e: Setup, r: Repository): set<Path>
    requires e.source < |e.base|
  {
    r.worktree.Keys - e.SourceTree().Keys - {e.freeze.path, e.collect.path}
  }

  /** At a stage, with worktree and index touched by the protocol alone; files it left behind are
      not excluded. */
  ghost predicate Clean(e: Setup, stage: Stage, r: Repository)
    requires Startable(e)
  {
    At(e, stage, r) && CleanFiles(stage, r, e.SourceTree(), e.freeze.path, e.freeze.AsFile(), e.collect.path,
      e.collect.AsFile())
  }

  ghost predicate CleanFiles(stage: Stage, r: Repository, source: Tree, p: Path, f: File, q: Path, g: File) {
    && AgreeBut(r, source, p, q)
    && Incoming(r, p, f) && Incoming(r, q, g)
    && (stage.Rank() >= 1 ==> Arrived(r, p, f))
    && (stage.Rank() < 2 ==> q !in r.worktree)
    && (stage.Collected? ==> Arrived(r, q, g))
  }

  ghost predicate AllClean(e: Setup, from: Stage, trail: seq<Repository>)
    requires Startable(e)
  {
    forall i :: 0 <= i < |trail| ==> CleanSince(e, from, trail[i])
  }

  ghost predicate CleanSince(e: Setup, from: Stage, r: Repository)
    requires Startable(e)
  {
    exists s: Stage :: Clean(e, s, r) && from.Rank() <= s.Rank()
  }

  /** HEAD, index and worktree agree away from p. */
  ghost predicate OnlyDiffersAt(r: Repository, p: Path)
    requires r.head < |r.commits|
  {
    forall x :: x != p ==> Get(HeadTree(r), x) == Get(r.index, x) == Get(r.worktree, x)
  }

  /** With nothing else changed, `_commit_path` commits the file, or finds it committed. */
  lemma CommitPathCompletes(r: Repository, p: Path, f: File, marker: string)
    requires Valid(r) && OnlyDiffersAt(r, p) && Get(r.worktree, p) == Some(f)
    requires p in HeadTree(r) ==> HeadTree(r)[p] == f && Get(r.index, p) == Some(f)
    ensures var run := CommitPathRun(r, p, marker);
      if p in HeadTree(r) then run == Run([r], Done(false))
      else run == Run([r, Add(r, p), CommitOnly(Add(r, p), p, marker)], Done(true))
  {
    if p in HeadTree(r) {
      assert Status(r) == {};
    } else {
      assert p in Differing(HeadTree(r), r.index) + Differing(r.index, r.worktree);
      assert Status(r) == {p};
    }
  }

  /** Without leftovers, only the record of the stage can differ. */
  lemma TidyDiffers(e: Setup, stage: Stage, r: Repository)
    requires Startable(e) && Clean(e, stage, r) && Valid(r) && Leftovers(e, r) == {}
    ensures OnlyDiffersAt(r, if stage.Rank() < 2 then e.freeze.path else e.collect.path)
  {
    var p, q := e.freeze.path, e.collect.path;
    assert HeadTree(r) ==
      if stage.Fresh? then e.SourceTree()
      else if stage.Collected? then e.ResultCommit().tree else e.SpecCommit().tree;
    forall x | x != p && x != q ensures Get(HeadTree(r), x) == Get(r.index, x) == Get(r.worktree, x) {
      assert x !in Leftovers(e, r);
    }
  }

  /** With a leftover in the worktree, `_commit_path` refuses. */
  lemma LeftoverRefuses(e: Setup, stage: Stage, r: Repository, p: Path, marker: string)
    requires Startable(e) && Clean(e, stage, r) && Valid(r) && Leftovers(e, r) != {}
    requires p in {e.freeze.path, e.collect.path}
    ensures CommitPathRun(r, p, marker) == Run([r], Refused(WorktreeDirty))
  {
    var x :| x in Leftovers(e, r);
    assert Get(r.index, x) == None;
    assert x in Differing(r.index, r.worktree);
  }

  lemma SpecCommitted(e: Setup, r: Repository)
    requires Startable(e) && Clean(e, Fresh, r) && Valid(r) && Leftovers(e, r) == {}
    requires Get(r.worktree, e.freeze.path) == Some(e.freeze.AsFile())
    ensures var added := Add(r, e.freeze.path);
      var s := CommitOnly(added, e.freeze.path, e.freeze.marker);
      && Clean(e, Fresh, added) && Clean(e, Frozen, s)
      && CommitPathRun(r, e.freeze.path, e.freeze.marker) == Run([r, added, s], Done(true))
  {
    hide CommitPathRun;
    assert HeadTree(r) == e.SourceTree();
    TidyDiffers(e, Fresh, r);
    CommitPathCompletes(r, e.freeze.path, e.freeze.AsFile(), e.freeze.marker);
    var s := CommitOnly(Add(r, e.freeze.path), e.freeze.path, e.freeze.marker);
    assert s.commits == e.base + [e.SpecCommit()];
  }

  lemma TaggingCompletes(e: Setup, s: Repository)
    requires Startable(e) && Clean(e, Frozen, s)
    ensures Clean(e, Tagged, s.(tags := s.tags[e.tag := s.head]))
  {
  }

  lemma SpecCompletesFresh(e: Setup, r: Repository)
    requires Startable(e) && Clean(e, Fresh, r) && Valid(r) && Leftovers(e, r) == {}
    requires Get(r.worktree, e.freeze.path) == Some(e.freeze.AsFile())
    ensures SpecCall(e, r).outcome.Done?
    ensures Clean(e, Tagged, SpecCall(e, r).End()) && SpecCall(e, r).End().worktree == r.worktree
    ensures AllClean(e, Fresh, SpecCall(e, r).trail)
  {
    hide CommitPathRun, CleanFiles, Verified;
    SpecCommitted(e, r);
    var added := Add(r, e.freeze.path);
    var s := CommitOnly(added, e.freeze.path, e.freeze.marker);
    SpecCommitVerifies(e, Frozen, s);
    TaggingCompletes(e, s);
    assert SpecCall(e, r).trail == [r, added, s, s.(tags := s.tags[e.tag := s.head])];
  }

  lemma SpecCompletesFrozen(e: Setup, r: Repository)
    requires Startable(e) && Clean(e, Frozen, r) && Valid(r) && Leftovers(e, r) == {}
    requires Get(r.worktree, e.freeze.path) == Some(e.freeze.AsFile())
    ensures SpecCall(e, r).outcome.Done?
    ensures Clean(e, Tagged, SpecCall(e, r).End()) && SpecCall(e, r).End().worktree == r.worktree
    ensures AllClean(e, Frozen, SpecCall(e, r).trail)
  {
    hide CommitPathRun, Verified;
    assert HeadTree(r) == e.SpecCommit().tree;
    TidyDiffers(e, Frozen, r);
    CommitPathCompletes(r, e.freeze.path, e.freeze.AsFile(), e.freeze.marker);
    SpecCommitVerifies(e, Frozen, r);
    assert SpecCall(e, r).trail == [r, SpecCall(e, r).End()];
    assert Clean(e, Tagged, SpecCall(e, r).End());
  }

  lemma SpecCompletesTagged(e: Setup, stage: Stage, r: Repository)
    requires Startable(e) && Clean(e, stage, r) && Valid(r) && stage.Rank() >= 2
    requires Get(r.worktree, e.freeze.path) == Some(e.freeze.AsFile())
    ensures SpecCall(e, r).outcome.Done? && SpecCall(e, r).trail == [r]
    ensures AllClean(e, stage, SpecCall(e, r).trail)
  {
    SpecCommitVerifies(e, stage, r);
  }

  lemma AllCleanJoins(e: Setup, from: Stage, a: seq<Repository>, b: seq<Repository>)
    requires Startable(e) && AllClean(e, from, a) && AllClean(e, from, b)
    ensures AllClean(e, from, a + b)
  {
    forall i | 0 <= i < |a + b| ensures CleanSince(e, from, (a + b)[i]) {
      assert (a + b)[i] == if i < |a| then a[i] else b[i - |a|];
    }
  }

  lemma WritesStayClean(e: Setup, stage: Stage, r: Repository, s: Repository, step: Step, temp: Path)
    requires Startable(e) && Clean(e, stage, r) && NewName(e, r, temp)
    requires step == e.freeze || (step == e.collect && stage.Rank() >= 2)
    requires WritesOnly(r, s, step.path, step.text, temp)
    ensures Clean(e, stage, s)
  {
  }

  /** Writing a record keeps the stage, and when it ends it leaves nothing but the record. */
  lemma RecordWritten(e: Setup, stage: Stage, r: Repository, step: Step, temp: Path)
    requires Startable(e) && Clean(e, stage, r) && NewName(e, r, temp)
    requires step == e.freeze || (step == e.collect && stage.Rank() >= 2)
    ensures var run := WriteOnce(r, step.path, step.text, temp);
      && run.outcome == Done(()) && Clean(e, stage, run.End()) && AllClean(e, stage, run.trail)
      && Get(run.End().worktree, step.path) == Some(step.AsFile())
      && Leftovers(e, run.End()) == Leftovers(e, r)
  {
    RecordIsWritten(e, stage, r, step, temp);
    WriteOnceEffect(r, step.path, step.text, temp);
    hide *;
    var run := WriteOnce(r, step.path, step.text, temp);
    forall i | 0 <= i < |run.trail| ensures Clean(e, stage, run.trail[i]) {
      WritesStayClean(e, stage, r, run.trail[i], step, temp);
    }
    AllAtStage(e, stage, run.trail);
  }

  lemma AllAtStage(e: Setup, stage: Stage, trail: seq<Repository>)
    requires Startable(e) && forall i :: 0 <= i < |trail| ==> Clean(e, stage, trail[i])
    ensures AllClean(e, stage, trail)
  {
    hide Clean, Startable;
  }

  lemma RecordIsWritten(e: Setup, stage: Stage, r: Repository, step: Step, temp: Path)
    requires Startable(e) && Clean(e, stage, r) && NewName(e, r, temp)
    requires step == e.freeze || (step == e.collect && stage.Rank() >= 2)
    ensures temp !in r.worktree && temp != step.path
    ensures var run := WriteOnce(r, step.path, step.text, temp);
      && |run.trail| > 0 && run.outcome == Done(()) && Get(run.End().worktree, step.path) == Some(step.AsFile())
      && Leftovers(e, run.End()) == Leftovers(e, r)
  {
    assert step.path in r.worktree ==> r.worktree[step.path] == step.AsFile();
    hide At, CleanFiles;
    WriteOnceEffect(r, step.path, step.text, temp);
    var run := WriteOnce(r, step.path, step.text, temp);
    if step.path !in r.worktree {
      assert run.outcome == Done(());
      hide WriteOnce;
      assert run.End().worktree.Keys == r.worktree.Keys + {step.path};
    }
  }

  lemma SpecRefusedDirty(e: Setup, stage: Stage, r: Repository)
    requires Startable(e) && Clean(e, stage, r) && Valid(r) && stage.Rank() < 2 && Leftovers(e, r) != {}
    requires Get(r.worktree, e.freeze.path) == Some(e.freeze.AsFile())
    ensures SpecCall(e, r) == Run([r], Refused(WorktreeDirty)) && AllClean(e, stage, SpecCall(e, r).trail)
  {
    LeftoverRefuses(e, stage, r, e.freeze.path, e.freeze.marker);
    hide CommitPathRun;
  }

  lemma ResultRefusedDirty(e: Setup, stage: Stage, r: Repository)
    requires Startable(e) && Clean(e, stage, r) && Valid(r) && Leftovers(e, r) != {}
    requires Get(r.worktree, e.collect.path) == Some(e.collect.AsFile())
    ensures ResultCall(e, r) == Run([r], Refused(WorktreeDirty)) && AllClean(e, stage, ResultCall(e, r).trail)
  {
    LeftoverRefuses(e, stage, r, e.collect.path, e.collect.marker);
    hide CommitPathRun;
  }

  /** The spec step on a written record: what it ends in, and that it stays clean. */
  lemma SpecCompletes(e: Setup, stage: Stage, r: Repository) returns (after: Stage)
    requires Startable(e) && Clean(e, stage, r) && Valid(r)
    requires Get(r.worktree, e.freeze.path) == Some(e.freeze.AsFile())
    ensures var run := SpecCall(e, r);
      && (run.outcome.Done? <==> stage.Rank() >= 2 || Leftovers(e, r) == {})
      && (!run.outcome.Done? ==> run.outcome == Refused(WorktreeDirty))
      && Clean(e, after, run.End()) && run.End().worktree == r.worktree && AllClean(e, stage, run.trail)
      && (run.outcome.Done? ==> after.Rank() >= 2)
  {
    hide SpecRun, At, CleanFiles, Leftovers;
    after := stage;
    if stage.Rank() >= 2 {
      SpecCompletesTagged(e, stage, r);
    } else if Leftovers(e, r) != {} {
      SpecRefusedDirty(e, stage, r);
    } else {
      after := Tagged;
      if stage.Fresh? {
        SpecCompletesFresh(e, r);
      } else {
        SpecCompletesFrozen(e, r);
      }
    }
  }

  lemma SameWorktreeSameLeftovers(e: Setup, r: Repository, s: Repository)
    requires e.source < |e.base| && r.worktree == s.worktree
    ensures Leftovers(e, r) == Leftovers(e, s)
  {
  }

  /** MAIN: a freeze that is left alone returns a receipt exactly when the tag is set or no
      write that died has left its temporary file in the worktree; else the worktree counts as
      dirty. An interrupted freeze stays clean but for such a file. */
  lemma FreezeCompletes(e: Setup, stage: Stage, r: Repository, temp: Path) returns (after: Stage)
    requires Startable(e) && Clean(e, stage, r) && Valid(r) && NewName(e, r, temp)
    ensures var run := FreezeRun(r, e.freeze, e.tag, e.source, temp);
      && (run.outcome.Done? <==> e.tag in r.tags || Leftovers(e, r) == {})
      && (!run.outcome.Done? ==> run.outcome == Refused(WorktreeDirty))
      && (run.outcome.Done? ==> after.Rank() >= 2)
      && Clean(e, after, run.End()) && Leftovers(e, run.End()) == Leftovers(e, r)
      && AllClean(e, stage, run.trail)
  {
    TagMeansStage(e, stage, r);
    hide SpecRun, FreezeRun, At, CleanFiles, WriteOnce, Leftovers;
    RecordWritten(e, stage, r, e.freeze, temp);
    var written := WriteOnce(r, e.freeze.path, e.freeze.text, temp);
    var w := written.End();
    AtIsValid(e, stage, w);
    after := SpecCompletes(e, stage, w);
    SameWorktreeSameLeftovers(e, w, SpecCall(e, w).End());
    AllCleanJoins(e, stage, written.trail, SpecCall(e, w).trail);
    FreezeSplits(e, r, temp);
  }

  lemma TagMeansStage(e: Setup, stage: Stage, r: Repository)
    requires e.WellFormed() && At(e, stage, r)
    ensures e.tag in r.tags <==> stage.Rank() >= 2
  {
  }

  lemma ResultCommitted(e: Setup, r: Repository, marker: string)
    requires Startable(e) && Clean(e, Tagged, r) && Valid(r) && Leftovers(e, r) == {}
    requires marker == e.collect.marker
    requires Get(r.worktree, e.collect.path) == Some(e.collect.AsFile())
    ensures var added := Add(r, e.collect.path);
      && Clean(e, Tagged, added)
      && Clean(e, Collected, CommitOnly(added, e.collect.path, marker))
      && CommitPathRun(r, e.collect.path, marker) ==
         Run([r, added, CommitOnly(added, e.collect.path, marker)], Done(true))
  {
    TidyDiffers(e, Tagged, r);
    ResultAdded(e, r);
    ResultAtTip(e, r);
    assert HeadTree(r) == e.SpecCommit().tree;
    hide CommitPathRun, CleanFiles, CommitOnly, Add, OnlyDiffersAt, Leftovers;
    CommitPathCompletes(r, e.collect.path, e.collect.AsFile(), marker);
  }

  lemma ResultAdded(e: Setup, r: Repository)
    requires Startable(e) && Clean(e, Tagged, r)
    requires Get(r.worktree, e.collect.path) == Some(e.collect.AsFile())
    ensures Clean(e, Tagged, Add(r, e.collect.path))
  {
  }

  lemma ResultAtTip(e: Setup, r: Repository)
    requires Startable(e) && Clean(e, Tagged, r) && Valid(r)
    requires Get(r.worktree, e.collect.path) == Some(e.collect.AsFile())
    ensures Clean(e, Collected, CommitOnly(Add(r, e.collect.path), e.collect.path, e.collect.marker))
  {
    var s := CommitOnly(Add(r, e.collect.path), e.collect.path, e.collect.marker);
    assert HeadTree(r) == e.SpecCommit().tree;
    assert s.commits == e.base + [e.SpecCommit(), e.ResultCommit()];
  }

  lemma ResultCompletesTagged(e: Setup, r: Repository)
    requires Startable(e) && Clean(e, Tagged, r) && Valid(r) && Leftovers(e, r) == {}
    requires Get(r.worktree, e.collect.path) == Some(e.collect.AsFile())
    ensures ResultCall(e, r).outcome.Done? && ResultCall(e, r).End().worktree == r.worktree
    ensures Clean(e, Collected, ResultCall(e, r).End())
    ensures AllClean(e, Tagged, ResultCall(e, r).trail)
  {
    hide CommitPathRun, CleanFiles, Verified;
    var marker := e.collect.marker;
    ResultCommitted(e, r, marker);
    ResultCommitVerifies(e, CommitPathRun(r, e.collect.path, marker).End());
  }

  lemma ResultCompletesCollected(e: Setup, r: Repository)
    requires Startable(e) && Clean(e, Collected, r) && Valid(r) && Leftovers(e, r) == {}
    ensures ResultCall(e, r).outcome.Done?
    ensures ResultCall(e, r).trail == [r]
  {
    assert HeadTree(r) == e.ResultCommit().tree;
    TidyDiffers(e, Collected, r);
    CommitPathCompletes(r, e.collect.path, e.collect.AsFile(), e.collect.marker);
    ResultCommitVerifies(e, r);
  }

  lemma ResultCompletes(e: Setup, stage: Stage, r: Repository)
    requires Startable(e) && Clean(e, stage, r) && Valid(r) && stage.Rank() >= 2
    requires Get(r.worktree, e.collect.path) == Some(e.collect.AsFile())
    ensures var run := ResultCall(e, r);
      && (run.outcome.Done? <==> Leftovers(e, r) == {})
      && (!run.outcome.Done? ==> run.outcome == Refused(WorktreeDirty))
      && Clean(e, if run.outcome.Done? then Collected else stage, run.End()) && AllClean(e, stage, run.trail)
      && run.End().worktree == r.worktree
  {
    hide ResultRun, At, CleanFiles, Leftovers;
    if Leftovers(e, r) != {} {
      ResultRefusedDirty(e, stage, r);
    } else if stage.Collected? {
      ResultCompletesCollected(e, r);
    } else {
      ResultCompletesTagged(e, r);
    }
  }

  /** MAIN: a collect that is left alone over the frozen commit returns a receipt exactly when no
      write that died has left its temporary file in the worktree. */
  lemma CollectCompletes(e: Setup, stage: Stage, r: Repository, frozen: Receipt, temp: Path) returns (after: Stage)
    requires Startable(e) && Clean(e, stage, r) && Valid(r) && stage.Rank() >= 2 && frozen.commit == |e.base|
    requires NewName(e, r, temp)
    ensures var run := CollectRun(r, e.collect, e.bound, frozen, temp);
      && (run.outcome.Done? <==> Leftovers(e, r) == {})
      && (!run.outcome.Done? ==> run.outcome == Refused(WorktreeDirty))
      && (run.outcome.Done? ==> after == Collected)
      && Clean(e, after, run.End()) && AllClean(e, stage, run.trail)
  {
    hide ResultRun, At, CleanFiles, WriteOnce, Leftovers, CollectRun;
    RecordWritten(e, stage, r, e.collect, temp);
    var written := WriteOnce(r, e.collect.path, e.collect.text, temp);
    var w := written.End();
    AtIsValid(e, stage, w);
    ResultCompletes(e, stage, w);
    after := if ResultCall(e, w).outcome.Done? then Collected else stage;
    AllCleanJoins(e, stage, written.trail, ResultCall(e, w).trail);
    CollectSplits(e, r, frozen, temp);
  }

  /** Somebody removes what dead writes have left behind. */
  ghost predicate Tidies(e: Setup, r: Repository, s: Repository)
    requires e.source < |e.base|
  {
    s == r.(worktree := r.worktree - Leftovers(e, r))
  }

  lemma TidyingKeepsClean(e: Setup, stage: Stage, r: Repository, s: Repository)
    requires Startable(e) && Clean(e, stage, r) && Tidies(e, r, s)
    ensures Clean(e, stage, s) && Leftovers(e, s) == {}
  {
  }

  lemma EventStaysClean(e: Setup, stage: Stage, r: Repository, event: Event, s: Repository) returns (after: Stage)
    requires Startable(e) && Clean(e, stage, r) && Valid(r) && Happens(e, r, event, s)
    requires event.Edit? ==> Tidies(e, r, s)
    requires event.Collect? ==> stage.Rank() >= 2 && event.over.commit == |e.base|
    ensures Clean(e, after, s)
  {
    hide FreezeRun, CollectRun, Clean, Startable, Tidies, NewName;
    match event
    case Freeze(temp, o) =>
      after := FreezeCompletes(e, stage, r, temp);
      if o.Crashed? {
        assert CleanSince(e, stage, s);
        after :| Clean(e, after, s);
      }
    case Collect(temp, over, o) =>
      after := CollectCompletes(e, stage, r, over, temp);
      if o.Crashed? {
        assert CleanSince(e, stage, s);
        after :| Clean(e, after, s);
      }
    case Edit =>
      TidyingKeepsClean(e, stage, r, s);
      after := stage;
  }

  /** A history in which nobody edits anything, but for removing what dead writes have left. */
  ghost predicate Undisturbed(e: Setup, states: seq<Repository>, events: seq<Event>)
    requires e.source < |e.base| && |states| == |events| + 1
  {
    forall i :: 0 <= i < |events| && events[i].Edit? ==> Tidies(e, states[i], states[i + 1])
  }

  /** Such histories stay clean, but for leftovers. */
  lemma {:induction false} StaysClean(e: Setup, states: seq<Repository>, events: seq<Event>) returns (stage: Stage)
    requires Startable(e) && History(e, states, events) && Clean(e, Fresh, states[0])
    requires Undisturbed(e, states, events)
    ensures Clean(e, stage, states[|events|])
    decreases |events|
  {
    hide FreezeRun, CollectRun, At, Clean, Tidies;
    if events == [] {
      stage := Fresh;
    } else {
      var n := |events| - 1;
      var before, past := states[..n + 1], events[..n];
      forall i | 0 <= i < n ensures Linked(e, before, past, i) {
        assert Linked(e, states, events, i);
      }
      var mid := StaysClean(e, before, past);
      var stages := Stages(e, states, events);
      assert Linked(e, states, events, n) && Explained(e, events[n], stages[n], stages[n + 1]);
      if events[n].Collect? {
        var k :| 0 <= k < n && IsFreeze(events[k], events[n].over);
        assert Explained(e, events[k], stages[k], stages[k + 1]);
        StagesAdvance(e, states, events, stages, k + 1, n);
        SameStage(e, stages[n], mid, states[n]);
      }
      stage := EventStaysClean(e, mid, states[n], events[n], states[n + 1]);
    }
  }

  lemma SameStage(e: Setup, a: Stage, b: Stage, r: Repository)
    requires Startable(e) && At(e, a, r) && Clean(e, b, r)
    ensures a == b
  {
  }

  /** MAIN: after any number of crashes and retries, a freeze that is left alone returns a receipt
      exactly when the tag is set or no temporary file is left over, and a collect after it exactly
      when none is; the whole run is then on the branch. */
  lemma RunRecoversIff(e: Setup, states: seq<Repository>, events: seq<Event>, temp: Path, other: Path)
    requires Startable(e) && History(e, states, events) && Clean(e, Fresh, states[0])
    requires Undisturbed(e, states, events) && NewName(e, states[|events|], temp)
    ensures Valid(states[|events|])
    ensures var r := states[|events|];
      var freeze := FreezeRun(r, e.freeze, e.tag, e.source, temp);
      && (freeze.outcome.Done? <==> e.tag in r.tags || Leftovers(e, r) == {})
      && (freeze.outcome.Done? && NewName(e, freeze.End(), other) ==>
        && Valid(freeze.End())
        && var collect := CollectRun(freeze.End(), e.collect, e.bound, freeze.outcome.value, other);
           && (collect.outcome.Done? <==> Leftovers(e, r) == {})
           && (collect.outcome.Done? ==> At(e, Collected, collect.End())))
  {
    hide SpecRun, CollectRun, CleanFiles, FreezeRun, At, NewName, Leftovers;
    var stage := StaysClean(e, states, events);
    var r := states[|events|];
    AtIsValid(e, stage, r);
    var after := FreezeCompletes(e, stage, r, temp);
    var freeze := FreezeRun(r, e.freeze, e.tag, e.source, temp);
    AtIsValid(e, after, freeze.End());
    var _ := FreezeProceeds(e, stage, r, temp);
    if freeze.outcome.Done? && NewName(e, freeze.End(), other) {
      var _ := CollectCompletes(e, after, freeze.End(), freeze.outcome.value, other);
    }
  }

  /** A concrete case: a freeze that dies between creating and unlinking its temporary file. Every
      later freeze that is left alone is refused, until somebody removes the file. */
  lemma DeadWriteBlocks(e: Setup, r: Repository, temp: Path, other: Path)
    requires Startable(e) && Clean(e, Fresh, r) && Valid(r) && Leftovers(e, r) == {}
    requires e.freeze.path !in r.worktree && NewName(e, r, temp)
    ensures var s := Put(r, temp, "");
      && FreezeRun(r, e.freeze, e.tag, e.source, temp).Explains(Crashed, s)
      && Valid(s) && Leftovers(e, s) == {temp}
      && (NewName(e, s, other) ==>
          FreezeRun(s, e.freeze, e.tag, e.source, other).outcome == Refused(WorktreeDirty))
  {
    hide *;
    var s := Put(r, temp, "");
    DeadWriteExplained(e, r, temp);
    DeadWriteLeaves(e, r, temp);
    AtIsValid(e, Fresh, s);
    TagMeansStage(e, Fresh, s);
    if NewName(e, s, other) {
      var _ := FreezeCompletes(e, Fresh, s, other);
    }
  }

  lemma DeadWriteExplained(e: Setup, r: Repository, temp: Path)
    requires Valid(r) && e.freeze.path !in r.worktree
    ensures FreezeRun(r, e.freeze, e.tag, e.source, temp).Explains(Crashed, Put(r, temp, ""))
  {
    var written := WriteOnce(r, e.freeze.path, e.freeze.text, temp);
    assert written.trail[1] == Put(r, temp, "") && written.outcome == Done(());
    hide SpecRun, Put, WriteOnce, FreezeRun;
    FreezeSplits(e, r, temp);
    assert FreezeRun(r, e.freeze, e.tag, e.source, temp).trail[1] == written.trail[1];
  }

  lemma DeadWriteLeaves(e: Setup, r: Repository, temp: Path)
    requires Startable(e) && Clean(e, Fresh, r) && NewName(e, r, temp) && Leftovers(e, r) == {}
    ensures Startable(e) && At(e, Fresh, Put(r, temp, "")) && Clean(e, Fresh, Put(r, temp, ""))
    ensures Leftovers(e, Put(r, temp, "")) == {temp}
  {
    var s := Put(r, temp, "");
    assert WritesOnly(r, s, e.freeze.path, e.freeze.text, temp);
    WritesStayClean(e, Fresh, r, s, e.freeze, temp);
    assert temp !in e.SourceTree();
    assert s.worktree.Keys == r.worktree.Keys + {temp};
  }

  // ----- Refused calls that have moved the branch -----

  /** `_commit_path` will commit: p is the only change, and HEAD has another file there. */
  predicate WillCommit(r: Repository, p: Path)
    requires Valid(r)
  {
    Status(r) == {p} && p in r.worktree && Get(HeadTree(r), p) != Some(r.worktree[p])
  }

  lemma CommittedVerifies(r: Repository, p: Path, marker: string, parent: CommitId)
    requires Valid(r) && WillCommit(r, p) && EndsMarker(marker)
    ensures var run := CommitVerified(r, p, marker, parent);
      && run.End().head == |r.commits|
      && run.outcome == if r.head == parent then Done(Receipt(|r.commits|, true)) else Refused(ParentMismatch)
  {
    CommitPathEffect(r, p, marker);
    MessageRoundTrip(marker);
    SetChangesOnly(HeadTree(r), p, Some(r.worktree[p]));
    var s := CommitPathRun(r, p, marker).End();
    assert s.commits[s.head] == Commit([r.head], marker + "\n", HeadTree(r)[p := r.worktree[p]]);
    assert s.commits[r.head] == r.commits[r.head];
  }

  /** The commit comes before the look at its parent. So a call is refused and has yet moved
      the branch exactly when there is something to commit and the branch does not end in the
      expected parent: a second, different result, say, or a committed record whose file mode
      was changed afterwards. */
  lemma MovesWhenRefused(r: Repository, p: Path, marker: string, parent: CommitId)
    requires Valid(r) && EndsMarker(marker) && p in r.worktree
    ensures var run := CommitVerified(r, p, marker, parent);
      run.outcome.Refused? && run.End().head != r.head <==> WillCommit(r, p) && r.head != parent
  {
    CommitPathEffect(r, p, marker);
    if WillCommit(r, p) {
      CommittedVerifies(r, p, marker, parent);
    }
  }

  lemma ResultMovesWhenRefused(r: Repository, valid: bool, p: Path, marker: string, spec: CommitId)
    requires Valid(r) && EndsMarker(marker)
    ensures var run := ResultRun(r, valid, p, marker, spec);
      run.outcome.Refused? && run.End().head != r.head <==>
        valid && IsRecordFile(Get(r.worktree, p)) && WillCommit(r, p) && r.head != spec
  {
    if p in r.worktree {
      MovesWhenRefused(r, p, marker, spec);
    }
  }

  /** The spec step likewise, as long as the tag is absent. */
  lemma SpecMovesWhenRefused(r: Repository, valid: bool, tag: string, p: Path, marker: string, source: CommitId)
    requires Valid(r) && EndsMarker(marker)
    ensures var run := SpecRun(r, valid, tag, p, marker, source);
      run.outcome.Refused? && run.End().head != r.head <==>
        valid && tag !in r.tags && IsRecordFile(Get(r.worktree, p)) && WillCommit(r, p) && r.head != source
  {
    if p in r.worktree {
      MovesWhenRefused(r, p, marker, source);
    }
  }

  /** Giving a committed file another content or mode makes it the one thing to commit. */
  lemma EditedWillCommit(r: Repository, p: Path, file: File)
    requires Valid(r) && OnlyDiffersAt(r, p) && p in HeadTree(r) && Get(r.index, p) == Get(HeadTree(r), p)
    requires HeadTree(r)[p] != file
    ensures var edited := r.(worktree := r.worktree[p := file]);
      Valid(edited) && WillCommit(edited, p) && HeadTree(edited) == HeadTree(r)
  {
    var edited := r.(worktree := r.worktree[p := file]);
    assert p in Differing(edited.index, edited.worktree);
    assert Status(edited) == {p};
  }

  /** A concrete case: a collected run whose result file is replaced by another one. The call
      is refused, and the branch now ends in a second result commit. */
  lemma SecondResultMovesBranch(e: Setup, r: Repository, other: Step)
    requires Startable(e) && Clean(e, Collected, r) && Leftovers(e, r) == {}
    requires other.valid && other.path == e.collect.path && EndsMarker(other.marker) && other.text != e.collect.text
    ensures var edited := r.(worktree := r.worktree[other.path := other.AsFile()]);
      && Valid(edited)
      && var run := ResultRun(edited, true, other.path, other.marker, |e.base|);
         run.outcome == Refused(ParentMismatch) && run.End().head == |r.commits|
  {
    var p := e.collect.path;
    var edited := r.(worktree := r.worktree[p := other.AsFile()]);
    AtIsValid(e, Collected, r);
    TidyDiffers(e, Collected, r);
    assert HeadTree(r) == e.ResultCommit().tree;
    hide OnlyDiffersAt, Leftovers, WillCommit, CommitVerified;
    EditedWillCommit(r, p, other.AsFile());
    CommittedVerifies(edited, p, other.marker, |e.base|);
  }

  /** Another concrete case: a frozen run without its tag whose RunSpec file is made executable.
      The call is refused, and the branch now ends in a second commit of the RunSpec. */
  lemma ExecutableSpecMovesBranch(e: Setup, r: Repository)
    requires Startable(e) && Clean(e, Frozen, r) && Leftovers(e, r) == {}
    ensures var p, file := e.freeze.path, File(Executable, e.freeze.text);
      var edited := r.(worktree := r.worktree[p := file]);
      && Valid(edited)
      && var run := SpecCall(e, edited);
         && run.outcome == Refused(ParentMismatch) && run.End().head == |r.commits|
         && run.End().commits == r.commits + [Commit([|e.base|], e.freeze.marker + "\n", HeadTree(r)[p := file])]
  {
    var p, file := e.freeze.path, File(Executable, e.freeze.text);
    var edited := r.(worktree := r.worktree[p := file]);
    AtIsValid(e, Frozen, r);
    TidyDiffers(e, Frozen, r);
    assert HeadTree(r) == e.SpecCommit().tree;
    hide OnlyDiffersAt, Leftovers, WillCommit, CommitPathRun;
    EditedWillCommit(r, p, file);
    CommittedVerifies(edited, p, e.freeze.marker, e.source);
    CommitPathEffect(edited, p, e.freeze.marker);
  }
}
