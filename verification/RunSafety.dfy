/** Safety of the run protocol over every history of calls, crashes and edits of worktree and index. */
module RunSafety {
  import opened Wrappers
  import opened GitModel
  import opened GitProcess
  import opened RunProtocol

  /** One run: the history it starts from, the tag, and its two fixed records. */
  datatype Setup = Setup(
    base: seq<Commit>, tags: map<string, CommitId>, branch: string, tag: string, source: CommitId,
    freeze: Step, collect: Step, bound: bool)
  {
    ghost predicate WellFormed() {
      && WellParented(base)
      && source < |base|
      && (forall t <- tags :: tags[t] < |base|)
      && tag !in tags
      && EndsMarker(freeze.marker) && EndsMarker(collect.marker)
      && freeze.path != collect.path && freeze.marker != collect.marker
    }

    function SourceTree(): Tree
      requires source < |base|
    {
      base[source].tree
    }

    function SpecCommit(): Commit
      requires source < |base|
    {
      Commit([source], freeze.marker + "\n", SourceTree()[freeze.path := freeze.AsFile()])
    }

    function ResultCommit(): Commit
      requires source < |base|
    {
      Commit([|base|], collect.marker + "\n", SpecCommit().tree[collect.path := collect.AsFile()])
    }
  }

  predicate EndsMarker(s: string) {
    |s| > 0 && s[|s| - 1] != '\n'
  }

  /** The run of a given spec and result, and why it is well-formed. */
  function SetupOf(base: seq<Commit>, tags: map<string, CommitId>, records: Records, spec: RunSpec,
                   result: RunResult): Setup {
    var branch := BranchName(spec.runId);
    Setup(base, tags, branch, TagName(spec.runId), spec.sourceCommit, FreezeStep(records, branch, spec),
          CollectStep(records, branch, spec.runId, result), Binds(result, spec))
  }

  lemma SetupOfIsWellFormed(base: seq<Commit>, tags: map<string, CommitId>, records: Records, spec: RunSpec,
                            result: RunResult)
    requires WellParented(base) && spec.sourceCommit < |base| && (forall t <- tags :: tags[t] < |base|)
    requires TagName(spec.runId) !in tags
    requires EndsMarker(spec.digest) && EndsMarker(result.resultId)
    ensures SetupOf(base, tags, records, spec, result).WellFormed()
  {
    var e := SetupOf(base, tags, records, spec, result);
    var n := |".research/runs/" + spec.runId + "/"|;
    assert e.freeze.path[n] == 's' && e.collect.path[n] == 'r';
    assert e.freeze.marker[13] == 'f' && e.collect.marker[13] == 'c';
  }

  /** `mkstemp` picks a name that is not there; it is never that of a record. */
  ghost predicate NewName(e: Setup, r: Repository, temp: Path) {
    temp !in r.worktree && temp != e.freeze.path && temp != e.collect.path
  }

  lemma TempIsNoRecord(base: seq<Commit>, tags: map<string, CommitId>, records: Records, spec: RunSpec,
                       result: RunResult, r: Repository, kind: string, random: string)
    requires TempPath(spec.runId, kind, random) !in r.worktree
    ensures NewName(SetupOf(base, tags, records, spec, result), r, TempPath(spec.runId, kind, random))
  {
    var e := SetupOf(base, tags, records, spec, result);
    var n := |".research/runs/" + spec.runId + "/"|;
    assert e.freeze.path[n] == 's' && e.collect.path[n] == 'r';
    assert TempPath(spec.runId, kind, random)[n] == '.';
  }

  /** How far the run branch has come. */
  datatype Stage = Fresh | Frozen | Tagged | Collected {
    function Rank(): nat {
      match this
      case Fresh => 0
      case Frozen => 1
      case Tagged => 2
      case Collected => 3
    }
  }

  /** The branch is source, source-spec or source-spec-result, the store holds nothing else
      new, and the tag is absent or names the spec commit. Only the index and the contents of
      worktree files are left open. */
  ghost predicate At(e: Setup, stage: Stage, r: Repository)
    requires e.WellFormed()
  {
    && r.branch == e.branch
    && r.commits == e.base +
      (if stage.Fresh? then [] else if stage.Collected? then [e.SpecCommit(), e.ResultCommit()] else [e.SpecCommit()])
    && r.head == (if stage.Fresh? then e.source else if stage.Collected? then |e.base| + 1 else |e.base|)
    && r.tags == (if stage.Rank() >= 2 then e.tags[e.tag := |e.base|] else e.tags)
    && (stage.Rank() >= 1 ==> Get(e.SourceTree(), e.freeze.path) != Some(e.freeze.AsFile()))
    && (stage.Rank() >= 3 ==> Get(e.SpecCommit().tree, e.collect.path) != Some(e.collect.AsFile()))
    && RecordsRegular(e, r.worktree)
  }

  /** Nobody made the record files executable or replaced them by links. */
  ghost predicate RecordsRegular(e: Setup, worktree: Tree) {
    forall p :: p in worktree && p in {e.freeze.path, e.collect.path} ==> worktree[p].mode.Regular?
  }

  lemma AtIsValid(e: Setup, stage: Stage, r: Repository)
    requires e.WellFormed() && At(e, stage, r)
    ensures Valid(r)
  {
    forall c, i | 0 <= c < |r.commits| && 0 <= i < |r.commits[c].parents|
      ensures r.commits[c].parents[i] < c
    {
      if c < |e.base| {
        assert r.commits[c] == e.base[c];
      }
    }
  }

  // ----- One call -----

  /** Everything but the index is as it was. */
  ghost predicate SameButIndex(r: Repository, s: Repository) {
    s == r.(index := s.index)
  }

  /** `_commit_path` leaves the history alone, or adds exactly one commit that changes only p. */
  lemma CommitPathEffect(r: Repository, p: Path, marker: string)
    requires Valid(r) && p in r.worktree
    ensures var run := CommitPathRun(r, p, marker);
      && (forall i :: 0 <= i < |run.trail| - 1 ==> SameButIndex(r, run.trail[i]))
      && (if run.outcome == Done(true)
          then
            && Get(HeadTree(r), p) != Some(r.worktree[p])
            && run.End() == Append(r.(index := r.index[p := r.worktree[p]]), HeadTree(r)[p := r.worktree[p]], marker)
          else SameButIndex(r, run.End()))
      && (run.outcome.Done? && Get(HeadTree(r), p) == Some(r.worktree[p]) ==> run.outcome == Done(false))
  {
  }

  /** What matching says of a commit with one parent: under the marker it changed the record and
      nothing else, and made its content what the worktree has. */
  lemma MatchesMeans(r: Repository, c: CommitId, p: Path, marker: string)
    requires Valid(r) && c < |r.commits| && |r.commits[c].parents| == 1
    ensures var commit := r.commits[c];
      Matches(r, c, p, marker) == Done(true) <==>
        && WithoutFinalNewlines(commit.message) == marker
        && (forall q :: Get(r.commits[commit.parents[0]].tree, q) != Get(commit.tree, q) <==> q == p)
        && p in commit.tree && p in r.worktree && commit.tree[p].content == r.worktree[p].content
  {
    hide WithoutFinalNewlines;
    var before, after := r.commits[r.commits[c].parents[0]].tree, r.commits[c].tree;
    forall q ensures q in Differing(before, after) <==> Get(before, q) != Get(after, q) {
    }
    if forall q :: Get(before, q) != Get(after, q) <==> q == p {
      assert Differing(before, after) == {p};
    }
  }

  /** The commit is this record over this parent, told by its own fields: the marker as message,
      the one parent, a tree that differs from the parent's at the record only and holds there
      what the worktree holds. */
  ghost predicate IsRecordOver(r: Repository, c: CommitId, p: Path, marker: string, parent: CommitId)
    requires Valid(r) && c < |r.commits|
  {
    var commit := r.commits[c];
    && WithoutFinalNewlines(commit.message) == marker
    && commit.parents == [parent] && parent < |r.commits|
    && (forall q :: Get(r.commits[parent].tree, q) != Get(commit.tree, q) <==> q == p)
    && p in commit.tree && p in r.worktree && commit.tree[p].content == r.worktree[p].content
  }

  /** A commit is verified exactly when it is the record over the parent. */
  lemma VerifiedIff(r: Repository, c: CommitId, p: Path, marker: string, parent: CommitId, missing: Error)
    requires Valid(r) && c < |r.commits|
    ensures var v := Verified(r, c, p, marker, parent, missing);
      && (v.Done? <==> IsRecordOver(r, c, p, marker, parent)) && !v.Crashed?
      && (WithoutFinalNewlines(r.commits[c].message) != marker ==> v == Refused(missing))
  {
    if |r.commits[c].parents| == 1 {
      MatchesMeans(r, c, p, marker);
      assert r.commits[c].parents == [r.commits[c].parents[0]];
    }
    hide WithoutFinalNewlines;
  }

  /** MAIN: a tag that is there is answered with a receipt, which names it, exactly when identity
      and path are valid, the tagged commit is the record over the source, and the branch has it;
      otherwise the call is refused. Neither changes anything. */
  lemma TaggedIff(r: Repository, valid: bool, tag: string, p: Path, marker: string, source: CommitId)
    requires Valid(r) && tag in r.tags
    ensures var run := SpecRun(r, valid, tag, p, marker, source);
      && run.trail == [r]
      && (run.outcome.Done? <==>
          && valid && p in r.worktree && r.worktree[p].mode in {Regular, Executable}
          && IsRecordOver(r, r.tags[tag], p, marker, source)
          && IsAncestor(r.commits, r.tags[tag], r.head))
      && (run.outcome.Done? ==> run.outcome == Done(Receipt(r.tags[tag], false)))
  {
    VerifiedIff(r, r.tags[tag], p, marker, source, TagConflict);
    hide Verified, IsRecordOver;
  }

  /** MAIN: a call that finds the record committed returns a receipt for the tip exactly when the
      tip is the record over the parent. */
  lemma ObservedIff(r: Repository, p: Path, marker: string, parent: CommitId)
    requires Valid(r) && Status(r) == {}
    ensures var run := CommitVerified(r, p, marker, parent);
      && run.trail == [r]
      && (run.outcome.Done? <==> IsRecordOver(r, r.head, p, marker, parent))
      && (run.outcome.Done? ==> run.outcome == Done(Receipt(r.head, false)))
  {
    VerifiedIff(r, r.head, p, marker, parent, CommitMissing);
    hide Verified, IsRecordOver;
  }

  lemma SpecCommitVerifies(e: Setup, stage: Stage, r: Repository)
    requires e.WellFormed() && At(e, stage, r) && stage.Rank() >= 1
    requires Get(r.worktree, e.freeze.path) == Some(e.freeze.AsFile())
    ensures Valid(r)
    ensures forall missing ::
      Verified(r, |e.base|, e.freeze.path, e.freeze.marker, e.source, missing) == Done(())
    ensures IsAncestor(r.commits, |e.base|, r.head)
  {
    AtIsValid(e, stage, r);
    MessageRoundTrip(e.freeze.marker);
    MessageRoundTrip(e.collect.marker);
    assert r.commits[|e.base|] == e.SpecCommit();
    assert r.commits[e.source] == e.base[e.source];
    SetChangesOnly(e.SourceTree(), e.freeze.path, Some(e.freeze.AsFile()));
    if stage.Collected? {
      assert r.commits[r.head].parents[0] == |e.base|;
      assert IsAncestor(r.commits, |e.base|, r.commits[r.head].parents[0]);
    }
  }

  lemma ResultCommitVerifies(e: Setup, r: Repository)
    requires e.WellFormed() && At(e, Collected, r)
    requires Get(r.worktree, e.collect.path) == Some(e.collect.AsFile())
    ensures Valid(r)
    ensures Verified(r, r.head, e.collect.path, e.collect.marker, |e.base|, CommitMissing) == Done(())
  {
    AtIsValid(e, Collected, r);
    MessageRoundTrip(e.freeze.marker);
    MessageRoundTrip(e.collect.marker);
    assert r.commits[|e.base|] == e.SpecCommit() && r.commits[|e.base| + 1] == e.ResultCommit();
    SetChangesOnly(e.SpecCommit().tree, e.collect.path, Some(e.collect.AsFile()));
  }

  /** The state is at a stage no earlier than the given one. */
  ghost predicate Since(e: Setup, stage: Stage, r: Repository)
    requires e.WellFormed()
  {
    exists s: Stage :: At(e, s, r) && stage.Rank() <= s.Rank()
  }

  ghost predicate AllSince(e: Setup, stage: Stage, trail: seq<Repository>)
    requires e.WellFormed()
  {
    forall i :: 0 <= i < |trail| ==> Since(e, stage, trail[i])
  }

  lemma AllSinceJoins(e: Setup, stage: Stage, a: seq<Repository>, b: seq<Repository>)
    requires e.WellFormed() && AllSince(e, stage, a) && AllSince(e, stage, b)
    ensures AllSince(e, stage, a + b)
  {
    forall i | 0 <= i < |a + b| ensures Since(e, stage, (a + b)[i]) {
      assert (a + b)[i] == if i < |a| then a[i] else b[i - |a|];
    }
  }

  function SpecCall(e: Setup, r: Repository): Run<Receipt>
    requires Valid(r)
  {
    SpecRun(r, e.freeze.valid, e.tag, e.freeze.path, e.freeze.marker, e.source)
  }

  /** What one run of the spec step, found at `stage`, has achieved when it ends at `after`. */
  ghost predicate SpecAchieves(e: Setup, stage: Stage, r: Repository, after: Stage)
    requires e.WellFormed() && Valid(r)
  {
    var run := SpecCall(e, r);
    && At(e, after, run.End())
    && AllSince(e, stage, run.trail)
    && stage.Rank() <= after.Rank()
    && (run.outcome.Done? ==> after.Rank() >= 2 && run.outcome.value.commit == |e.base|)
    && run.End().worktree == r.worktree
  }

  lemma SpecStepTagged(e: Setup, stage: Stage, r: Repository)
    requires e.WellFormed() && At(e, stage, r) && Valid(r) && stage.Rank() >= 2
    requires Get(r.worktree, e.freeze.path) == Some(e.freeze.AsFile())
    ensures SpecAchieves(e, stage, r, stage)
  {
    SpecCommitVerifies(e, stage, r);
  }

  /** `_commit_path` on a branch that does not have the file yet brings it to the next stage or
      leaves its stage alone. */
  lemma SpecLands(e: Setup, r: Repository)
    requires e.WellFormed() && At(e, Fresh, r) && Valid(r)
    requires Get(r.worktree, e.freeze.path) == Some(e.freeze.AsFile())
    ensures var run := CommitPathRun(r, e.freeze.path, e.freeze.marker);
      && AllSince(e, Fresh, run.trail)
      && At(e, if run.outcome == Done(true) then Frozen else Fresh, run.End())
      && run.End().worktree == r.worktree
  {
    hide CommitPathRun;
    CommitPathEffect(r, e.freeze.path, e.freeze.marker);
    var run := CommitPathRun(r, e.freeze.path, e.freeze.marker);
    assert HeadTree(r) == e.SourceTree();
    if run.outcome == Done(true) {
      assert run.End().commits == e.base + [e.SpecCommit()];
      assert At(e, Frozen, run.End());
    }
    forall i | 0 <= i < |run.trail| - 1 ensures At(e, Fresh, run.trail[i]) {}
  }

  /** A branch that ends in the file already is not committed to again. */
  lemma NothingLands(e: Setup, stage: Stage, r: Repository, step: Step)
    requires e.WellFormed() && At(e, stage, r) && Valid(r)
    requires Get(r.worktree, step.path) == Some(step.AsFile()) == Get(HeadTree(r), step.path)
    ensures var run := CommitPathRun(r, step.path, step.marker);
      && AllSince(e, stage, run.trail)
      && At(e, stage, run.End())
      && run.outcome != Done(true)
      && run.End().worktree == r.worktree
  {
    CommitPathEffect(r, step.path, step.marker);
    var run := CommitPathRun(r, step.path, step.marker);
    forall i | 0 <= i < |run.trail| ensures At(e, stage, run.trail[i]) {}
  }

  /** Once `_commit_path` has left the spec commit at the tip, the rest of the step tags it. */
  lemma SpecTags(e: Setup, stage: Stage, r: Repository)
    requires e.WellFormed() && Valid(r) && e.tag !in r.tags && stage.Rank() <= 1
    requires Get(r.worktree, e.freeze.path) == Some(e.freeze.AsFile())
    requires var committed := CommitPathRun(r, e.freeze.path, e.freeze.marker);
      && committed.outcome.Done? && At(e, Frozen, committed.End()) && committed.End().worktree == r.worktree
      && AllSince(e, stage, committed.trail)
    requires e.freeze.valid
    ensures SpecAchieves(e, stage, r, Tagged)
  {
    hide CommitPathRun, Verified, RecordsRegular;
    var committed := CommitPathRun(r, e.freeze.path, e.freeze.marker);
    var s := committed.End();
    SpecCommitVerifies(e, Frozen, s);
    var tagged := s.(tags := s.tags[e.tag := s.head]);
    assert At(e, Tagged, tagged);
    assert CommitVerified(r, e.freeze.path, e.freeze.marker, e.source) ==
           Run(committed.trail, Done(Receipt(s.head, committed.outcome.value)));
    AllSinceJoins(e, stage, committed.trail, [tagged]);
    assert SpecCall(e, r) == Run(committed.trail + [tagged], Done(Receipt(s.head, committed.outcome.value)));
  }

  lemma SpecStepFrozen(e: Setup, r: Repository) returns (after: Stage)
    requires e.WellFormed() && At(e, Frozen, r) && Valid(r)
    requires Get(r.worktree, e.freeze.path) == Some(e.freeze.AsFile())
    ensures SpecAchieves(e, Frozen, r, after)
  {
    assert HeadTree(r) == e.SpecCommit().tree;
    NothingLands(e, Frozen, r, e.freeze);
    after := Frozen;
    if e.freeze.valid && CommitPathRun(r, e.freeze.path, e.freeze.marker).outcome.Done? {
      SpecTags(e, Frozen, r);
      after := Tagged;
    }
  }

  /** The source commit is not its own parent, so it never passes for the spec commit. */
  lemma SourceIsNoSpec(e: Setup, r: Repository)
    requires e.WellFormed() && At(e, Fresh, r) && Valid(r)
    ensures Verified(r, r.head, e.freeze.path, e.freeze.marker, e.source, CommitMissing).Refused?
  {
  }

  lemma SpecStepFresh(e: Setup, r: Repository) returns (after: Stage)
    requires e.WellFormed() && At(e, Fresh, r) && Valid(r)
    requires Get(r.worktree, e.freeze.path) == Some(e.freeze.AsFile())
    ensures SpecAchieves(e, Fresh, r, after)
  {
    hide CommitPathRun, Verified;
    SpecLands(e, r);
    var committed := CommitPathRun(r, e.freeze.path, e.freeze.marker);
    after := Fresh;
    if e.freeze.valid && committed.outcome == Done(true) {
      SpecTags(e, Fresh, r);
      after := Tagged;
    } else if committed.outcome != Done(true) {
      SourceIsNoSpec(e, committed.End());
    }
  }

  lemma SpecStep(e: Setup, stage: Stage, r: Repository) returns (after: Stage)
    requires e.WellFormed() && At(e, stage, r) && Valid(r)
    requires Get(r.worktree, e.freeze.path) == Some(e.freeze.AsFile())
    ensures SpecAchieves(e, stage, r, after)
  {
    match stage
    case Fresh => after := SpecStepFresh(e, r);
    case Frozen => after := SpecStepFrozen(e, r);
    case _ =>
      SpecStepTagged(e, stage, r);
      after := stage;
  }

  /** A write leaves all files alone; what it adds is the record or the regular temporary file. */
  ghost predicate WritesOnly(r: Repository, s: Repository, p: Path, text: string, temp: Path) {
    && s == r.(worktree := s.worktree)
    && (forall q <- r.worktree :: Get(s.worktree, q) == Get(r.worktree, q))
    && (forall q <- s.worktree :: q in r.worktree
          || (q == p && s.worktree[q] == File(Regular, text)) || (q == temp && s.worktree[q].mode.Regular?))
  }

  lemma WriteOnceEffect(r: Repository, p: Path, text: string, temp: Path)
    requires temp !in r.worktree && temp != p
    ensures var run := WriteOnce(r, p, text, temp);
      && (forall i :: 0 <= i < |run.trail| ==> WritesOnly(r, run.trail[i], p, text, temp))
      && (run.outcome.Done? && p !in r.worktree ==> run.End() == Put(r, p, text))
      && (p in r.worktree ==> run.End() == r)
  {
    if p !in r.worktree {
      assert r.worktree[temp := File(Regular, text)][p := File(Regular, text)] - {temp} ==
        r.worktree[p := File(Regular, text)];
    }
  }

  lemma WriteOnceStep(e: Setup, stage: Stage, r: Repository, p: Path, text: string, temp: Path)
    requires e.WellFormed() && At(e, stage, r) && p in {e.freeze.path, e.collect.path} && NewName(e, r, temp)
    ensures var run := WriteOnce(r, p, text, temp);
      && AllSince(e, stage, run.trail)
      && At(e, stage, run.End())
      && (run.outcome.Done? ==> run.End() == Put(r, p, text))
  {
    assert RecordsRegular(e, r.worktree);
    var run := WriteOnce(r, p, text, temp);
    WriteOnceEffect(r, p, text, temp);
    if p in r.worktree && run.outcome.Done? {
      assert r.worktree == r.worktree[p := r.worktree[p]];
    }
    hide At, WriteOnce;
    forall i | 0 <= i < |run.trail| ensures At(e, stage, run.trail[i]) {
      assert WritesOnly(r, run.trail[i], p, text, temp);
      EditKeepsStage(e, stage, r, run.trail[i]);
    }
  }

  // ----- The names a receipt stands for -----

  lemma WriteOnceMeans(r: Repository, p: Path, text: string, temp: Path)
    requires Valid(r) && temp != p
    ensures var run := WriteOnce(r, p, text, temp);
      && run.End() == r.(worktree := run.End().worktree) && Valid(run.End())
      && (run.outcome.Done? ==> p in run.End().worktree && run.End().worktree[p].content == text)
  {
  }

  lemma CommitVerifiedMeans(r: Repository, p: Path, marker: string, parent: CommitId)
    requires Valid(r) && p in r.worktree && CommitVerified(r, p, marker, parent).outcome.Done?
    ensures var run := CommitVerified(r, p, marker, parent);
      var s := run.End();
      && Valid(s) && s.worktree == r.worktree && run.outcome.value.commit == s.head
      && IsRecordOver(s, s.head, p, marker, parent)
  {
    CommitPathEffect(r, p, marker);
    var s := CommitPathRun(r, p, marker).End();
    VerifiedIff(s, s.head, p, marker, parent, CommitMissing);
    hide CommitPathRun, Verified, IsRecordOver, Valid;
  }

  lemma SpecRunMeans(r: Repository, valid: bool, tag: string, p: Path, marker: string, source: CommitId)
    requires Valid(r) && SpecRun(r, valid, tag, p, marker, source).outcome.Done?
    ensures var run := SpecRun(r, valid, tag, p, marker, source);
      var s, c := run.End(), run.outcome.value.commit;
      && valid && Valid(s) && s.worktree == r.worktree && p in r.worktree
      && tag in s.tags && s.tags[tag] == c && IsRecordOver(s, c, p, marker, source)
  {
    assert p in r.worktree;
    if tag in r.tags {
      TaggedIff(r, valid, tag, p, marker, source);
    } else {
      CommitVerifiedMeans(r, p, marker, source);
      var s := CommitVerified(r, p, marker, source).End();
      TaggedIsRecordOver(s, tag, s.head, p, marker, source);
    }
    hide CommitVerified, Verified, IsRecordOver, WithoutFinalNewlines;
  }

  lemma TaggedIsRecordOver(s: Repository, tag: string, c: CommitId, p: Path, marker: string, source: CommitId)
    requires Valid(s) && c < |s.commits|
    ensures Valid(s.(tags := s.tags[tag := c]))
    ensures IsRecordOver(s.(tags := s.tags[tag := c]), c, p, marker, source) <==>
      IsRecordOver(s, c, p, marker, source)
  {
  }

  /** The commit has this one parent and message, and its tree is the parent's but for p, where it
      holds this content. */
  ghost predicate Adds(r: Repository, c: CommitId, parent: CommitId, p: Path, content: string, message: string)
    requires c < |r.commits|
  {
    var commit := r.commits[c];
    && commit.parents == [parent] && parent < |r.commits| && WithoutFinalNewlines(commit.message) == message
    && p in commit.tree && commit.tree[p].content == content
    && forall q :: q != p ==> Get(r.commits[parent].tree, q) == Get(commit.tree, q)
  }

  lemma RecordAdds(r: Repository, c: CommitId, p: Path, marker: string, parent: CommitId)
    requires Valid(r) && c < |r.commits| && IsRecordOver(r, c, p, marker, parent)
    ensures p in r.worktree && Adds(r, c, parent, p, r.worktree[p].content, marker)
  {
    hide WithoutFinalNewlines;
  }

  lemma FreezeRunMeans(r: Repository, step: Step, tag: string, source: CommitId, temp: Path)
    requires Valid(r) && temp != step.path && FreezeRun(r, step, tag, source, temp).outcome.Done?
    ensures var run := FreezeRun(r, step, tag, source, temp);
      var s, c := run.End(), run.outcome.value.commit;
      && step.valid && tag in s.tags && s.tags[tag] == c < |s.commits|
      && Adds(s, c, source, step.path, step.text, step.marker)
  {
    var written := WriteOnce(r, step.path, step.text, temp);
    var frozen := SpecRun(written.End(), step.valid, tag, step.path, step.marker, source);
    WriteOnceMeans(r, step.path, step.text, temp);
    assert written.outcome.Done? && FreezeRun(r, step, tag, source, temp).outcome == frozen.outcome;
    assert FreezeRun(r, step, tag, source, temp).End() == frozen.End();
    hide *;
    SpecRunMeans(written.End(), step.valid, tag, step.path, step.marker, source);
    InStore(frozen.End(), tag);
    RecordAdds(frozen.End(), frozen.outcome.value.commit, step.path, step.marker, source);
  }

  lemma InStore(r: Repository, tag: string)
    requires Valid(r)
    ensures r.head < |r.commits| && (tag in r.tags ==> r.tags[tag] < |r.commits|)
  {
  }

  lemma CollectRunMeans(r: Repository, step: Step, bound: bool, frozen: Receipt, temp: Path)
    requires Valid(r) && temp != step.path && CollectRun(r, step, bound, frozen, temp).outcome.Done?
    ensures var run := CollectRun(r, step, bound, frozen, temp);
      var s := run.End();
      && bound && step.valid && s.head == run.outcome.value.commit < |s.commits|
      && Adds(s, s.head, frozen.commit, step.path, step.text, step.marker)
  {
    var written := WriteOnce(r, step.path, step.text, temp);
    var collected := CommitVerified(written.End(), step.path, step.marker, frozen.commit);
    WriteOnceMeans(r, step.path, step.text, temp);
    hide WriteOnce, CommitVerified;
    assert bound && written.outcome.Done? && step.valid;
    assert CollectRun(r, step, bound, frozen, temp).outcome == collected.outcome;
    assert CollectRun(r, step, bound, frozen, temp).End() == collected.End();
    hide *;
    CommitVerifiedMeans(written.End(), step.path, step.marker, frozen.commit);
    InStore(collected.End(), "");
    RecordAdds(collected.End(), collected.End().head, step.path, step.marker, frozen.commit);
  }

  lemma RecordPaths(runId: string)
    ensures RecordPath(runId, "spec") == ".research/runs/" + runId + "/spec.yaml"
    ensures RecordPath(runId, "result") == ".research/runs/" + runId + "/result.yaml"
  {
    assert ".research/runs/" + runId + "/" + "spec" + ".yaml" == ".research/runs/" + runId + ("/" + "spec" + ".yaml");
    assert ".research/runs/" + runId + "/" + "result" + ".yaml" ==
      ".research/runs/" + runId + ("/" + "result" + ".yaml");
  }

  /** MAIN: a freeze that returns leaves the run's tag at a commit over the source of the spec, which
      adds the canonical RunSpec and nothing else under the message of the freeze; and it was asked
      for on the run's branch. */
  lemma FrozenUnderItsNames(r: Repository, records: Records, branch: string, spec: RunSpec, temp: Path)
    requires Valid(r) && temp != RecordPath(spec.runId, "spec")
    ensures var run := FreezeRun(r, FreezeStep(records, branch, spec), TagName(spec.runId), spec.sourceCommit, temp);
      var s, tag, p := run.End(), "research-run/" + spec.runId, ".research/runs/" + spec.runId + "/spec.yaml";
      run.outcome.Done? ==>
        && records.validRunId(spec.runId) && branch == "research/run/" + spec.runId
        && tag in s.tags && s.tags[tag] == run.outcome.value.commit < |s.commits|
        && Adds(s, s.tags[tag], spec.sourceCommit, p, records.specText(spec),
                "researchctl: freeze run " + spec.runId + " " + spec.digest)
  {
    var step, tag := FreezeStep(records, branch, spec), TagName(spec.runId);
    hide FreezeRun, Adds, Valid;
    if FreezeRun(r, step, tag, spec.sourceCommit, temp).outcome.Done? {
      FreezeRunMeans(r, step, tag, spec.sourceCommit, temp);
      RecordPaths(spec.runId);
    }
  }

  /** MAIN: a collection that returns leaves the branch at a commit over the frozen one, which adds the
      canonical RunResult of that run and nothing else under the message of the collection. */
  lemma CollectedUnderItsNames(r: Repository, records: Records, branch: string, spec: RunSpec, result: RunResult,
                               frozen: Receipt, temp: Path)
    requires Valid(r) && temp != RecordPath(spec.runId, "result")
    ensures var run :=
        CollectRun(r, CollectStep(records, branch, spec.runId, result), Binds(result, spec), frozen, temp);
      var s, p := run.End(), ".research/runs/" + spec.runId + "/result.yaml";
      run.outcome.Done? ==>
        && records.validRunId(spec.runId) && branch == "research/run/" + spec.runId
        && result.runId == spec.runId && result.specDigest == spec.digest
        && s.head == run.outcome.value.commit < |s.commits|
        && Adds(s, s.head, frozen.commit, p, records.resultText(result),
                "researchctl: collect run " + spec.runId + " " + result.resultId)
  {
    var step := CollectStep(records, branch, spec.runId, result);
    hide CollectRun, Adds, Valid;
    if CollectRun(r, step, Binds(result, spec), frozen, temp).outcome.Done? {
      CollectRunMeans(r, step, Binds(result, spec), frozen, temp);
      RecordPaths(spec.runId);
    }
  }

  ghost predicate FreezeAchieves(e: Setup, stage: Stage, r: Repository, temp: Path, after: Stage)
    requires e.WellFormed() && Valid(r)
  {
    var run := FreezeRun(r, e.freeze, e.tag, e.source, temp);
    && At(e, after, run.End())
    && stage.Rank() <= after.Rank()
    && AllSince(e, stage, run.trail)
    && (run.outcome.Done? ==> after.Rank() >= 2 && run.outcome.value.commit == |e.base|)
  }

  lemma FreezeSplits(e: Setup, r: Repository, temp: Path)
    requires Valid(r)
    ensures var written := WriteOnce(r, e.freeze.path, e.freeze.text, temp);
      FreezeRun(r, e.freeze, e.tag, e.source, temp) ==
      if written.outcome.IsFailure() then Run(written.trail, written.outcome.PropagateFailure())
      else Run(written.trail + SpecCall(e, written.End()).trail, SpecCall(e, written.End()).outcome)
  {
  }

  /** A freeze, interrupted anywhere or not, moves the run forward only; its receipt names the
      tagged spec commit, also when the result commit is already on top of it. */
  lemma FreezeProceeds(e: Setup, stage: Stage, r: Repository, temp: Path) returns (after: Stage)
    requires e.WellFormed() && At(e, stage, r) && Valid(r) && NewName(e, r, temp)
    ensures FreezeAchieves(e, stage, r, temp, after)
  {
    hide SpecRun, FreezeRun, At;
    FreezeSplits(e, r, temp);
    WriteOnceStep(e, stage, r, e.freeze.path, e.freeze.text, temp);
    var written := WriteOnce(r, e.freeze.path, e.freeze.text, temp);
    after := stage;
    if written.outcome.Done? {
      var w := written.End();
      after := SpecStep(e, stage, w);
      AllSinceJoins(e, stage, written.trail, SpecCall(e, w).trail);
    }
  }

  function ResultCall(e: Setup, r: Repository): Run<Receipt>
    requires Valid(r)
  {
    ResultRun(r, e.collect.valid, e.collect.path, e.collect.marker, |e.base|)
  }

  ghost predicate ResultAchieves(e: Setup, stage: Stage, r: Repository, after: Stage)
    requires e.WellFormed() && Valid(r)
  {
    var run := ResultCall(e, r);
    && At(e, after, run.End())
    && stage.Rank() <= after.Rank()
    && AllSince(e, stage, run.trail)
    && (run.outcome.Done? ==> after.Collected? && run.outcome.value.commit == |e.base| + 1)
    && run.End().worktree == r.worktree
  }

  lemma ResultStepCollected(e: Setup, r: Repository)
    requires e.WellFormed() && At(e, Collected, r) && Valid(r)
    requires Get(r.worktree, e.collect.path) == Some(e.collect.AsFile())
    ensures ResultAchieves(e, Collected, r, Collected)
  {
    hide CommitPathRun, Verified;
    assert HeadTree(r) == e.ResultCommit().tree;
    NothingLands(e, Collected, r, e.collect);
    ResultCommitVerifies(e, CommitPathRun(r, e.collect.path, e.collect.marker).End());
  }

  lemma ResultLands(e: Setup, r: Repository)
    requires e.WellFormed() && At(e, Tagged, r) && Valid(r)
    requires Get(r.worktree, e.collect.path) == Some(e.collect.AsFile())
    ensures var run := CommitPathRun(r, e.collect.path, e.collect.marker);
      && AllSince(e, Tagged, run.trail)
      && At(e, if run.outcome == Done(true) then Collected else Tagged, run.End())
      && run.End().worktree == r.worktree
  {
    hide CommitPathRun;
    CommitPathEffect(r, e.collect.path, e.collect.marker);
    var run := CommitPathRun(r, e.collect.path, e.collect.marker);
    assert HeadTree(r) == e.SpecCommit().tree;
    if run.outcome == Done(true) {
      assert run.End().commits == e.base + [e.SpecCommit(), e.ResultCommit()];
      assert At(e, Collected, run.End());
    }
    forall i | 0 <= i < |run.trail| - 1 ensures At(e, Tagged, run.trail[i]) {}
  }

  /** The spec commit carries another marker, so it never passes for a result commit. */
  lemma SpecIsNoResult(e: Setup, r: Repository)
    requires e.WellFormed() && At(e, Tagged, r) && Valid(r)
    ensures Verified(r, r.head, e.collect.path, e.collect.marker, |e.base|, CommitMissing).Refused?
  {
    MessageRoundTrip(e.freeze.marker);
    assert r.commits[r.head] == e.SpecCommit();
  }

  lemma ResultStepTagged(e: Setup, r: Repository) returns (after: Stage)
    requires e.WellFormed() && At(e, Tagged, r) && Valid(r)
    requires Get(r.worktree, e.collect.path) == Some(e.collect.AsFile())
    ensures ResultAchieves(e, Tagged, r, after)
  {
    hide CommitPathRun, Verified;
    ResultLands(e, r);
    var committed := CommitPathRun(r, e.collect.path, e.collect.marker);
    after := Tagged;
    if e.collect.valid {
      if committed.outcome == Done(true) {
        ResultCommitVerifies(e, committed.End());
        after := Collected;
      } else {
        SpecIsNoResult(e, committed.End());
      }
    }
  }

  ghost predicate CollectAchieves(e: Setup, stage: Stage, r: Repository, frozen: Receipt, temp: Path, after: Stage)
    requires e.WellFormed() && Valid(r)
  {
    var run := CollectRun(r, e.collect, e.bound, frozen, temp);
    && At(e, after, run.End())
    && stage.Rank() <= after.Rank()
    && AllSince(e, stage, run.trail)
    && (run.outcome.Done? ==> after.Collected? && run.outcome.value.commit == |e.base| + 1)
  }

  lemma CollectSplits(e: Setup, r: Repository, frozen: Receipt, temp: Path)
    requires Valid(r) && frozen.commit == |e.base|
    ensures var written := WriteOnce(r, e.collect.path, e.collect.text, temp);
      CollectRun(r, e.collect, e.bound, frozen, temp) ==
      if !e.bound then Run([r], Refused(ResultMismatch))
      else if written.outcome.IsFailure() then Run(written.trail, written.outcome.PropagateFailure())
      else Run(written.trail + ResultCall(e, written.End()).trail, ResultCall(e, written.End()).outcome)
  {
  }

  /** Collecting over a frozen run; its receipt names the commit right above the tagged one. */
  lemma CollectProceeds(e: Setup, stage: Stage, r: Repository, frozen: Receipt, temp: Path) returns (after: Stage)
    requires e.WellFormed() && At(e, stage, r) && Valid(r) && stage.Rank() >= 2
    requires frozen.commit == |e.base| && NewName(e, r, temp)
    ensures CollectAchieves(e, stage, r, frozen, temp, after)
  {
    hide ResultRun, CollectRun, At, WriteOnce;
    CollectSplits(e, r, frozen, temp);
    after := stage;
    if e.bound {
      WriteOnceStep(e, stage, r, e.collect.path, e.collect.text, temp);
      var written := WriteOnce(r, e.collect.path, e.collect.text, temp);
      if written.outcome.Done? {
        var w := written.End();
        AtIsValid(e, stage, w);
        if stage.Collected? {
          ResultStepCollected(e, w);
        } else {
          after := ResultStepTagged(e, w);
        }
        AllSinceJoins(e, stage, written.trail, ResultCall(e, w).trail);
      }
    }
  }

  // ----- Whole histories -----

  /** What can happen to the repository: a call that ran to its end or died, or somebody
      editing the worktree and the index between two calls. The worktree lock keeps calls apart. */
  datatype Event =
    | Freeze(temp: Path, frozen: Outcome<Receipt, Error>)
    | Collect(temp: Path, over: Receipt, collected: Outcome<Receipt, Error>)
    | Edit

  ghost predicate Happens(e: Setup, r: Repository, event: Event, s: Repository)
    requires Valid(r)
  {
    match event
    case Freeze(temp, o) => NewName(e, r, temp) && FreezeRun(r, e.freeze, e.tag, e.source, temp).Explains(o, s)
    case Collect(temp, over, o) =>
      NewName(e, r, temp) && CollectRun(r, e.collect, e.bound, over, temp).Explains(o, s)
    case Edit => s == r.(index := s.index, worktree := s.worktree) && RecordsRegular(e, s.worktree)
  }

  ghost predicate IsFreeze(event: Event, receipt: Receipt) {
    event.Freeze? && event.frozen == Done(receipt)
  }

  /** Event i turns states[i] into states[i + 1]; a collector holds a receipt of an earlier freeze. */
  ghost predicate Linked(e: Setup, states: seq<Repository>, events: seq<Event>, i: nat)
    requires i < |events| && |states| == |events| + 1
  {
    && Valid(states[i]) && Happens(e, states[i], events[i], states[i + 1])
    && (events[i].Collect? ==> exists k :: 0 <= k < i && IsFreeze(events[k], events[i].over))
  }

  /** A history that starts from a prepared worktree. */
  ghost predicate History(e: Setup, states: seq<Repository>, events: seq<Event>)
    requires e.WellFormed()
  {
    && |states| == |events| + 1
    && At(e, Fresh, states[0])
    && forall i :: 0 <= i < |events| ==> Linked(e, states, events, i)
  }

  ghost predicate Explained(e: Setup, event: Event, before: Stage, after: Stage) {
    && before.Rank() <= after.Rank()
    && (event.Freeze? && event.frozen.Done? ==> after.Rank() >= 2 && event.frozen.value.commit == |e.base|)
    && (event.Collect? ==> event.over.commit == |e.base|)
    && (event.Collect? && event.collected.Done? ==> after.Collected? && event.collected.value.commit == |e.base| + 1)
  }

  lemma EditKeepsStage(e: Setup, stage: Stage, r: Repository, s: Repository)
    requires e.WellFormed() && At(e, stage, r) && RecordsRegular(e, s.worktree)
    requires s == r.(index := s.index, worktree := s.worktree)
    ensures At(e, stage, s)
  {
  }

  lemma EventStep(e: Setup, stage: Stage, r: Repository, event: Event, s: Repository) returns (after: Stage)
    requires e.WellFormed() && At(e, stage, r) && Valid(r) && Happens(e, r, event, s)
    requires event.Collect? ==> stage.Rank() >= 2 && event.over.commit == |e.base|
    ensures At(e, after, s) && Explained(e, event, stage, after)
  {
    hide FreezeRun, CollectRun, At;
    match event
    case Freeze(temp, o) =>
      after := FreezeProceeds(e, stage, r, temp);
      if o.Crashed? {
        after :| At(e, after, s) && stage.Rank() <= after.Rank();
      }
    case Collect(temp, over, o) =>
      after := CollectProceeds(e, stage, r, over, temp);
      if o.Crashed? {
        after :| At(e, after, s) && stage.Rank() <= after.Rank();
      }
    case Edit =>
      EditKeepsStage(e, stage, r, s);
      after := stage;
  }

  ghost predicate StagesOf(e: Setup, states: seq<Repository>, events: seq<Event>, stages: seq<Stage>)
    requires e.WellFormed()
  {
    && |stages| == |states| == |events| + 1
    && (forall i :: 0 <= i < |states| ==> At(e, stages[i], states[i]))
    && (forall i :: 0 <= i < |events| ==> Explained(e, events[i], stages[i], stages[i + 1]))
  }

  lemma StagesExtend(e: Setup, states: seq<Repository>, events: seq<Event>, stages: seq<Stage>, last: Stage)
    requires e.WellFormed() && |events| > 0 && |states| == |events| + 1
    requires var n := |events| - 1; StagesOf(e, states[..n + 1], events[..n], stages)
    requires At(e, last, states[|events|]) && Explained(e, events[|events| - 1], stages[|events| - 1], last)
    ensures StagesOf(e, states, events, stages + [last])
  {
    hide At;
    var n := |events| - 1;
    forall i | 0 <= i < |states| ensures At(e, (stages + [last])[i], states[i]) {
      if i <= n {
        assert states[..n + 1][i] == states[i];
      }
    }
    forall i | 0 <= i < |events| ensures Explained(e, events[i], (stages + [last])[i], (stages + [last])[i + 1]) {
      if i < n {
        assert events[..n][i] == events[i];
      }
    }
  }

  /** The stage the last event leads to. A collector's receipt was issued after tagging. */
  lemma LastStage(e: Setup, states: seq<Repository>, events: seq<Event>, stages: seq<Stage>) returns (last: Stage)
    requires e.WellFormed() && |events| > 0 && |states| == |events| + 1
    requires var n := |events| - 1; Linked(e, states, events, n) && StagesOf(e, states[..n + 1], events[..n], stages)
    ensures At(e, last, states[|events|]) && Explained(e, events[|events| - 1], stages[|events| - 1], last)
  {
    hide At, FreezeRun, CollectRun;
    var n := |events| - 1;
    if events[n].Collect? {
      var k :| 0 <= k < n && IsFreeze(events[k], events[n].over);
      assert Explained(e, events[..n][k], stages[k], stages[k + 1]);
      StagesAdvance(e, states[..n + 1], events[..n], stages, k + 1, n);
    }
    assert states[..n + 1][n] == states[n];
    last := EventStep(e, stages[n], states[n], events[n], states[n + 1]);
  }

  /** Every state of every history is at some stage, and no event goes back. */
  lemma {:induction false} Stages(e: Setup, states: seq<Repository>, events: seq<Event>) returns (stages: seq<Stage>)
    requires e.WellFormed() && History(e, states, events)
    ensures StagesOf(e, states, events, stages)
    decreases |events|
  {
    hide At, FreezeRun, CollectRun;
    if events == [] {
      stages := [Fresh];
    } else {
      var n := |events| - 1;
      var before, past := states[..n + 1], events[..n];
      forall i | 0 <= i < n ensures Linked(e, before, past, i) {
        assert Linked(e, states, events, i);
      }
      stages := Stages(e, before, past);
      assert before[n] == states[n];
      var last := LastStage(e, states, events, stages);
      StagesExtend(e, states, events, stages, last);
      stages := stages + [last];
    }
  }

  lemma {:induction false} StagesAdvance(e: Setup, states: seq<Repository>, events: seq<Event>, stages: seq<Stage>,
      i: nat, j: nat)
    requires e.WellFormed() && StagesOf(e, states, events, stages) && i <= j < |stages|
    ensures stages[i].Rank() <= stages[j].Rank()
    decreases j - i
  {
    if i < j {
      assert Explained(e, events[i], stages[i], stages[i + 1]);
      StagesAdvance(e, states, events, stages, i + 1, j);
    }
  }

  /** What two states of one history, the first no later than the second, have in common. */
  lemma HistoryOnlyGrows(e: Setup, a: Stage, r: Repository, b: Stage, s: Repository)
    requires e.WellFormed() && At(e, a, r) && At(e, b, s) && a.Rank() <= b.Rank()
    ensures e.base <= r.commits <= s.commits <= e.base + [e.SpecCommit(), e.ResultCommit()]
    ensures r.head == if |r.commits| == |e.base| then e.source else |r.commits| - 1
    ensures forall t <- r.tags :: TagOf(s, t) == TagOf(r, t)
    ensures b.Rank() >= 2 ==> TagOf(s, e.tag) == Some(|e.base|)
    ensures b.Collected? ==> s.head == |e.base| + 1 && s.head < |s.commits| && s.commits[s.head] == e.ResultCommit()
  {
  }

  function TagOf(r: Repository, t: string): Option<CommitId> {
    if t in r.tags then Some(r.tags[t]) else None
  }

  /** MAIN: whatever crashes, is retried or is edited, the branch stays a prefix of source,
      spec, result; each record is committed at most once and nothing else is ever added; no
      tag ever moves; and every receipt names, from then on, the tagged spec commit and the
      branch tip right above it. States i and j are any two of the history. */
  lemma RunSafety(e: Setup, states: seq<Repository>, events: seq<Event>, i: nat, j: nat)
    requires e.WellFormed() && History(e, states, events) && i <= j < |states|
    ensures e.base <= states[i].commits <= states[j].commits <= e.base + [e.SpecCommit(), e.ResultCommit()]
    ensures states[i].head == if |states[i].commits| == |e.base| then e.source else |states[i].commits| - 1
    ensures forall t <- states[i].tags :: TagOf(states[j], t) == TagOf(states[i], t)
    ensures i < j && events[i].Freeze? && events[i].frozen.Done? ==>
      TagOf(states[j], e.tag) == Some(events[i].frozen.value.commit)
    ensures i < j && events[i].Collect? && events[i].collected.Done? ==>
      && TagOf(states[j], e.tag) == Some(events[i].over.commit)
      && states[j].head == events[i].collected.value.commit < |states[j].commits|
      && states[j].commits[states[j].head].parents == [events[i].over.commit]
  {
    var stages := Stages(e, states, events);
    StagesAdvance(e, states, events, stages, i, j);
    HistoryOnlyGrows(e, stages[i], states[i], stages[j], states[j]);
    if i < j {
      assert Explained(e, events[i], stages[i], stages[i + 1]);
      StagesAdvance(e, states, events, stages, i + 1, j);
    }
  }
}
