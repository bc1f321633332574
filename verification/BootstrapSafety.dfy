/** What bootstrap acceptance leaves behind after any crashes and retries. */
module BootstrapSafety {
  import opened Wrappers
  import opened Text
  import opened GitModel
  import opened GitProcess
  import opened Bootstrap

  // ----- One call -----

  /** The commit is the operation's: one commit over the proposal that makes the managed part
      of the tree the manifest, with the project record among its changes. */
  ghost predicate IsAcceptance(r: Repository, q: Request, c: CommitId)
    requires Valid(r) && c < |r.commits|
  {
    && r.commits[c].parents == [q.proposal]
    && WithoutFinalNewlines(r.commits[c].message) == Message(q)
    && PROJECT_RECORD in ChangedPaths(r, c) && ChangedPaths(r, c) <= q.files.Keys
    && Holds(r.commits[c].tree, q.files)
  }

  /** MAIN: the requests let through: an Operation ID and the branch named after it, a SHA-256
      digest, and files that are the record of the program or lie below its directory, the project
      record among them. */
  lemma RequestIff(rules: Rules, q: Request)
    ensures ValidRequest(rules, q) <==>
      && rules.validOperation(q.operationId) && q.branch == "research/control/" + q.operationId
      && (exists hex :: IsSha256(q.digest, hex))
      && PROJECT_RECORD in q.files
      && forall p <- q.files :: rules.safeSpelling(p) && IsManagedPath(Split(p, '/'))
  {
    DigestIff(q.digest);
    forall p <- q.files ensures Managed(rules, p) <==> rules.safeSpelling(p) && IsManagedPath(Split(p, '/')) {
      ManagedIff(rules, p);
    }
    hide Managed, IsDigest, Split;
  }

  ghost predicate IsSha256(d: string, hex: string) {
    d == "sha256:" + hex && |hex| == 64 && forall i :: 0 <= i < 64 ==> hex[i] in HEX_DIGITS
  }

  const HEX_DIGITS := {'0', '1', '2', '3', '4', '5', '6', '7', '8', '9', 'a', 'b', 'c', 'd', 'e', 'f'}

  /** By the segments of a path. */
  ghost predicate IsManagedPath(segments: seq<string>) {
    segments == [".researchctl.toml"] || (|segments| > 1 && segments[0] == ".research")
  }

  lemma DigestIff(d: string)
    ensures IsDigest(d) <==> exists hex :: IsSha256(d, hex)
  {
    if IsDigest(d) {
      assert d == "sha256:" + d[7..];
      forall i | 0 <= i < 64 ensures d[7..][i] in HEX_DIGITS {
        assert d[7..][i] == d[7 + i];
      }
      assert IsSha256(d, d[7..]);
    }
    if hex :| IsSha256(d, hex) {
      forall i | 7 <= i < 71 ensures '0' <= d[i] <= '9' || 'a' <= d[i] <= 'f' {
        assert d[i] == hex[i - 7];
      }
    }
  }

  lemma ManagedIff(rules: Rules, p: Path)
    ensures Managed(rules, p) <==> rules.safeSpelling(p) && IsManagedPath(Split(p, '/'))
  {
    hide Split;
    IsSegment(p, ".researchctl.toml");
    LiesBelow(p, ".research");
    assert ".research" + ['/'] == ".research/";
  }

  lemma IsSegment(p: Path, name: string)
    requires '/' !in name
    ensures Split(p, '/') == [name] <==> p == name
  {
    hide *;
    SplitOfLast(name, '/');
    JoinedSplit(p, '/');
    JoinedSplit(name, '/');
  }

  lemma LiesBelow(p: Path, name: string)
    requires '/' !in name
    ensures |Split(p, '/')| > 1 && Split(p, '/')[0] == name <==> name + ['/'] <= p
  {
    hide *;
    SplitHead(p, name, '/');
    SplitOfLast(name, '/');
    IsSegment(p, name);
    OnlySegment(Split(p, '/'), name);
    Longer(p, name);
  }

  lemma OnlySegment(segments: seq<string>, name: string)
    requires segments != []
    ensures segments[0] == name ==> (segments == [name] <==> |segments| == 1)
  {
  }

  lemma Longer(p: Path, name: string)
    ensures name + ['/'] <= p ==> p != name
  {
  }

  /** What Git lists below the two managed names, by the first segment. */
  lemma ControlledIff(p: Path)
    ensures Controlled(p) <==> Split(p, '/')[0] in {".research", ".researchctl.toml"}
  {
    SplitHead(p, ".research", '/');
    SplitHead(p, ".researchctl.toml", '/');
    hide Split;
  }

  /** MAIN: a commit is verified exactly when it is the operation's and the worktree is clean. */
  lemma VerifiedIff(rules: Rules, r: Repository, q: Request, c: CommitId, changed: bool)
    requires Valid(r) && c < |r.commits| && ValidRequest(rules, q)
    ensures var v := VerifyCommit(rules, r, q, c, changed);
      && (v.Done? <==> IsAcceptance(r, q, c) && Status(r) == {})
      && (v.Done? ==> v.value == Receipt(c, ChangedPaths(r, c), changed))
  {
    hide ChangedPaths, Status, WithoutFinalNewlines, Message, Valid;
    var t := r.commits[c].tree;
    ManifestIsControlled(rules, q);
    if Holds(t, q.files) {
      assert ControlledPaths(rules, t) == Done(q.files.Keys) by {
        assert forall p :: p in t && Controlled(p) ==> Get(t, p).Some?;
        assert (set p | p in t && Controlled(p)) == q.files.Keys;
      }
    }
  }

  lemma ManifestIsControlled(rules: Rules, q: Request)
    requires ValidRequest(rules, q)
    ensures forall p <- q.files :: Controlled(p) && Managed(rules, p)
  {
  }

  /** MAIN: what can be observed can be committed again: the same receipt, and nothing changes. */
  lemma ObservedIsCommitted(rules: Rules, r: Repository, q: Request)
    requires Valid(r) && ObserveRun(rules, r, q).Done? && ObserveRun(rules, r, q).value.Some?
    ensures CommitRun(rules, r, q) == Run([r], Done(ObserveRun(rules, r, q).value.value))
    ensures IsAcceptance(r, q, r.head) && ObserveRun(rules, r, q).value.value.commit == r.head
  {
    hide VerifyCommit, ValidRequest, StatusWithin, IsAcceptance;
    VerifiedIff(rules, r, q, r.head, false);
  }

  /** MAIN: an observation finds nothing exactly at the proposal, and a receipt exactly for the
      operation's commit with nothing left to commit; it is refused in every other case. */
  lemma ObservedIff(rules: Rules, r: Repository, q: Request)
    requires Valid(r)
    ensures var o := ObserveRun(rules, r, q);
      && (o == Done(None) <==>
          ValidRequest(rules, q) && r.branch == q.branch && Status(r) <= q.files.Keys && r.head == q.proposal)
      && (o.Done? && o.value.Some? <==>
          && ValidRequest(rules, q) && r.branch == q.branch && Status(r) == {}
          && r.head != q.proposal && IsAcceptance(r, q, r.head))
      && (o.Done? && o.value.Some? ==> o.value.value == Receipt(r.head, ChangedPaths(r, r.head), false))
  {
    hide VerifyCommit, ValidRequest, IsAcceptance, ChangedPaths, Status;
    if ValidRequest(rules, q) {
      VerifiedIff(rules, r, q, r.head, false);
    }
  }

  lemma AddedIsWorktree(r: Repository, paths: set<Path>)
    requires Valid(r) && Status(r) <= paths && AddAll(r, paths).Some?
    ensures AddAll(r, paths).value.index == r.worktree
  {
    forall p ensures Get(AddAll(r, paths).value.index, p) == Get(r.worktree, p) {
      if p !in paths {
        assert p !in Differing(r.index, r.worktree);
      }
    }
    SameFiles(AddAll(r, paths).value.index, r.worktree);
  }

  /** The call commits: the branch is at the proposal, only manifest paths changed, the project
      record among them, and the worktree is not what the proposal holds already. */
  predicate Moves(rules: Rules, r: Repository, q: Request)
    requires Valid(r)
  {
    && ValidRequest(rules, q) && r.branch == q.branch && r.head == q.proposal
    && PROJECT_RECORD in Status(r) && Status(r) <= q.files.Keys
    && (forall p <- q.files :: p in r.worktree || p in r.index)
    && r.worktree != HeadTree(r)
  }

  function Moved(r: Repository, q: Request): (s: Repository)
    requires Valid(r)
    ensures Valid(s)
  {
    CommitAdded(r.(index := r.worktree), q)
  }

  /** A call moves the branch exactly in those states, and then by the whole worktree. */
  lemma MovesIff(rules: Rules, r: Repository, q: Request)
    requires Valid(r)
    ensures var run := CommitRun(rules, r, q);
      && (forall s <- run.trail :: s == r || s == r.(index := r.worktree) || (Moves(rules, r, q) && s == Moved(r, q)))
      && (run.End().head != r.head <==> Moves(rules, r, q))
      && (Moves(rules, r, q) ==>
        && run.End() == Moved(r, q)
        && run.outcome == VerifyCommit(rules, Moved(r, q), q, |r.commits|, true))
  {
    hide VerifyCommit, ValidRequest, Status, Message;
    if Status(r) <= q.files.Keys && AddAll(r, q.files.Keys).Some? {
      AddedIsWorktree(r, q.files.Keys);
      assert AddAll(r, q.files.Keys).value == r.(index := r.worktree);
    }
  }

  /** MAIN: a call over the proposal returns a receipt exactly when it commits, the worktree
      holds the manifest and the project record differs from the proposal's; in every other
      state that it commits from, it is refused with the branch moved. */
  lemma AcceptedIff(rules: Rules, r: Repository, q: Request)
    requires Valid(r) && r.head == q.proposal
    ensures CommitRun(rules, r, q).outcome.Done? <==>
      && Moves(rules, r, q) && Holds(r.worktree, q.files)
      && Get(r.worktree, PROJECT_RECORD) != Get(HeadTree(r), PROJECT_RECORD)
    ensures CommitRun(rules, r, q).outcome.Done? ==>
      && CommitRun(rules, r, q).outcome.value.commit == |r.commits|
      && IsAcceptance(Moved(r, q), q, |r.commits|)
  {
    MovesIff(rules, r, q);
    if Moves(rules, r, q) {
      VerifiedIff(rules, Moved(r, q), q, |r.commits|, true);
      MovedCommit(rules, r, q);
    }
  }

  /** MAIN: so a call is refused and has yet moved the branch exactly when it commits a worktree
      that does not hold the manifest, or whose project record is the proposal's. */
  lemma MovesWhenRefused(rules: Rules, r: Repository, q: Request)
    requires Valid(r)
    ensures var run := CommitRun(rules, r, q);
      run.outcome.Refused? && run.End().head != r.head <==>
        && Moves(rules, r, q)
        && !(Holds(r.worktree, q.files)
             && Get(r.worktree, PROJECT_RECORD) != Get(HeadTree(r), PROJECT_RECORD))
  {
    hide Holds, CommitRun, Moves, ValidRequest;
    MovesIff(rules, r, q);
    if r.head == q.proposal {
      AcceptedIff(rules, r, q);
      NotCrashed(rules, r, q);
    } else {
      MovesFromProposal(rules, r, q);
    }
  }

  lemma NotCrashed(rules: Rules, r: Repository, q: Request)
    requires Valid(r)
    ensures !CommitRun(rules, r, q).outcome.Crashed?
  {
    hide VerifyCommit, ValidRequest, StatusWithin, AddAll;
  }

  lemma MovesFromProposal(rules: Rules, r: Repository, q: Request)
    requires Valid(r) && r.head != q.proposal
    ensures !Moves(rules, r, q)
  {
  }

  /** A proposal with one empty commit, and manifest files that all have a character too many. */
  function Lengthened(q: Request): (r: Repository)
    ensures Valid(r)
  {
    Repository([Commit([], "proposal\n", map[])], q.branch, 0, map[], map[],
               map p | p in q.files :: File(Regular, q.files[p] + "x"))
  }

  /** A concrete case: manifest files with other content than the manifest says. The call is
      refused, and the branch now ends in the commit of those files. */
  lemma OtherContentMovesBranch(rules: Rules, q: Request)
    requires ValidRequest(rules, q) && q.proposal == 0
    ensures var run := CommitRun(rules, Lengthened(q), q);
      && run.outcome.Refused? && run.End().head == 1
      && run.End().commits == Lengthened(q).commits + [Commit([0], Message(q) + "\n", Lengthened(q).worktree)]
  {
    var r := Lengthened(q);
    assert PROJECT_RECORD in Differing(r.index, r.worktree);
    assert Differing(HeadTree(r), r.index) == {};
    assert Status(r) <= q.files.Keys;
    assert Get(r.worktree, PROJECT_RECORD) != Get(HeadTree(r), PROJECT_RECORD);
    assert Moves(rules, r, q);
    assert Get(r.worktree, PROJECT_RECORD) != Some(File(Regular, q.files[PROJECT_RECORD]));
    assert !Holds(r.worktree, q.files);
    hide Moves, Holds, ValidRequest, Message;
    MovesIff(rules, r, q);
    MovesWhenRefused(rules, r, q);
  }

  /** What the commit just made changes and holds. */
  lemma MovedCommit(rules: Rules, r: Repository, q: Request)
    requires Valid(r) && Moves(rules, r, q)
    ensures var s := Moved(r, q);
      && s.commits[s.head] == Commit([q.proposal], Message(q) + "\n", r.worktree)
      && WithoutFinalNewlines(s.commits[s.head].message) == Message(q)
      && ChangedPaths(s, s.head) == Differing(HeadTree(r), r.worktree) <= q.files.Keys
      && Status(s) == {}
  {
    var s := Moved(r, q);
    MessageRoundTrip(Message(q));
    assert s.commits[q.proposal] == r.commits[q.proposal];
    forall p | p in Differing(HeadTree(r), r.worktree) ensures p in Status(r) {
    }
  }

  /** MAIN: a receipt can be had again: the next call returns the same commit without a new one. */
  lemma ReceiptsRepeat(rules: Rules, r: Repository, q: Request)
    requires Valid(r) && CommitRun(rules, r, q).outcome.Done?
    ensures var run, receipt := CommitRun(rules, r, q), CommitRun(rules, r, q).outcome.value;
      && Valid(run.End()) && run.End().head == receipt.commit
      && CommitRun(rules, run.End(), q) == Run([run.End()], Done(receipt.(changed := false)))
      && ObserveRun(rules, run.End(), q) == Done(Some(receipt.(changed := false)))
  {
    hide VerifyCommit, ValidRequest, IsAcceptance, Message, AddAll;
    MovesIff(rules, r, q);
    var s := CommitRun(rules, r, q).End();
    if r.head == q.proposal {
      VerifiedIff(rules, s, q, s.head, true);
    } else {
      VerifiedIff(rules, s, q, s.head, false);
    }
    VerifiedIff(rules, s, q, s.head, false);
    hide Moves, Moved;
    assert Status(s) == {} && s.head != q.proposal;
  }

  // ----- Histories -----

  /** A call that ends or dies anywhere, or an edit of worktree and index by anyone. */
  datatype Event = Call(o: Outcome<Receipt, Error>) | Edit

  ghost predicate Linked(rules: Rules, q: Request, r: Repository, event: Event, s: Repository) {
    && Valid(r)
    && match event
       case Call(o) => CommitRun(rules, r, q).Explains(o, s)
       case Edit => s == r.(index := s.index, worktree := s.worktree)
  }

  ghost predicate History(rules: Rules, q: Request, states: seq<Repository>, events: seq<Event>) {
    && |states| == |events| + 1
    && Valid(states[0]) && states[0].head == q.proposal
    && forall i :: 0 <= i < |events| ==> Linked(rules, q, states[i], events[i], states[i + 1])
  }

  /** Nothing of the operation is in the store yet. */
  ghost predicate Unborn(start: Repository, r: Repository) {
    r == start.(index := r.index, worktree := r.worktree)
  }

  /** One commit over the proposal has been made, and it is never replaced. */
  ghost predicate Born(q: Request, start: Repository, r: Repository) {
    && |r.commits| == |start.commits| + 1 && start.commits <= r.commits
    && r.commits[|start.commits|].parents == [q.proposal]
    && r.commits[|start.commits|].message == Message(q) + "\n"
    && r == start.(commits := r.commits, head := |start.commits|, index := r.index, worktree := r.worktree)
  }

  lemma BornIsValid(q: Request, start: Repository, r: Repository)
    requires Valid(start) && start.head == q.proposal && (Unborn(start, r) || Born(q, start, r))
    ensures Valid(r)
  {
    if Born(q, start, r) {
      forall c, i | 0 <= c < |r.commits| && 0 <= i < |r.commits[c].parents| ensures r.commits[c].parents[i] < c {
        if c < |start.commits| {
          assert r.commits[c] == start.commits[c];
        }
      }
    }
  }

  /** One event: a commit is made at most once, and every receipt names it. */
  lemma EventStep(rules: Rules, q: Request, start: Repository, r: Repository, event: Event, s: Repository)
    requires Valid(start) && start.head == q.proposal && Linked(rules, q, r, event, s)
    requires Unborn(start, r) || Born(q, start, r)
    ensures Unborn(start, s) || Born(q, start, s)
    ensures r.commits <= s.commits
    ensures event.Call? && event.o.Done? ==>
      Born(q, start, s) && event.o.value.commit == s.head && Valid(s) && IsAcceptance(s, q, s.head)
  {
    if event.Call? {
      assert Moves(rules, r, q) ==> r.head == q.proposal;
      hide CommitRun, Moves, IsAcceptance, Message, Valid, Status, HeadTree, Moved;
      MovesIff(rules, r, q);
      CallReceipts(rules, r, q);
      assert s in CommitRun(rules, r, q).trail;
      if Moves(rules, r, q) && s == Moved(r, q) {
        MovedIsBorn(q, start, r);
      }
    }
  }

  lemma MovedIsBorn(q: Request, start: Repository, r: Repository)
    requires Valid(start) && Valid(r) && start.head == q.proposal && Unborn(start, r)
    ensures Born(q, start, Moved(r, q)) && r.commits <= Moved(r, q).commits
  {
    hide Message, Valid;
  }

  /** A receipt names the tip, which is the operation's commit. */
  lemma CallReceipts(rules: Rules, r: Repository, q: Request)
    requires Valid(r)
    ensures var run := CommitRun(rules, r, q);
      run.outcome.Done? ==>
        && Valid(run.End()) && IsAcceptance(run.End(), q, run.End().head)
        && run.outcome.value.commit == run.End().head != q.proposal
  {
    hide VerifyCommit, ValidRequest, IsAcceptance, Message, AddAll, Holds;
    if CommitRun(rules, r, q).outcome.Done? {
      if r.head == q.proposal {
        AcceptedIff(rules, r, q);
        MovesIff(rules, r, q);
      } else {
        VerifiedIff(rules, r, q, r.head, false);
      }
    }
  }

  lemma {:induction false} UnbornOrBorn(rules: Rules, q: Request, states: seq<Repository>, events: seq<Event>,
                                        i: nat, j: nat)
    requires History(rules, q, states, events) && i <= j < |states|
    ensures Unborn(states[0], states[j]) || Born(q, states[0], states[j])
    ensures states[i].commits <= states[j].commits
    decreases j
  {
    if j > 0 {
      UnbornOrBorn(rules, q, states, events, if i == j then i - 1 else i, j - 1);
      EventStep(rules, q, states[0], states[j - 1], events[j - 1], states[j]);
    }
  }

  /** MAIN: under any calls, crashes, retries and edits the branch is the proposal, or the
      proposal and one commit that never changes again; every receipt ever returned names that
      commit, and its managed tree is the manifest. */
  lemma AcceptedOnce(rules: Rules, q: Request, states: seq<Repository>, events: seq<Event>, i: nat, j: nat)
    requires History(rules, q, states, events) && i <= j < |states|
    ensures Unborn(states[0], states[j]) || Born(q, states[0], states[j])
    ensures Valid(states[j]) && states[i].commits <= states[j].commits
    ensures i < j && events[i].Call? && events[i].o.Done? ==>
      && Born(q, states[0], states[j])
      && events[i].o.value.commit == states[j].head
      && IsAcceptance(states[j], q, states[j].head)
  {
    hide IsAcceptance, Message, Holds;
    UnbornOrBorn(rules, q, states, events, i, j);
    BornIsValid(q, states[0], states[j]);
    if i < j {
      UnbornOrBorn(rules, q, states, events, i, i);
      EventStep(rules, q, states[0], states[i], events[i], states[i + 1]);
      UnbornOrBorn(rules, q, states, events, i + 1, j);
      if events[i].Call? && events[i].o.Done? {
        assert states[j].commits == states[i + 1].commits;
        AcceptanceStays(states[i + 1], states[j], q);
      }
    }
  }

  lemma AcceptanceStays(r: Repository, s: Repository, q: Request)
    requires Valid(r) && Valid(s) && r.commits == s.commits && r.head == s.head && IsAcceptance(r, q, r.head)
    ensures IsAcceptance(s, q, s.head)
  {
    hide Valid, Message, WithoutFinalNewlines;
  }

  // ----- Recovery -----

  /** What the operation itself does between crashes: it writes manifest files one by one, and
      calls once all of them are there. */
  ghost predicate OwnStep(q: Request, r: Repository, event: Event, s: Repository) {
    match event
    case Call(_) => Holds(r.worktree, q.files)
    case Edit =>
      && s.index == r.index
      && forall p ::
           || Get(s.worktree, p) == Get(r.worktree, p)
           || (p in q.files && Get(s.worktree, p) == Some(File(Regular, q.files[p])))
  }

  /** Nothing outside the manifest has been touched, and the proposal is not accepted yet. */
  ghost predicate Prepared(rules: Rules, q: Request, r: Repository)
    requires Valid(r)
  {
    && ValidRequest(rules, q) && r.branch == q.branch && Status(r) <= q.files.Keys
    && (r.head == q.proposal ==> Get(HeadTree(r), PROJECT_RECORD) != Some(File(Regular, q.files[PROJECT_RECORD])))
    && (r.head != q.proposal ==> IsAcceptance(r, q, r.head) && Status(r) == {})
  }

  lemma OwnEditStaysPrepared(rules: Rules, q: Request, r: Repository, s: Repository)
    requires Linked(rules, q, r, Edit, s) && OwnStep(q, r, Edit, s) && Prepared(rules, q, r)
    ensures Valid(s) && Prepared(rules, q, s)
  {
    hide ValidRequest, Message, WithoutFinalNewlines;
    assert Valid(s);
    forall p | p !in q.files ensures p !in Status(s) {
      assert Get(s.worktree, p) == Get(r.worktree, p) && p !in Status(r);
    }
    if r.head != q.proposal {
      forall p ensures Get(s.worktree, p) == Get(r.worktree, p) {
        assert p !in Status(r);
        assert Get(r.worktree, p) == Get(HeadTree(r), p);
      }
      SameFiles(s.worktree, r.worktree);
      assert s == r;
    }
  }

  lemma OwnCallStaysPrepared(rules: Rules, q: Request, r: Repository, event: Event, s: Repository)
    requires event.Call? && Linked(rules, q, r, event, s) && OwnStep(q, r, event, s) && Prepared(rules, q, r)
    ensures Valid(s) && Prepared(rules, q, s)
  {
    hide ValidRequest, Message, WithoutFinalNewlines, CommitRun, VerifyCommit, Valid;
    MovesIff(rules, r, q);
    assert s in CommitRun(rules, r, q).trail;
    if Moves(rules, r, q) && s == Moved(r, q) {
      MovedCommit(rules, r, q);
      hide Moves, Status, Differing, Holds;
      assert IsAcceptance(s, q, s.head);
    } else if s == r.(index := r.worktree) {
      IndexedStaysPrepared(rules, q, r);
    }
  }

  lemma IndexedStaysPrepared(rules: Rules, q: Request, r: Repository)
    requires Valid(r) && Prepared(rules, q, r)
    ensures Valid(r.(index := r.worktree)) && Prepared(rules, q, r.(index := r.worktree))
  {
    IndexedStatus(r);
    hide ValidRequest, Message, WithoutFinalNewlines, Status, Valid, Holds;
    if r.head != q.proposal {
      AcceptanceStays(r, r.(index := r.worktree), q);
    }
  }

  lemma IndexedStatus(r: Repository)
    requires Valid(r)
    ensures Valid(r.(index := r.worktree)) && Status(r.(index := r.worktree)) <= Status(r)
  {
    forall p | p in Status(r.(index := r.worktree)) ensures p in Status(r) {
    }
  }

  lemma {:induction false} StaysPrepared(rules: Rules, q: Request, states: seq<Repository>, events: seq<Event>, i: nat)
    requires History(rules, q, states, events) && Prepared(rules, q, states[0]) && i <= |events|
    requires forall k :: 0 <= k < |events| ==> OwnStep(q, states[k], events[k], states[k + 1])
    ensures Valid(states[i]) && Prepared(rules, q, states[i])
  {
    hide Prepared, OwnStep, Valid;
    if i > 0 {
      StaysPrepared(rules, q, states, events, i - 1);
      assert Linked(rules, q, states[i - 1], events[i - 1], states[i]);
      if events[i - 1].Edit? {
        OwnEditStaysPrepared(rules, q, states[i - 1], states[i]);
      } else {
        OwnCallStaysPrepared(rules, q, states[i - 1], events[i - 1], states[i]);
      }
    }
  }

  lemma PreparedCompletes(rules: Rules, q: Request, r: Repository)
    requires Valid(r) && Prepared(rules, q, r) && Holds(r.worktree, q.files)
    ensures CommitRun(rules, r, q).outcome.Done?
    ensures CommitRun(rules, r, q).outcome.value.commit == if r.head == q.proposal then |r.commits| else r.head
  {
    if r.head == q.proposal {
      assert PROJECT_RECORD in q.files;
      assert Get(r.worktree, PROJECT_RECORD) == Some(File(Regular, q.files[PROJECT_RECORD]));
      forall p <- q.files ensures p in r.worktree {
        assert Get(r.worktree, p).Some?;
      }
      hide ValidRequest, Message, CommitRun, Holds;
      assert Moves(rules, r, q);
      AcceptedIff(rules, r, q);
    } else {
      VerifiedIff(rules, r, q, r.head, false);
    }
  }

  /** MAIN: whenever the manifest is in the worktree, a call that is left alone returns the
      receipt of the one commit, however many earlier attempts died. */
  lemma RecoveryCompletes(rules: Rules, q: Request, states: seq<Repository>, events: seq<Event>)
    requires History(rules, q, states, events) && Prepared(rules, q, states[0])
    requires forall i :: 0 <= i < |events| ==> OwnStep(q, states[i], events[i], states[i + 1])
    requires Holds(states[|events|].worktree, q.files)
    ensures Valid(states[|events|])
    ensures var run := CommitRun(rules, states[|events|], q);
      run.outcome.Done? && run.outcome.value.commit == |states[0].commits| && Born(q, states[0], run.End())
  {
    hide CommitRun, Prepared, Holds, OwnStep, Message, IsAcceptance;
    var n := |events|;
    StaysPrepared(rules, q, states, events, n);
    UnbornOrBorn(rules, q, states, events, 0, n);
    PreparedCompletes(rules, q, states[n]);
    var run := CommitRun(rules, states[n], q);
    EventStep(rules, q, states[0], states[n], Call(run.outcome), run.End());
  }
}
