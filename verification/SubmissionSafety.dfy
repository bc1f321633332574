/** What deliveries leave on the remote over any sequence of timeouts, crashes and retries. */
module SubmissionSafety {
  import opened Wrappers
  import opened SubmissionDelivery

  /** One client's calls, one after another, and what happens between them. */
  datatype Call =
    | Push(actions: seq<Action>, pushed: Outcome<bool, DeliveryError>)
    | Open(actions: seq<Action>, receipt: Outcome<Receipt, DeliveryError>)
    | Pause(actions: seq<Action>)

  ghost predicate Possible(job: Job, c: Call) {
    match c
    case Push(actions, o) => PushCall(job, Own(actions), o)
    case Open(actions, o) => OpenCall(job, Own(actions), o)
    case Pause(actions) => Own(actions) == []
  }

  function All(calls: seq<Call>): seq<Action> {
    if calls == [] then [] else All(calls[..|calls| - 1]) + calls[|calls| - 1].actions
  }

  ghost predicate Session(job: Job, s: Server, calls: seq<Call>) {
    Truthful(job, s, All(calls)) && forall c <- calls :: Possible(job, c)
  }

  // ----- Requests are sent only on the strength of an observation -----

  /** A push follows the observation that the branch is absent, a creation an empty listing. */
  ghost predicate Careful(own: seq<Action>) {
    forall i :: 0 <= i < |own| ==> CarefulAt(own, i)
  }

  ghost predicate CarefulAt(own: seq<Action>, i: nat)
    requires i < |own|
  {
    && (own[i].Sends? ==> i > 0 && own[i - 1] == Observes(None))
    && (own[i].Posts? ==> i > 0 && own[i - 1] == Lists([]))
  }

  lemma {:induction false} OwnJoins(a: seq<Action>, b: seq<Action>)
    ensures Own(a + b) == Own(a) + Own(b)
  {
    if b == [] {
      assert a + b == a;
    } else {
      assert (a + b)[..|a + b| - 1] == a + b[..|b| - 1];
      OwnJoins(a, b[..|b| - 1]);
    }
  }

  lemma CallIsCareful(job: Job, c: Call)
    requires Possible(job, c)
    ensures Careful(Own(c.actions))
  {
    hide Own, Judged;
  }

  lemma CarefulJoins(a: seq<Action>, b: seq<Action>)
    requires Careful(a) && Careful(b)
    ensures Careful(a + b)
  {
    forall i | 0 <= i < |a + b| ensures CarefulAt(a + b, i) {
      if i < |a| {
        assert CarefulAt(a, i);
      } else {
        assert CarefulAt(b, i - |a|);
      }
    }
  }

  /** MAIN: over any session, nothing is pushed or created on anything but the client's own
      latest observation that there is nothing yet; so never after it has seen another commit. */
  lemma {:induction false} RequestsFollowAbsence(job: Job, calls: seq<Call>)
    requires forall c <- calls :: Possible(job, c)
    ensures Careful(Own(All(calls)))
  {
    hide Careful, Possible, Own;
    if calls == [] {
      OwnOfNothing();
    } else {
      var before, c := calls[..|calls| - 1], calls[|calls| - 1];
      RequestsFollowAbsence(job, before);
      OwnJoins(All(before), c.actions);
      CallIsCareful(job, c);
      CarefulJoins(Own(All(before)), Own(c.actions));
    }
  }

  lemma OwnOfNothing()
    ensures Careful(Own([]))
  {
  }

  // ----- The branch -----

  ghost predicate OneWriter(actions: seq<Action>) {
    forall a <- actions :: a.Happens? ==> !a.weather.SomeoneMoves?
  }

  /** MAIN: with one writer the branch goes from absent to the exact commit at most once and
      never changes again, however many pushes are under way or land late. */
  lemma {:induction false} BranchMovesOnce(job: Job, s: Server, actions: seq<Action>, i: nat, j: nat)
    requires OneWriter(actions) && i <= j <= |actions|
    requires s.head.None? || s.head == Some(job.commit)
    ensures var before, after := Run(job, s, actions[..i]).head, Run(job, s, actions[..j]).head;
      (before.None? || before == Some(job.commit)) && (before.Some? ==> after == before)
    decreases j
  {
    hide After;
    if j > 0 {
      BranchMovesOnce(job, s, actions, if i < j then i else i - 1, j - 1);
      BranchMovesOnce(job, s, actions, j - 1, j - 1);
      assert actions[..j][..j - 1] == actions[..j - 1];
      assert actions[j - 1] in actions;
      HeadStep(job, Run(job, s, actions[..j - 1]), actions[j - 1]);
    }
  }

  lemma HeadStep(job: Job, r: Server, a: Action)
    requires a.Happens? ==> !a.weather.SomeoneMoves?
    requires r.head.None? || r.head == Some(job.commit)
    ensures After(job, r, a).head in {r.head, Some(job.commit)}
  {
  }

  /** MAIN: once a push has returned, the branch is at the commit for the rest of the session. */
  lemma PushReceiptsHold(job: Job, s: Server, calls: seq<Call>, k: nat)
    requires Session(job, s, calls) && OneWriter(All(calls))
    requires s.head.None? || s.head == Some(job.commit)
    requires k < |calls| && calls[k].Push? && calls[k].pushed.Done?
    ensures forall n :: |All(calls[..k + 1])| <= n <= |All(calls)| ==>
      Run(job, s, All(calls)[..n]).head == Some(job.commit)
  {
    hide Own, Run;
    var all := All(calls);
    var upto := All(calls[..k]);
    assert calls[..k + 1][..k] == calls[..k] && calls[k] in calls;
    AllSplits(calls, k + 1);
    var m := LastOwn(calls[k].actions);
    assert all[|upto| + m] == calls[k].actions[m] == Observes(Some(job.commit));
    assert True(job, Run(job, s, all[..|upto| + m]), all[|upto| + m]);
    forall n | |All(calls[..k + 1])| <= n <= |all| ensures Run(job, s, all[..n]).head == Some(job.commit) {
      BranchMovesOnce(job, s, all, |upto| + m, n);
    }
  }

  lemma {:induction false} AllSplits(calls: seq<Call>, k: nat)
    requires k <= |calls|
    ensures All(calls[..k]) <= All(calls)
  {
    if k < |calls| {
      assert calls[..|calls| - 1][..k] == calls[..k];
      AllSplits(calls[..|calls| - 1], k);
    } else {
      assert calls[..k] == calls;
    }
  }

  /** Where the client's last own action stands. */
  lemma {:induction false} LastOwn(actions: seq<Action>) returns (m: nat)
    requires Own(actions) != []
    ensures m < |actions| && actions[m] == Own(actions)[|Own(actions)| - 1]
  {
    m := |actions| - 1;
    if !IsOwn(actions[m]) {
      m := LastOwn(actions[..m]);
    }
  }

  // ----- Pull requests -----

  ghost predicate OneOpen(job: Job, pulls: seq<Pull>) {
    forall i, j :: 0 <= i < j < |pulls| && Matches(job, pulls[i]) && Matches(job, pulls[j]) ==>
      !(pulls[i].open && pulls[j].open)
  }

  function Closings(actions: seq<Action>): nat {
    if actions == [] then 0
    else
      var last := actions[|actions| - 1];
      Closings(actions[..|actions| - 1]) + if last.Happens? && last.weather.Closes? then 1 else 0
  }

  lemma {:induction false} MatchingLength(job: Job, head: Option<Sha>, other: Option<Sha>, pulls: seq<Pull>,
      more: seq<Pull>)
    requires |pulls| == |more| && forall i :: 0 <= i < |pulls| ==> (Matches(job, pulls[i]) <==> Matches(job, more[i]))
    ensures |Matching(job, head, pulls)| == |Matching(job, other, more)|
    ensures pulls == more ==> forall i :: 0 <= i < |Matching(job, head, pulls)| ==>
      Matching(job, head, pulls)[i].number == Matching(job, other, more)[i].number
  {
    if pulls != [] {
      MatchingLength(job, head, other, pulls[..|pulls| - 1], more[..|more| - 1]);
    }
  }

  /** One action, as far as pull requests go. */
  lemma PullStep(job: Job, s: Server, a: Action)
    requires OneOpen(job, s.pulls)
    ensures var t := After(job, s, a);
      && OneOpen(job, t.pulls)
      && |Listing(job, t)| <= |Listing(job, s)| + (if AnyOpen(job, t.pulls) && !AnyOpen(job, s.pulls) then 1 else 0)
      && (AnyOpen(job, s.pulls) && !AnyOpen(job, t.pulls) ==> a.Happens? && a.weather.Closes?)
  {
    hide Matching;
    var t := After(job, s, a);
    if a.Happens? && a.weather.CreateLands? && t.pulls != s.pulls {
      CreationIsTheOnlyOne(job, s);
    } else {
      MatchingLength(job, s.head, t.head, s.pulls, t.pulls);
      if AnyOpen(job, s.pulls) && t.pulls == s.pulls {
        assert AnyOpen(job, t.pulls);
      }
    }
  }

  lemma CreationIsTheOnlyOne(job: Job, s: Server)
    requires s.head.Some? && !AnyOpen(job, s.pulls) && OneOpen(job, s.pulls)
    ensures var pulls := s.pulls + [NewPull(job, s)];
      && OneOpen(job, pulls) && AnyOpen(job, pulls)
      && |Matching(job, s.head, pulls)| == |Matching(job, s.head, s.pulls)| + 1
  {
    var pulls := s.pulls + [NewPull(job, s)];
    assert pulls[..|s.pulls|] == s.pulls;
    assert pulls[|s.pulls|].open && Matches(job, pulls[|s.pulls|]);
  }

  /** MAIN: whatever happens, there are never two open pull requests for the branch and base,
      and as many in all as were closed on the way, plus one at most. */
  lemma {:induction false} NeverTwoOpen(job: Job, s: Server, actions: seq<Action>)
    requires Listing(job, s) == []
    ensures var t := Run(job, s, actions);
      && OneOpen(job, t.pulls)
      && |Listing(job, t)| <= Closings(actions) + if AnyOpen(job, t.pulls) then 1 else 0
  {
    if actions == [] {
      ListedIff(job, s.head, s.pulls);
      assert forall i :: 0 <= i < |s.pulls| ==> s.pulls[i] in s.pulls;
    } else {
      NeverTwoOpen(job, s, actions[..|actions| - 1]);
      PullStep(job, Run(job, s, actions[..|actions| - 1]), actions[|actions| - 1]);
    }
  }

  /** MAIN: what a delivery leaves behind, however it is interrupted, can be completed: with one
      writer and nobody closing, every state of a session is one from which a push, and then an
      opening, that are left alone return their receipts. */
  lemma {:induction false} SessionsStayDeliverable(job: Job, s: Server, actions: seq<Action>)
    requires (s.head.None? || s.head == Some(job.commit)) && Listing(job, s) == []
    requires OneWriter(actions) && Closings(actions) == 0
    ensures Deliverable(job, Run(job, s, actions))
  {
    hide After, Listing;
    if actions != [] {
      var before, last := actions[..|actions| - 1], actions[|actions| - 1];
      assert actions == before + [last];
      SessionsStayDeliverable(job, s, before);
      StaysDeliverable(job, Run(job, s, before), last);
    }
  }

  /** MAIN: a receipt is given for a listing of exactly one open pull request that has the exact
      lineage, title and body, as it was at one moment of the call. */
  lemma OpenReceiptsAreExact(job: Job, s: Server, calls: seq<Call>, k: nat) returns (n: nat)
    requires Session(job, s, calls)
    requires k < |calls| && calls[k].Open? && calls[k].receipt.Done?
    ensures |All(calls[..k])| <= n < |All(calls[..k + 1])| <= |All(calls)|
    ensures var listed := Listing(job, Run(job, s, All(calls)[..n]));
      |listed| == 1 && Exact(job, listed[0])
      && listed[0].number == calls[k].receipt.value.number && calls[k].receipt.value.headCommit == job.commit
  {
    hide Own, Exact, Run, Matching;
    var all := All(calls);
    var upto := All(calls[..k]);
    assert calls[..k + 1][..k] == calls[..k] && calls[k] in calls;
    AllSplits(calls, k + 1);
    var m := LastOwn(calls[k].actions);
    n := |upto| + m;
    assert all[n] == calls[k].actions[m];
    assert True(job, Run(job, s, all[..n]), all[n]);
  }

  /** MAIN: while nobody closes a pull request there is one at most, ever, and it stays the same;
      so a listing is never ambiguous and all receipts of a session name the same number. */
  lemma {:induction false} SamePull(job: Job, s: Server, actions: seq<Action>, i: nat, j: nat)
    requires Listing(job, s) == [] && i <= j <= |actions| && Closings(actions[..j]) == 0
    ensures var before, after := Listing(job, Run(job, s, actions[..i])), Listing(job, Run(job, s, actions[..j]));
      |after| <= 1 && (before != [] ==> |before| == |after| == 1 && before[0].number == after[0].number)
    decreases j
  {
    hide After, Matching, AnyOpen, OneOpen;
    NeverTwoOpen(job, s, actions[..j]);
    if i < j {
      assert actions[..j][..j - 1] == actions[..j - 1];
      SamePull(job, s, actions, i, j - 1);
      NeverTwoOpen(job, s, actions[..j - 1]);
      var r := Run(job, s, actions[..j - 1]);
      if Listing(job, r) != [] {
        StaysListed(job, r, actions[j - 1]);
      }
    }
  }

  /** An open pull request keeps others from being created. */
  lemma StaysListed(job: Job, r: Server, a: Action)
    requires AnyOpen(job, r.pulls) && !(a.Happens? && a.weather.Closes?)
    ensures var before, after := Listing(job, r), Listing(job, After(job, r, a));
      |after| == |before| && forall i :: 0 <= i < |before| ==> after[i].number == before[i].number
  {
    var t := After(job, r, a);
    assert t.pulls == r.pulls;
    hide Matching;
    MatchingLength(job, r.head, t.head, r.pulls, t.pulls);
  }
}
