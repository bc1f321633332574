/** Which merge of the protected branch brought a subject in, and the decision recorded in it
    (src/researchctl/adapters/git_accepted_merge.py). */
module AcceptedMerge {
  import opened Wrappers
  import opened GitModel

  /** `_subject_newly_incorporated`. */
  predicate Incorporates(commits: seq<Commit>, merge: CommitId, subject: CommitId, base: CommitId)
    requires WellParented(commits) && merge < |commits| && subject < |commits|
  {
    var parents := commits[merge].parents;
    && IsAncestor(commits, base, subject)
    && (merge == subject
        || (|parents| == 2
            && IsAncestor(commits, subject, merge)
            && !IsAncestor(commits, subject, parents[0])))
  }

  /** Commits of a first-parent history, oldest first. */
  ghost predicate FirstParents(commits: seq<Commit>, chain: seq<CommitId>) {
    && (forall i :: 0 <= i < |chain| ==> chain[i] < |commits|)
    && forall i :: 0 < i < |chain| ==> commits[chain[i]].parents != [] && commits[chain[i]].parents[0] == chain[i - 1]
  }

  lemma {:induction false} AncestorIsOlder(commits: seq<Commit>, a: CommitId, d: CommitId)
    requires WellParented(commits) && d < |commits| && IsAncestor(commits, a, d)
    ensures a <= d
    decreases d
  {
    if a != d {
      var i :| 0 <= i < |commits[d].parents| && IsAncestor(commits, a, commits[d].parents[i]);
      AncestorIsOlder(commits, a, commits[d].parents[i]);
    }
  }

  /** Reachability is passed down a first-parent history. */
  lemma {:induction false} ReachedStaysReached(commits: seq<Commit>, chain: seq<CommitId>, subject: CommitId,
      i: nat, j: nat)
    requires WellParented(commits) && FirstParents(commits, chain) && i <= j < |chain|
    requires IsAncestor(commits, subject, chain[i])
    ensures IsAncestor(commits, subject, chain[j])
  {
    if i < j {
      ReachedStaysReached(commits, chain, subject, i, j - 1);
      assert IsAncestor(commits, subject, commits[chain[j]].parents[0]);
    }
  }

  lemma IncorporatedIsReached(commits: seq<Commit>, merge: CommitId, subject: CommitId, base: CommitId)
    requires WellParented(commits) && merge < |commits| && subject < |commits| &&
      Incorporates(commits, merge, subject, base)
    ensures IsAncestor(commits, subject, merge)
  {
  }

  /** MAIN: on a first-parent history at most one commit incorporates a subject. */
  lemma AtMostOneIncorporates(commits: seq<Commit>, chain: seq<CommitId>, subject: CommitId, base: CommitId, i: nat,
                              j: nat)
    requires WellParented(commits) && FirstParents(commits, chain) && subject < |commits|
    requires i < |chain| && j < |chain|
    requires Incorporates(commits, chain[i], subject, base) && Incorporates(commits, chain[j], subject, base)
    ensures i == j
  {
    if i < j {
      NotLater(commits, chain, subject, base, i, j);
    } else if j < i {
      NotLater(commits, chain, subject, base, j, i);
    }
  }

  lemma NotLater(commits: seq<Commit>, chain: seq<CommitId>, subject: CommitId, base: CommitId, i: nat, j: nat)
    requires WellParented(commits) && FirstParents(commits, chain) && subject < |commits| && i < j < |chain|
    requires IsAncestor(commits, subject, chain[i])
    ensures !Incorporates(commits, chain[j], subject, base)
  {
    ReachedStaysReached(commits, chain, subject, i, j - 1);
    AncestorIsOlder(commits, subject, chain[j - 1]);
    assert commits[chain[j]].parents[0] == chain[j - 1];
  }

  /** The first commit of a history that reaches the subject. */
  lemma {:induction false} FirstReaching(commits: seq<Commit>, chain: seq<CommitId>, subject: CommitId,
      n: nat) returns (k: nat)
    requires WellParented(commits) && FirstParents(commits, chain) && n < |chain|
    requires IsAncestor(commits, subject, chain[n])
    ensures k <= n && IsAncestor(commits, subject, chain[k])
    ensures k > 0 ==> !IsAncestor(commits, subject, chain[k - 1])
  {
    if n > 0 && IsAncestor(commits, subject, chain[n - 1]) {
      k := FirstReaching(commits, chain, subject, n - 1);
    } else {
      k := n;
    }
  }

  ghost predicate SomeIncorporates(commits: seq<Commit>, chain: seq<CommitId>, subject: CommitId, base: CommitId)
    requires WellParented(commits) && FirstParents(commits, chain) && subject < |commits|
  {
    exists i :: 0 <= i < |chain| && Incorporates(commits, chain[i], subject, base)
  }

  /** The commit that first reaches the subject is neither the subject nor a merge of two. */
  ghost predicate Octopus(commits: seq<Commit>, chain: seq<CommitId>, subject: CommitId)
    requires WellParented(commits) && FirstParents(commits, chain)
  {
    exists k :: 0 < k < |chain| && Enters(commits, chain, subject, k) && chain[k] != subject &&
      |commits[chain[k]].parents| > 2
  }

  ghost predicate Enters(commits: seq<Commit>, chain: seq<CommitId>, subject: CommitId, k: nat)
    requires WellParented(commits) && FirstParents(commits, chain) && 0 < k < |chain|
  {
    IsAncestor(commits, subject, chain[k]) && !IsAncestor(commits, subject, chain[k - 1])
  }

  lemma {:induction false} EntersOnce(commits: seq<Commit>, chain: seq<CommitId>, subject: CommitId, j: nat, k: nat)
    requires WellParented(commits) && FirstParents(commits, chain) && 0 < j < |chain| && 0 < k < |chain|
    requires Enters(commits, chain, subject, j) && Enters(commits, chain, subject, k)
    ensures j == k
  {
    if j < k {
      ReachedStaysReached(commits, chain, subject, j, k - 1);
    } else if k < j {
      ReachedStaysReached(commits, chain, subject, k, j - 1);
    }
  }

  /** MAIN: for a history whose oldest commit does not have the subject, a commit incorporates it
      exactly when the subject is reachable from the head, the base is an ancestor of the
      subject, and the subject does not come in through a merge of three or more. */
  lemma IncorporatedIff(commits: seq<Commit>, chain: seq<CommitId>, subject: CommitId, base: CommitId)
    requires WellParented(commits) && FirstParents(commits, chain) && subject < |commits| && chain != []
    requires !IsAncestor(commits, subject, chain[0])
    ensures SomeIncorporates(commits, chain, subject, base) <==>
      && IsAncestor(commits, base, subject)
      && IsAncestor(commits, subject, chain[|chain| - 1])
      && !Octopus(commits, chain, subject)
  {
    hide IsAncestor, Incorporates;
    if i :| 0 <= i < |chain| && Incorporates(commits, chain[i], subject, base) {
      IncorporatedIsReached(commits, chain[i], subject, base);
      ReachedStaysReached(commits, chain, subject, i, |chain| - 1);
      assert i > 0;
      IncorporatingMeans(commits, chain, subject, base, i);
      forall k | 0 < k < |chain| && Enters(commits, chain, subject, k) ensures k == i {
        EntersOnce(commits, chain, subject, i, k);
      }
    } else if IsAncestor(commits, subject, chain[|chain| - 1]) {
      var k := FirstReaching(commits, chain, subject, |chain| - 1);
      assert k > 0 && Enters(commits, chain, subject, k);
      IncorporatingMeans(commits, chain, subject, base, k);
    }
    if SomeIncorporates(commits, chain, subject, base) {
      var i :| 0 <= i < |chain| && Incorporates(commits, chain[i], subject, base);
      BaseOfIncorporated(commits, chain[i], subject, base);
    }
  }

  lemma BaseOfIncorporated(commits: seq<Commit>, merge: CommitId, subject: CommitId, base: CommitId)
    requires WellParented(commits) && merge < |commits| && subject < |commits| &&
      Incorporates(commits, merge, subject, base)
    ensures IsAncestor(commits, base, subject)
  {
  }

  /** Inside a history, incorporating is being where the subject enters, by fewer than three. */
  lemma IncorporatingMeans(commits: seq<Commit>, chain: seq<CommitId>, subject: CommitId, base: CommitId, k: nat)
    requires WellParented(commits) && FirstParents(commits, chain) && subject < |commits| && 0 < k < |chain|
    ensures Incorporates(commits, chain[k], subject, base) <==>
      && IsAncestor(commits, base, subject) && Enters(commits, chain, subject, k)
      && (chain[k] == subject || |commits[chain[k]].parents| <= 2)
  {
    var c := chain[k];
    assert commits[c].parents[0] == chain[k - 1] < c;
    if c == subject && IsAncestor(commits, subject, chain[k - 1]) {
      AncestorIsOlder(commits, subject, chain[k - 1]);
    }
    if c != subject && Enters(commits, chain, subject, k) {
      var i :| 0 <= i < |commits[c].parents| && IsAncestor(commits, subject, commits[c].parents[i]);
      assert i > 0;
    }
  }

  // ----- Away from the first-parent history -----

  /** At most one commit that a head reaches incorporates the subject. */
  ghost predicate AtMostOneBelow(commits: seq<Commit>, head: CommitId, subject: CommitId, base: CommitId)
    requires WellParented(commits) && head < |commits| && subject < |commits|
  {
    forall m, n ::
      && 0 <= m < |commits| && IsAncestor(commits, m, head) && Incorporates(commits, m, subject, base)
      && 0 <= n < |commits| && IsAncestor(commits, n, head) && Incorporates(commits, n, subject, base)
      ==> m == n
  }

  /** Whichever merge of two below the head reaches the subject from above reaches it by its
      first parent. */
  ghost predicate ReachedByFirstParents(commits: seq<Commit>, head: CommitId, subject: CommitId)
    requires WellParented(commits) && head < |commits|
  {
    forall m ::
      && 0 <= m < |commits| && IsAncestor(commits, m, head) && IsAncestor(commits, subject, m)
      && m != subject && |commits[m].parents| == 2
      ==> IsAncestor(commits, subject, commits[m].parents[0])
  }

  /** MAIN: what a head reaches holds at most one commit that incorporates the subject exactly
      when no merge below it brings the subject in from the side, whatever the graph; a base
      that is no ancestor of the subject leaves none. */
  lemma UniqueBelowIff(commits: seq<Commit>, head: CommitId, subject: CommitId, base: CommitId)
    requires WellParented(commits) && head < |commits| && subject < |commits|
    ensures AtMostOneBelow(commits, head, subject, base) <==>
      (IsAncestor(commits, base, subject) ==> ReachedByFirstParents(commits, head, subject))
  {
    hide IsAncestor;
    if IsAncestor(commits, base, subject) && !ReachedByFirstParents(commits, head, subject) {
      var m :| && 0 <= m < |commits| && IsAncestor(commits, m, head) && IsAncestor(commits, subject, m)
               && m != subject && |commits[m].parents| == 2 && !IsAncestor(commits, subject, commits[m].parents[0]);
      assert Incorporates(commits, m, subject, base);
      SubjectIncorporatesItself(commits, m, head, subject, base);
    }
  }

  /** Where a merge incorporates the subject, the subject incorporates itself, and the same heads
      reach both. */
  lemma SubjectIncorporatesItself(commits: seq<Commit>, merge: CommitId, head: CommitId, subject: CommitId,
      base: CommitId)
    requires WellParented(commits) && merge < |commits| && head < |commits| && subject < |commits|
    requires Incorporates(commits, merge, subject, base) && IsAncestor(commits, merge, head)
    ensures Incorporates(commits, subject, subject, base) && IsAncestor(commits, subject, head)
  {
    IncorporatedIsReached(commits, merge, subject, base);
    AncestorOfAncestor(commits, subject, merge, head);
  }

  lemma {:induction false} AncestorOfAncestor(commits: seq<Commit>, a: CommitId, b: CommitId, c: CommitId)
    requires WellParented(commits) && b < |commits| && c < |commits|
    requires IsAncestor(commits, a, b) && IsAncestor(commits, b, c)
    ensures IsAncestor(commits, a, c)
    decreases c
  {
    if b != c {
      var i :| 0 <= i < |commits[c].parents| && IsAncestor(commits, b, commits[c].parents[i]);
      AncestorOfAncestor(commits, a, b, commits[c].parents[i]);
    }
  }

  /** A root, a subject over it, the merge of both, the same merge made again, and a head that
      joins the two. */
  const TWICE_MERGED := [
    Commit([], "root", map[]), Commit([0], "subject", map[]),
    Commit([0, 1], "merge", map[]), Commit([0, 1], "same merge elsewhere", map[]), Commit([2, 3], "head", map[])]

  /** The plain case: a subject and the ordinary merge that brings it in both incorporate it, and
      the protected head, which is that merge, reaches both. */
  lemma SubjectAndItsMerge()
    ensures WellParented(TWICE_MERGED) && !ReachedByFirstParents(TWICE_MERGED, 2, 1)
    ensures Incorporates(TWICE_MERGED, 1, 1, 0) && Incorporates(TWICE_MERGED, 2, 1, 0)
    ensures IsAncestor(TWICE_MERGED, 1, 2) && IsAncestor(TWICE_MERGED, 2, 2)
  {
    TwoMergesElsewhere();
    hide IsAncestor;
    ParentIsAncestor(TWICE_MERGED, 2, 1);
    ParentIsAncestor(TWICE_MERGED, 1, 0);
    RootHasNoOthers(TWICE_MERGED, 1, 0);
    SelfIsAncestor(TWICE_MERGED, 2);
  }

  lemma SelfIsAncestor(commits: seq<Commit>, c: CommitId)
    requires WellParented(commits) && c < |commits|
    ensures IsAncestor(commits, c, c)
  {
  }

  /** Two merges can both incorporate the subject as well, and both be ancestors of the protected
      head. */
  lemma TwoMergesElsewhere()
    ensures WellParented(TWICE_MERGED)
    ensures Incorporates(TWICE_MERGED, 2, 1, 0) && Incorporates(TWICE_MERGED, 3, 1, 0)
    ensures IsAncestor(TWICE_MERGED, 2, 4) && IsAncestor(TWICE_MERGED, 3, 4)
  {
    hide IsAncestor;
    var commits := TWICE_MERGED;
    assert commits[0].parents == [] && commits[1].parents == [0] && commits[2].parents == [0, 1];
    assert commits[3].parents == [0, 1] && commits[4].parents == [2, 3];
    ParentIsAncestor(commits, 1, 0);
    ParentIsAncestor(commits, 2, 1);
    ParentIsAncestor(commits, 3, 1);
    ParentIsAncestor(commits, 4, 0);
    ParentIsAncestor(commits, 4, 1);
    RootHasNoOthers(commits, 1, 0);
  }

  lemma RootHasNoOthers(commits: seq<Commit>, a: CommitId, root: CommitId)
    requires WellParented(commits) && root < |commits| && commits[root].parents == [] && a != root
    ensures !IsAncestor(commits, a, root)
  {
  }

  lemma ParentIsAncestor(commits: seq<Commit>, c: CommitId, i: nat)
    requires WellParented(commits) && c < |commits| && i < |commits[c].parents|
    ensures IsAncestor(commits, commits[c].parents[i], c)
  {
    assert IsAncestor(commits, commits[c].parents[i], commits[c].parents[i]);
  }

  // ----- The recorded decision -----

  datatype Decision = Decision(id: string, submission: string, report: string, digest: string)

  datatype DecisionError = InvalidRecord | AmbiguousDecisions

  /** A file below .research/decisions, with its record when it decodes canonically. */
  datatype Entry = Entry(path: string, record: Option<Decision>)

  predicate EndsWith(s: string, suffix: string) {
    |s| >= |suffix| && s[|s| - |suffix|..] == suffix
  }

  lemma EndsWithIff(s: string, suffix: string)
    ensures EndsWith(s, suffix) <==> exists head :: s == head + suffix
  {
    if EndsWith(s, suffix) {
      assert s == s[..|s| - |suffix|] + suffix;
    }
  }

  function CanonicalPath(d: Decision): string {
    ".research/decisions/" + d.id + ".yaml"
  }

  predicate WellFormed(e: Entry) {
    EndsWith(e.path, ".yaml") ==> e.record.Some? && e.path == CanonicalPath(e.record.value)
  }

  predicate Attested(e: Entry, submission: string, report: string, digest: string) {
    && EndsWith(e.path, ".yaml") && e.record.Some?
    && e.record.value.submission == submission && e.record.value.report == report && e.record.value.digest == digest
  }

  /** MAIN: `_decision` returns a decision exactly when every YAML entry is well-formed and that
      decision is the only attested one; several attested ones are an error, none is None. */
  method FindDecision(entries: seq<Entry>, submission: string, report: string, digest: string)
    returns (o: Outcome<Option<Decision>, DecisionError>)
    ensures o == Refused(InvalidRecord) <==> exists e <- entries :: !WellFormed(e)
    ensures o.Done? && o.value.None? <==>
      (forall e <- entries :: WellFormed(e) && !Attested(e, submission, report, digest))
    ensures o.Done? && o.value.Some? <==>
      && (forall e <- entries :: WellFormed(e))
      && exists i :: 0 <= i < |entries| && OnlyAttested(entries, i, submission, report, digest)
    ensures forall i :: 0 <= i < |entries| && o.Done? && OnlyAttested(entries, i, submission, report, digest) ==>
      o.value == entries[i].record
    ensures !o.Crashed?
  {
    var matches: seq<nat> := [];
    for i := 0 to |entries|
      invariant forall k :: 0 <= k < i ==> WellFormed(entries[k])
      invariant forall k :: 0 <= k < i ==> (k in matches <==> Attested(entries[k], submission, report, digest))
      invariant forall m :: 0 <= m < |matches| ==> matches[m] < i
      invariant forall m, n :: 0 <= m < n < |matches| ==> matches[m] < matches[n]
    {
      var entry := entries[i];
      if !EndsWith(entry.path, ".yaml") {
        continue;
      }
      if entry.record.None? {
        assert !WellFormed(entries[i]);
        return Refused(InvalidRecord);
      }
      var decision := entry.record.value;
      if entry.path != CanonicalPath(decision) {
        assert !WellFormed(entries[i]);
        return Refused(InvalidRecord);
      }
      if decision.submission == submission && decision.report == report && decision.digest == digest {
        matches := matches + [i];
      }
    }
    if |matches| == 0 {
      return Done(None);
    }
    assert matches[0] in matches;
    if |matches| != 1 {
      assert matches[1] in matches;
      return Refused(AmbiguousDecisions);
    }
    assert OnlyAttested(entries, matches[0], submission, report, digest) by {
      assert forall k :: k in matches ==> k == matches[0];
    }
    return Done(entries[matches[0]].record);
  }

  ghost predicate OnlyAttested(entries: seq<Entry>, i: nat, submission: string, report: string, digest: string)
    requires i < |entries|
  {
    && Attested(entries[i], submission, report, digest)
    && forall k :: 0 <= k < |entries| && Attested(entries[k], submission, report, digest) ==> k == i
  }
}
