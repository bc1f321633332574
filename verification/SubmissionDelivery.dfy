/** Delivering a submission: push one commit to its branch, open one pull request for it, over a
    remote that answers late, loses requests, or performs them long after the client gave up
    (src/researchctl/adapters/github_submission.py). */
module SubmissionDelivery {
  import opened Wrappers

  type Sha = string

  datatype Pull = Pull(
    number: nat, open: bool, merged: bool, title: string, body: string, author: string,
    headOwner: string, headRepo: string, headRef: string, headSha: Sha, baseRepo: string, baseRef: string)

  /** What one delivery is to bring about. `ancestors` are the commits that can be
      fast-forwarded to `commit`; `lower` is Python's `str.lower`. */
  datatype Job = Job(
    owner: string, repository: string, branch: string, commit: Sha, ancestors: set<Sha>,
    base: string, title: string, body: string, appLogin: string, lower: string -> string)

  /** The remote, with the requests of this client that are still under way. */
  datatype Server = Server(head: Option<Sha>, pulls: seq<Pull>, pushes: nat, creates: nat)

  /** What happens at the remote while the client waits or is gone. */
  datatype Weather =
    | PushLands | PushIsLost | CreateLands | CreateIsLost
    | Closes(number: nat, merged: bool)
    | SomeoneMoves(to: Option<Sha>)

  datatype Action =
    | Happens(weather: Weather)
    | Observes(head: Option<Sha>) | Sends
    | Lists(pulls: seq<Pull>) | Posts

  /** The pull requests for the branch and base, open or closed, as they are listed. */
  function Listing(job: Job, s: Server): seq<Pull> {
    Matching(job, s.head, s.pulls)
  }

  predicate Matches(job: Job, p: Pull) {
    p.headOwner == job.owner && p.headRef == job.branch && p.baseRef == job.base
  }

  function Matching(job: Job, head: Option<Sha>, pulls: seq<Pull>): (found: seq<Pull>)
    ensures forall p <- found :: Matches(job, p)
    ensures |found| <= |pulls|
  {
    if pulls == [] then []
    else
      var p := pulls[|pulls| - 1];
      var rest := Matching(job, head, pulls[..|pulls| - 1]);
      if !Matches(job, p) then rest
      else rest + [if p.open && head.Some? then p.(headSha := head.value) else p]
  }

  predicate AnyOpen(job: Job, pulls: seq<Pull>) {
    exists i :: 0 <= i < |pulls| && pulls[i].open && Matches(job, pulls[i])
  }

  function NewPull(job: Job, s: Server): Pull
    requires s.head.Some?
  {
    Pull(|s.pulls| + 1, true, false, job.title, job.body, job.appLogin,
         job.owner, job.repository, job.branch, s.head.value, job.repository, job.base)
  }

  function Close(pulls: seq<Pull>, number: nat, merged: bool): (closed: seq<Pull>)
    ensures |closed| == |pulls|
    ensures forall i :: 0 <= i < |pulls| ==>
      closed[i] == if pulls[i].number == number && pulls[i].open
                   then pulls[i].(open := false, merged := merged) else pulls[i]
  {
    seq(|pulls|, i requires 0 <= i < |pulls| =>
      if pulls[i].number == number && pulls[i].open then pulls[i].(open := false, merged := merged) else pulls[i])
  }

  function Weathered(job: Job, s: Server, w: Weather): Server {
    match w
    case PushIsLost => if s.pushes == 0 then s else s.(pushes := s.pushes - 1)
    case CreateIsLost => if s.creates == 0 then s else s.(creates := s.creates - 1)
    case PushLands =>
      if s.pushes == 0 then s
      else s.(pushes := s.pushes - 1,
              head := if s.head.None? || s.head.value in job.ancestors then Some(job.commit) else s.head)
    case CreateLands =>
      if s.creates == 0 then s
      else if s.head.None? || AnyOpen(job, s.pulls) then s.(creates := s.creates - 1)
      else s.(creates := s.creates - 1, pulls := s.pulls + [NewPull(job, s)])
    case Closes(number, merged) => s.(pulls := Close(s.pulls, number, merged))
    case SomeoneMoves(to) => s.(head := to)
  }

  function After(job: Job, s: Server, a: Action): Server {
    match a
    case Happens(w) => Weathered(job, s, w)
    case Sends => s.(pushes := s.pushes + 1)
    case Posts => s.(creates := s.creates + 1)
    case _ => s
  }

  function Run(job: Job, s: Server, actions: seq<Action>): Server {
    if actions == [] then s else After(job, Run(job, s, actions[..|actions| - 1]), actions[|actions| - 1])
  }

  // ----- The client as it executes -----

  datatype DeliveryError = Uncertain | HeadConflict | PushFailed | Ambiguous | AuthorMismatch
    | IdentityConflict | MetadataConflict | NotOpen | CreateFailed | ObservationFailed

  datatype Answer = Replies(ok: bool) | TimesOut | Dies

  /** What happens during one call of the client, and how the call ends for it. */
  datatype Fate = Fate(weather: seq<Weather>, answer: Answer)

  datatype Receipt = Receipt(number: nat, headCommit: Sha, created: bool)

  predicate Exact(job: Job, p: Pull) {
    && job.lower(p.author) == job.lower(job.appLogin)
    && p.headRef == job.branch && p.headSha == job.commit && p.headRepo == job.repository
    && p.baseRef == job.base && p.baseRepo == job.repository
    && p.title == job.title && p.body == job.body
    && p.open && !p.merged
  }

  function IsOwn(a: Action): bool {
    !a.Happens?
  }

  /** What the client itself did, in order. */
  function Own(actions: seq<Action>): (own: seq<Action>)
    ensures forall a <- own :: IsOwn(a)
  {
    if actions == [] then []
    else
      var last := actions[|actions| - 1];
      Own(actions[..|actions| - 1]) + if IsOwn(last) then [last] else []
  }

  /** What a call of `push_exact` can have done, by the way it ended. */
  ghost predicate PushCall(job: Job, own: seq<Action>, o: Outcome<bool, DeliveryError>) {
    || (own == [] && !o.Done?)
    || (own == [Observes(Some(job.commit))] && o == Done(false))
    || (|own| == 1 && own[0].Observes? && own[0].head.Some? && own[0].head.value != job.commit &&
      o == Refused(HeadConflict))
    || (own == [Observes(None)] && o.Crashed?)
    || (own == [Observes(None), Sends] && !o.Done?)
    || (own == [Observes(None), Sends, Observes(None)] && (o == Refused(Uncertain) || o == Refused(PushFailed)))
    || (own == [Observes(None), Sends, Observes(Some(job.commit))] && o == Done(true))
    || (|own| == 3 && own[..2] == [Observes(None), Sends] && own[2].Observes? && own[2].head.Some?
        && own[2].head.value != job.commit && o == Refused(HeadConflict))
  }

  /** What a call of `open_or_observe` can have done, by the way it ended. */
  ghost predicate OpenCall(job: Job, own: seq<Action>, o: Outcome<Receipt, DeliveryError>) {
    || (own == [] && !o.Done?)
    || (|own| == 1 && own[0].Lists? && own[0].pulls != [] && Judged(job, own[0].pulls, false, o))
    || (own == [Lists([])] && o.Crashed?)
    || (own == [Lists([]), Posts] && !o.Done?)
    || (own == [Lists([]), Posts, Lists([])] && (o == Refused(Uncertain) || o == Refused(CreateFailed)))
    || (|own| == 3 && own[..2] == [Lists([]), Posts] && own[2].Lists? && own[2].pulls != []
        && Judged(job, own[2].pulls, true, o))
  }

  /** A listing that is not empty ends the call: with a receipt exactly when it is one open pull
      request of the exact lineage and metadata. */
  ghost predicate Judged(job: Job, pulls: seq<Pull>, created: bool, o: Outcome<Receipt, DeliveryError>) {
    if |pulls| == 1 && Exact(job, pulls[0]) then o == Done(Receipt(pulls[0].number, job.commit, created))
    else o.Refused? && (o.error.Ambiguous? <==> |pulls| > 1)
  }

  // ----- Calls that are left alone -----

  /** The remote after everything that happens during one request. */
  function Through(job: Job, s: Server, weather: seq<Weather>): Server {
    if weather == [] then s
    else Weathered(job, Through(job, s, weather[..|weather| - 1]), weather[|weather| - 1])
  }

  /** The next request is answered. */
  predicate Heard(fates: seq<Fate>) {
    fates != [] && fates[0].answer == Replies(true)
  }

  /** The client outlives the next request. */
  predicate Survived(fates: seq<Fate>) {
    fates != [] && !fates[0].answer.Dies?
  }

  predicate Undisturbed(weather: seq<Weather>) {
    forall w <- weather :: !w.SomeoneMoves? && !w.Closes?
  }

  /** A call's first observation and its last are answered, and a request is performed in
      between; requests of earlier calls may land as they like. */
  predicate LeftAlone(fates: seq<Fate>, lands: Weather, lost: Weather) {
    && Heard(fates) && Survived(fates[1..]) && Heard(fates[2..])
    && lands in fates[1].weather && lost !in fates[1].weather
    && forall i :: 0 <= i < 3 ==> Undisturbed(fates[i].weather)
  }

  /** What one writer leaves while nobody closes its pull request: the branch is absent or at the
      commit, and at most one pull request is listed, an exact one, for a branch that is there. */
  ghost predicate Deliverable(job: Job, s: Server) {
    && (s.head.None? || s.head == Some(job.commit))
    && (Listing(job, s) == []
        || (s.head.Some? && |Listing(job, s)| == 1 && Exact(job, Listing(job, s)[0]) && AnyOpen(job, s.pulls)))
  }

  class GitHubSubmissionDelivery {
    const job: Job
    var server: Server
    var fates: seq<Fate>
    ghost var log: seq<Action>

    constructor (job: Job, server: Server, fates: seq<Fate>)
      ensures this.job == job && this.server == server && this.fates == fates && log == []
    {
      this.job, this.server, this.fates, this.log := job, server, fates, [];
    }

    /** Since the given state and log, the client itself has done `own`. */
    ghost predicate Since(start: Server, prefix: seq<Action>, own: seq<Action>)
      reads this
    {
      && prefix <= log
      && Own(log[|prefix|..]) == own
      && server == Run(job, start, log[|prefix|..])
      && Truthful(job, start, log[|prefix|..])
    }

    method Elapse(weather: seq<Weather>, ghost start: Server, ghost prefix: seq<Action>, ghost own: seq<Action>)
      requires Since(start, prefix, own)
      modifies this`server, this`log
      ensures Since(start, prefix, own) && server == Through(job, old(server), weather)
    {
      hide Weathered, Truthful, Own, Run;
      for i := 0 to |weather|
        invariant Since(start, prefix, own) && server == Through(job, old(server), weather[..i])
      {
        assert weather[..i + 1][..i] == weather[..i];
        Extend(job, start, log[|prefix|..], Happens(weather[i]));
        assert (log + [Happens(weather[i])])[|prefix|..] == log[|prefix|..] + [Happens(weather[i])];
        server, log := Weathered(job, server, weather[i]), log + [Happens(weather[i])];
      }
      assert weather[..|weather|] == weather;
    }

    /** One action of the client itself. */
    method Act(a: Action, ghost start: Server, ghost prefix: seq<Action>, ghost own: seq<Action>)
      requires Since(start, prefix, own) && IsOwn(a) && True(job, server, a)
      modifies this`server, this`log
      ensures Since(start, prefix, own + [a]) && server == After(job, old(server), a)
    {
      hide After, Truthful, Own, Run;
      Extend(job, start, log[|prefix|..], a);
      assert (log + [a])[|prefix|..] == log[|prefix|..] + [a];
      server, log := After(job, server, a), log + [a];
    }

    /** `_remote_head`. */
    method RemoteHead(ghost start: Server, ghost prefix: seq<Action>, ghost own: seq<Action>)
      returns (o: Outcome<Option<Sha>, DeliveryError>)
      requires Since(start, prefix, own)
      modifies this
      ensures Since(start, prefix, if o.Done? then own + [Observes(o.value)] else own)
      ensures old(fates) != [] ==> fates == old(fates)[1..]
      ensures Heard(old(fates)) ==>
        server == Through(job, old(server), old(fates)[0].weather) && o == Done(server.head)
    {
      if fates == [] {
        return Crashed;
      }
      var fate := fates[0];
      fates := fates[1..];
      Elapse(fate.weather, start, prefix, own);
      match fate.answer
      case Dies => return Crashed;
      case TimesOut => return Refused(Uncertain);
      case Replies(ok) =>
        if !ok {
          return Refused(ObservationFailed);
        }
        Act(Observes(server.head), start, prefix, own);
        return Done(server.head);
    }

    /** The listing of `_observe_pull_request`. */
    method ListPulls(ghost start: Server, ghost prefix: seq<Action>, ghost own: seq<Action>)
      returns (o: Outcome<seq<Pull>, DeliveryError>)
      requires Since(start, prefix, own)
      modifies this
      ensures Since(start, prefix, if o.Done? then own + [Lists(o.value)] else own)
      ensures old(fates) != [] ==> fates == old(fates)[1..]
      ensures Heard(old(fates)) ==>
        server == Through(job, old(server), old(fates)[0].weather) && o == Done(Listing(job, server))
    {
      if fates == [] {
        return Crashed;
      }
      var fate := fates[0];
      fates := fates[1..];
      Elapse(fate.weather, start, prefix, own);
      match fate.answer
      case Dies => return Crashed;
      case TimesOut => return Refused(Uncertain);
      case Replies(ok) =>
        if !ok {
          return Refused(ObservationFailed);
        }
        Act(Lists(Listing(job, server)), start, prefix, own);
        return Done(Listing(job, server));
    }

    /** A request that changes the remote is under way from the moment it is sent; the reply
        says whether its effect is uncertain. */
    method Request(a: Action, ghost start: Server, ghost prefix: seq<Action>, ghost own: seq<Action>)
      returns (o: Outcome<bool, DeliveryError>)
      requires Since(start, prefix, own) && (a.Sends? || a.Posts?)
      modifies this
      ensures o.Done? ==> Since(start, prefix, own + [a])
      ensures !o.Done? ==> o.Crashed? && (Since(start, prefix, own) || Since(start, prefix, own + [a]))
      ensures old(fates) != [] ==> fates == old(fates)[1..]
      ensures Survived(old(fates)) ==>
        o.Done? && server == Through(job, After(job, old(server), a), old(fates)[0].weather)
    {
      if fates == [] {
        return Crashed;
      }
      var fate := fates[0];
      fates := fates[1..];
      Act(a, start, prefix, own);
      Elapse(fate.weather, start, prefix, own + [a]);
      return if fate.answer.Dies? then Crashed else Done(fate.answer.TimesOut?);
    }

    method PushExact() returns (o: Outcome<bool, DeliveryError>)
      modifies this
      ensures old(log) <= log
      ensures Since(old(server), old(log), Own(log[|old(log)|..])) && PushCall(job, Own(log[|old(log)|..]), o)
      ensures Deliverable(job, old(server)) && LeftAlone(old(fates), PushLands, PushIsLost) ==>
        o.Done? && Deliverable(job, server) && server.head == Some(job.commit)
    {
      hide Own, Run, Truthful, Through, Deliverable, Undisturbed, PushCall, After;
      if Deliverable(job, server) && LeftAlone(fates, PushLands, PushIsLost) {
        PushLandsAlone(job, server, fates);
      }
      ghost var start, prefix := server, log;
      Unmoved(job, start, prefix);
      var before := RemoteHead(start, prefix, []);
      if before.IsFailure() {
        PushEndsEarly(job, before.PropagateFailure());
        return before.PropagateFailure();
      }
      assert [] + [Observes(before.value)] == [Observes(before.value)];
      PushEndsFirst(job, before.value);
      if before.value.Some? && before.value.value != job.commit {
        return Refused(HeadConflict);
      }
      if before.value == Some(job.commit) {
        return Done(false);
      }
      assert [Observes(None)] + [Sends] == [Observes(None), Sends];
      PushEndsEarly(job, Crashed);
      var uncertain :- Request(Sends, start, prefix, [Observes(None)]);
      var observed := RemoteHead(start, prefix, [Observes(None), Sends]);
      if observed.IsFailure() {
        PushEndsEarly(job, observed.PropagateFailure());
        return observed.PropagateFailure();
      }
      assert [Observes(None), Sends] + [Observes(observed.value)] == [Observes(None), Sends, Observes(observed.value)];
      PushEndsLast(job, observed.value);
      if observed.value == Some(job.commit) {
        return Done(true);
      }
      if observed.value.Some? {
        return Refused(HeadConflict);
      }
      return Refused(if uncertain then Uncertain else PushFailed);
    }

    /** What `_observe_pull_request` makes of a listing; None when it is empty. */
    function Judge(pulls: seq<Pull>, created: bool): (o: Outcome<Option<Receipt>, DeliveryError>)
      ensures pulls == [] ==> o == Done(None)
      ensures pulls != [] ==>
        match o
        case Done(receipt) => receipt.Some? && Judged(job, pulls, created, Done(receipt.value))
        case Refused(e) => Judged(job, pulls, created, Refused(e))
        case Crashed => false
      ensures |pulls| == 1 && Exact(job, pulls[0]) ==> o.Done?
    {
      if pulls == [] then Done(None)
      else if |pulls| != 1 then Refused(Ambiguous)
      else
        var p := pulls[0];
        if job.lower(p.author) != job.lower(job.appLogin) then Refused(AuthorMismatch)
        else if p.headRef != job.branch || p.headSha != job.commit || p.headRepo != job.repository
          || p.baseRef != job.base || p.baseRepo != job.repository then Refused(IdentityConflict)
        else if p.title != job.title || p.body != job.body then Refused(MetadataConflict)
        else if !p.open || p.merged then Refused(NotOpen)
        else Done(Some(Receipt(p.number, job.commit, created)))
    }

    /** `_observe_pull_request`. */
    method ObservePullRequest(created: bool, ghost start: Server, ghost prefix: seq<Action>, ghost own: seq<Action>)
      returns (o: Outcome<Option<Receipt>, DeliveryError>, ghost listed: Option<seq<Pull>>)
      requires Since(start, prefix, own)
      modifies this
      ensures listed.None? ==> Since(start, prefix, own) && !o.Done?
      ensures listed.Some? ==> Since(start, prefix, own + [Lists(listed.value)]) && o == Judge(listed.value, created)
      ensures old(fates) != [] ==> fates == old(fates)[1..]
      ensures Heard(old(fates)) ==>
        server == Through(job, old(server), old(fates)[0].weather) && listed == Some(Listing(job, server))
    {
      listed := None;
      var listing := ListPulls(start, prefix, own);
      if listing.IsFailure() {
        o := listing.PropagateFailure();
        return;
      }
      o, listed := Judge(listing.value, created), Some(listing.value);
    }

    method OpenOrObserve() returns (o: Outcome<Receipt, DeliveryError>)
      modifies this
      ensures old(log) <= log
      ensures Since(old(server), old(log), Own(log[|old(log)|..])) && OpenCall(job, Own(log[|old(log)|..]), o)
      ensures (Deliverable(job, old(server)) && old(server).head.Some?
               && LeftAlone(old(fates), CreateLands, CreateIsLost)) ==> o.Done? && Deliverable(job, server)
    {
      hide Own, Run, Truthful, Through, Deliverable, Undisturbed, Listing, Judge, Judged, Exact, OpenCall, After;
      if Deliverable(job, server) && server.head.Some? && LeftAlone(fates, CreateLands, CreateIsLost) {
        CreateLandsAlone(job, server, fates);
      }
      ghost var start, prefix := server, log;
      Unmoved(job, start, prefix);
      OpenEndsUnseen(job);
      ghost var listed: Option<seq<Pull>>;
      var observed: Outcome<Option<Receipt>, DeliveryError>;
      observed, listed := ObservePullRequest(false, start, prefix, []);
      if listed.Some? && listed.value != [] {
        assert [] + [Lists(listed.value)] == [Lists(listed.value)];
        OpenEndsFirst(job, listed.value, AsOutcome(observed));
      }
      if observed.IsFailure() {
        OpenEndsEarly(job, observed.PropagateFailure());
        return observed.PropagateFailure();
      }
      if observed.value.Some? {
        return Done(observed.value.value);
      }
      assert [] + [Lists([])] == [Lists([])] && [Lists([])] + [Posts] == [Lists([]), Posts];
      var uncertain :- Request(Posts, start, prefix, [Lists([])]);
      observed, listed := ObservePullRequest(true, start, prefix, [Lists([]), Posts]);
      if listed.Some? && listed.value != [] {
        assert [Lists([]), Posts] + [Lists(listed.value)] == [Lists([]), Posts, Lists(listed.value)];
        OpenEndsLast(job, listed.value, AsOutcome(observed));
      }
      if observed.IsFailure() {
        OpenEndsEarly(job, observed.PropagateFailure());
        return observed.PropagateFailure();
      }
      if observed.value.Some? {
        return Done(observed.value.value);
      }
      assert [Lists([]), Posts] + [Lists([])] == [Lists([]), Posts, Lists([])];
      return Refused(if uncertain then Uncertain else CreateFailed);
    }
  }

  /** What a call reports that ends with an observation. */
  function AsOutcome(o: Outcome<Option<Receipt>, DeliveryError>): Outcome<Receipt, DeliveryError>
    requires o.Done? ==> o.value.Some?
  {
    match o
    case Done(receipt) => Done(receipt.value)
    case Refused(e) => Refused(e)
    case Crashed => Crashed
  }

  lemma PushEndsEarly(job: Job, o: Outcome<bool, DeliveryError>)
    requires !o.Done?
    ensures PushCall(job, [], o) && PushCall(job, [Observes(None), Sends], o)
    ensures PushCall(job, [Observes(None)], Crashed)
  {
  }

  lemma PushEndsFirst(job: Job, head: Option<Sha>)
    ensures head == Some(job.commit) ==> PushCall(job, [Observes(head)], Done(false))
    ensures head.Some? && head.value != job.commit ==> PushCall(job, [Observes(head)], Refused(HeadConflict))
  {
  }

  lemma PushEndsLast(job: Job, head: Option<Sha>)
    ensures var own := [Observes(None), Sends, Observes(head)];
      && (head.None? ==> PushCall(job, own, Refused(Uncertain)) && PushCall(job, own, Refused(PushFailed)))
      && (head == Some(job.commit) ==> PushCall(job, own, Done(true)))
      && (head.Some? && head.value != job.commit ==> PushCall(job, own, Refused(HeadConflict)))
  {
    assert [Observes(None), Sends, Observes(head)][..2] == [Observes(None), Sends];
  }

  lemma OpenEndsEarly(job: Job, o: Outcome<Receipt, DeliveryError>)
    requires !o.Done?
    ensures OpenCall(job, [], o) && OpenCall(job, [Lists([]), Posts], o)
  {
    hide Judged;
  }

  lemma OpenEndsUnseen(job: Job)
    ensures OpenCall(job, [Lists([])], Crashed) && OpenCall(job, [Lists([]), Posts], Crashed)
    ensures OpenCall(job, [Lists([]), Posts, Lists([])], Refused(Uncertain))
    ensures OpenCall(job, [Lists([]), Posts, Lists([])], Refused(CreateFailed))
  {
    hide Judged;
  }

  lemma OpenEndsFirst(job: Job, pulls: seq<Pull>, o: Outcome<Receipt, DeliveryError>)
    requires pulls != [] && Judged(job, pulls, false, o)
    ensures OpenCall(job, [Lists(pulls)], o)
  {
    hide Judged;
  }

  lemma OpenEndsLast(job: Job, pulls: seq<Pull>, o: Outcome<Receipt, DeliveryError>)
    requires pulls != [] && Judged(job, pulls, true, o)
    ensures OpenCall(job, [Lists([]), Posts, Lists(pulls)], o)
  {
    hide Judged;
    assert [Lists([]), Posts, Lists(pulls)][..2] == [Lists([]), Posts];
  }

  /** Matching pull requests are listed, and no others. */
  lemma {:induction false} ListedIff(job: Job, head: Option<Sha>, pulls: seq<Pull>)
    ensures Matching(job, head, pulls) == [] <==> forall p <- pulls :: !Matches(job, p)
  {
    if pulls != [] {
      var before, last := pulls[..|pulls| - 1], pulls[|pulls| - 1];
      ListedIff(job, head, before);
      assert pulls == before + [last];
      assert forall p :: p in pulls <==> p in before || p == last;
    }
  }

  /** The one pull request that is created is listed as exact. */
  lemma CreatedIsListed(job: Job, s: Server)
    requires s.head == Some(job.commit) && Listing(job, s) == []
    ensures !AnyOpen(job, s.pulls)
    ensures forall creates :: Deliverable(job, s.(pulls := s.pulls + [NewPull(job, s)], creates := creates))
    ensures Matching(job, s.head, s.pulls + [NewPull(job, s)]) != []
  {
    hide Exact, AnyOpen, Matching;
    var pulls, pull := s.pulls + [NewPull(job, s)], NewPull(job, s);
    NoneOpen(job, s);
    NewIsListed(job, s.head, s.pulls, pull);
    NewIsOpen(job, s.pulls, pull);
    NewIsExact(job, s);
  }

  lemma NoneOpen(job: Job, s: Server)
    requires Listing(job, s) == []
    ensures !AnyOpen(job, s.pulls)
  {
    ListedIff(job, s.head, s.pulls);
    assert forall i :: 0 <= i < |s.pulls| ==> s.pulls[i] in s.pulls;
  }

  lemma NewIsListed(job: Job, head: Option<Sha>, pulls: seq<Pull>, pull: Pull)
    requires Matching(job, head, pulls) == [] && Matches(job, pull) && pull.open && head == Some(pull.headSha)
    ensures Matching(job, head, pulls + [pull]) == [pull]
  {
    assert (pulls + [pull])[..|pulls|] == pulls;
  }

  lemma NewIsOpen(job: Job, pulls: seq<Pull>, pull: Pull)
    requires Matches(job, pull) && pull.open
    ensures AnyOpen(job, pulls + [pull])
  {
    assert (pulls + [pull])[|pulls|] == pull;
  }

  lemma NewIsExact(job: Job, s: Server)
    requires s.head == Some(job.commit)
    ensures Exact(job, NewPull(job, s)) && Matches(job, NewPull(job, s))
  {
  }

  /** A branch that comes into being changes nothing about an empty listing. */
  lemma NothingListedEither(job: Job, head: Option<Sha>, other: Option<Sha>, pulls: seq<Pull>)
    requires Matching(job, head, pulls) == []
    ensures Matching(job, other, pulls) == []
  {
    ListedIff(job, head, pulls);
    ListedIff(job, other, pulls);
  }

  /** Nothing that happens, short of others moving the branch or closing, undoes a delivery. */
  lemma StaysDeliverable(job: Job, s: Server, a: Action)
    requires Deliverable(job, s) && (a.Happens? ==> !a.weather.SomeoneMoves? && !a.weather.Closes?)
    ensures var t := After(job, s, a);
      && Deliverable(job, t)
      && (s.head.Some? ==> t.head.Some?) && (Listing(job, s) != [] ==> Listing(job, t) != [])
  {
    hide Matching, AnyOpen, Exact;
    var t := After(job, s, a);
    if a.Happens? && a.weather.CreateLands? && t.pulls != s.pulls {
      if Listing(job, s) == [] {
        CreatedIsListed(job, s);
      }
    } else if t.head != s.head && Listing(job, s) == [] {
      NothingListedEither(job, s.head, t.head, s.pulls);
    }
  }

  lemma {:induction false} ThroughDeliverable(job: Job, s: Server, weather: seq<Weather>)
    requires Deliverable(job, s) && Undisturbed(weather)
    ensures var t := Through(job, s, weather);
      && Deliverable(job, t)
      && (s.head.Some? ==> t.head.Some?) && (Listing(job, s) != [] ==> Listing(job, t) != [])
  {
    hide Deliverable, Weathered, Listing;
    if weather != [] {
      var last := weather[|weather| - 1];
      assert last in weather && forall w <- weather[..|weather| - 1] :: w in weather;
      ThroughDeliverable(job, s, weather[..|weather| - 1]);
      StaysDeliverable(job, Through(job, s, weather[..|weather| - 1]), Happens(last));
      AfterHappens(job, Through(job, s, weather[..|weather| - 1]), last);
    }
  }

  lemma AfterHappens(job: Job, s: Server, w: Weather)
    ensures After(job, s, Happens(w)) == Weathered(job, s, w)
  {
  }

  lemma {:induction false} PushLandsMeanwhile(job: Job, s: Server, weather: seq<Weather>)
    requires Deliverable(job, s) && Undisturbed(weather) && s.pushes > 0 && PushIsLost !in weather
    ensures PushLands in weather ==> Through(job, s, weather).head.Some?
    ensures PushLands !in weather ==> Through(job, s, weather).pushes > 0
  {
    hide Deliverable;
    if weather != [] {
      var before, last := weather[..|weather| - 1], weather[|weather| - 1];
      assert weather == before + [last];
      PushLandsMeanwhile(job, s, before);
      ThroughDeliverable(job, s, before);
    }
  }

  lemma {:induction false} CreateLandsMeanwhile(job: Job, s: Server, weather: seq<Weather>)
    requires Deliverable(job, s) && s.head.Some? && Undisturbed(weather) && s.creates > 0
    requires CreateIsLost !in weather
    ensures CreateLands in weather ==> Listing(job, Through(job, s, weather)) != []
    ensures CreateLands !in weather ==> Through(job, s, weather).creates > 0
  {
    hide Listing, Deliverable, AnyOpen, Matching;
    if weather != [] {
      var before, last := weather[..|weather| - 1], weather[|weather| - 1];
      assert weather == before + [last];
      CreateLandsMeanwhile(job, s, before);
      ThroughDeliverable(job, s, before);
      var mid := Through(job, s, before);
      StaysDeliverable(job, mid, Happens(last));
      AfterHappens(job, mid, last);
      if last.CreateLands? && CreateLands !in before {
        CreateLandsNow(job, mid);
      }
    }
  }

  lemma CreateLandsNow(job: Job, s: Server)
    requires Deliverable(job, s) && s.head.Some? && s.creates > 0
    ensures Listing(job, Weathered(job, s, CreateLands)) != []
  {
    hide Matching, AnyOpen;
    if Listing(job, s) == [] {
      CreatedIsListed(job, s);
    }
  }

  /** The three states a push that is left alone goes through. */
  lemma PushLandsAlone(job: Job, s: Server, fates: seq<Fate>)
    requires Deliverable(job, s) && LeftAlone(fates, PushLands, PushIsLost)
    ensures var first := Through(job, s, fates[0].weather);
      && Deliverable(job, first) && (first.head.None? || first.head == Some(job.commit))
      && var last := Through(job, Through(job, After(job, first, Sends), fates[1].weather), fates[2].weather);
         Deliverable(job, last) && last.head == Some(job.commit)
  {
    hide Through, Listing, After;
    var first := Through(job, s, fates[0].weather);
    ThroughDeliverable(job, s, fates[0].weather);
    StaysDeliverable(job, first, Sends);
    assert After(job, first, Sends) == first.(pushes := first.pushes + 1) by {
      SendsOne(job, first);
    }
    PushLandsMeanwhile(job, After(job, first, Sends), fates[1].weather);
    ThroughDeliverable(job, After(job, first, Sends), fates[1].weather);
    ThroughDeliverable(job, Through(job, After(job, first, Sends), fates[1].weather), fates[2].weather);
  }

  lemma SendsOne(job: Job, s: Server)
    ensures After(job, s, Sends) == s.(pushes := s.pushes + 1)
    ensures After(job, s, Posts) == s.(creates := s.creates + 1)
  {
  }

  /** And an opening that is left alone. */
  lemma CreateLandsAlone(job: Job, s: Server, fates: seq<Fate>)
    requires Deliverable(job, s) && s.head.Some? && LeftAlone(fates, CreateLands, CreateIsLost)
    ensures var first := Through(job, s, fates[0].weather);
      && Deliverable(job, first)
      && (Listing(job, first) == [] || (|Listing(job, first)| == 1 && Exact(job, Listing(job, first)[0])))
      && var last := Through(job, Through(job, After(job, first, Posts), fates[1].weather), fates[2].weather);
         Deliverable(job, last) && |Listing(job, last)| == 1 && Exact(job, Listing(job, last)[0])
  {
    hide Through, Listing, After, Exact, AnyOpen;
    var first := Through(job, s, fates[0].weather);
    ThroughDeliverable(job, s, fates[0].weather);
    StaysDeliverable(job, first, Posts);
    SendsOne(job, first);
    CreateLandsMeanwhile(job, After(job, first, Posts), fates[1].weather);
    ThroughDeliverable(job, After(job, first, Posts), fates[1].weather);
    ThroughDeliverable(job, Through(job, After(job, first, Posts), fates[1].weather), fates[2].weather);
  }

  lemma Unmoved(job: Job, s: Server, log: seq<Action>)
    ensures Own(log[|log|..]) == [] && Run(job, s, log[|log|..]) == s && Truthful(job, s, log[|log|..])
  {
  }

  /** Observations and listings say what was so when they were made. */
  ghost predicate Truthful(job: Job, s: Server, actions: seq<Action>) {
    forall i :: 0 <= i < |actions| ==> True(job, Run(job, s, actions[..i]), actions[i])
  }

  ghost predicate True(job: Job, s: Server, a: Action) {
    && (a.Observes? ==> a.head == s.head)
    && (a.Lists? ==> a.pulls == Listing(job, s))
  }

  lemma Extend(job: Job, s: Server, actions: seq<Action>, a: Action)
    requires Truthful(job, s, actions) && True(job, Run(job, s, actions), a)
    ensures Truthful(job, s, actions + [a])
    ensures Run(job, s, actions + [a]) == After(job, Run(job, s, actions), a)
    ensures Own(actions + [a]) == Own(actions) + if IsOwn(a) then [a] else []
  {
    var all := actions + [a];
    assert all[..|actions|] == actions;
    forall i | 0 <= i < |all| ensures True(job, Run(job, s, all[..i]), all[i]) {
      if i < |actions| {
        assert all[..i] == actions[..i];
      }
    }
  }
}
