/**
  The session: requests come in, at most one job runs for them, and a resolve request that
  arrives while a resolve job is being cancelled waits for that job to end. Requests are
  numbered as they arrive, so that it can be said what becomes of each.
 */
module Session {
  import opened Numbers

  datatype Kind = Resolve | Build | Clean | Install

  /** `AbstractJob::State` */
  datatype JobState = Running | Canceling | Finished

  /** `AbstractJob`, as far as the session can see it. */
  class Job {
    const kind: Kind
    const request: nat
    var state: JobState
    /** Whether the session still listens to its `finished` signal. */
    var connected: bool

    constructor (kind: Kind, request: nat)
      ensures this.kind == kind && this.request == request && state == Running && connected
    {
      this.kind := kind;
      this.request := request;
      state := Running;
      connected := true;
    }

    method Cancel()
      modifies this`state
      ensures state == if old(state) == Running then Canceling else old(state)
    {
      if state != Running {
        return;
      }
      state := Canceling;
    }
  }

  /** What has become of a request. */
  datatype Fate =
    | Active
    | Waiting
    | Answered
    | Superseded(later: nat)
    | DroppedByCancel
    | DroppedByRelease
    | DroppedByQuit

  /** A packet that answers a request: project-resolved, project-built, project-cleaned or install-done. */
  datatype Reply = Reply(kind: Kind, request: nat, failed: bool)

  function Answers(replies: seq<Reply>, request: nat): nat {
    if replies == [] then 0
    else Answers(replies[..|replies| - 1], request) + if replies[|replies| - 1].request == request then 1 else 0
  }

  lemma OneMoreAnswer(replies: seq<Reply>, r: Reply, request: nat)
    ensures Answers(replies + [r], request) == Answers(replies, request) + if r.request == request then 1 else 0
  {
    assert (replies + [r])[..|replies|] == replies;
  }

  /** What has happened to the project: a resolve job has been answered, or the project has been released. */
  datatype Event = Resolved(valid: bool) | Released

  /** Neither running nor waiting any more; such a fate is final. */
  predicate Decided(f: Fate) {
    f != Active && f != Waiting
  }

  ghost predicate AnswersMatch(replies: seq<Reply>, received: seq<Kind>, fates: seq<Fate>) {
    && (forall k :: 0 <= k < |replies| ==>
          replies[k].request < |received| && replies[k].kind == received[replies[k].request])
    && (forall i :: 0 <= i < |fates| ==> Answers(replies, i) == if fates[i] == Answered then 1 else 0)
    && (forall i :: i >= |fates| ==> Answers(replies, i) == 0)
  }

  /** The fates of all requests, of which `active` has a job and `waiting` waits for one. */
  ghost predicate FatesMatch(received: seq<Kind>, fates: seq<Fate>, active: Option<nat>, waiting: Option<nat>) {
    && |fates| == |received|
    && (forall i :: 0 <= i < |fates| ==> (fates[i] == Active <==> active == Some(i)))
    && (forall i :: 0 <= i < |fates| ==> (fates[i] == Waiting <==> waiting == Some(i)))
    && (forall i :: 0 <= i < |fates| && fates[i].Superseded? ==>
          i < fates[i].later < |fates| && received[i] == received[fates[i].later] == Resolve)
    && (forall i :: 0 <= i < |fates| && fates[i] == DroppedByCancel ==> received[i] == Resolve)
  }

  function Dropped(fates: seq<Fate>, request: Option<nat>, fate: Fate): (r: seq<Fate>)
    ensures |r| == |fates|
  {
    if request.Some? && request.value < |fates| then fates[request.value := fate] else fates
  }

  /** Dropping all requests that are not decided. */
  lemma AllDropped(replies: seq<Reply>, received: seq<Kind>, fates: seq<Fate>, active: Option<nat>,
      waiting: Option<nat>, fate: Fate)
    requires FatesMatch(received, fates, active, waiting) && AnswersMatch(replies, received, fates)
    requires fate == DroppedByRelease || fate == DroppedByQuit
    ensures var f := Dropped(Dropped(fates, active, fate), waiting, fate);
            && FatesMatch(received, f, None, None) && AnswersMatch(replies, received, f)
            && f == Dropped(Dropped(fates, waiting, fate), active, fate)
            && forall i :: 0 <= i < |fates| ==> f[i] == if Decided(fates[i]) then fates[i] else fate
  {
    hide Answers;
  }

  function Replaced(fates: seq<Fate>, waiting: Option<nat>): (r: seq<Fate>)
    requires waiting.Some? ==> waiting.value < |fates|
  {
    if waiting.Some? then (fates + [Waiting])[waiting.value := Superseded(|fates|)] else fates + [Waiting]
  }

  /** A resolve request arrives and waits in the place of the one that waited. */
  lemma WaitMatches(received: seq<Kind>, fates: seq<Fate>, active: Option<nat>, waiting: Option<nat>)
    requires FatesMatch(received, fates, active, waiting)
    requires active.Some? ==> active.value < |received|
    requires waiting.Some? ==> waiting.value < |received| && received[waiting.value] == Resolve
    ensures FatesMatch(received + [Resolve], Replaced(fates, waiting), active, Some(|fates|))
    ensures |fates| == |received|
    ensures waiting.Some? ==> Replaced(fates, waiting) == fates[waiting.value := Superseded(|fates|)] + [Waiting]
  {}

  lemma AnswersWait(replies: seq<Reply>, received: seq<Kind>, fates: seq<Fate>, active: Option<nat>,
      waiting: Option<nat>)
    requires FatesMatch(received, fates, active, waiting) && AnswersMatch(replies, received, fates)
    requires waiting.Some? ==> waiting.value < |received|
    ensures AnswersMatch(replies, received + [Resolve], Replaced(fates, waiting))
  {
    hide Answers;
  }

  class Session {
    var currentJob: Job?
    var resolveRequest: Option<nat>
    var projectIsValid: bool
    var quitting: bool
    /** The replies sent. */
    var replies: seq<Reply>
    /** The kinds of all requests that have arrived. */
    ghost var received: seq<Kind>
    ghost var fates: seq<Fate>
    ghost var jobs: set<Job>
    /** All that has happened to the project. */
    ghost var history: seq<Event>

    /** A stored resolve request waits for a resolve job that is being cancelled. */
    ghost predicate WaitsForCancel()
      reads this, currentJob
    {
      resolveRequest.Some? && !quitting ==>
        && currentJob != null && currentJob.kind == Resolve && currentJob.state == Canceling
        && currentJob.request < resolveRequest.value
    }

    ghost predicate JobsOk()
      reads this, jobs
    {
      && (currentJob != null ==>
            && currentJob in jobs && currentJob.request < |received| && currentJob.kind == received[currentJob.request]
            && (currentJob.connected <==> !quitting) && (!quitting ==> currentJob.state != Finished))
      && (forall j :: j in jobs && j.connected ==> j == currentJob)
    }

    /** Every request has exactly one fate, and what the session holds agrees with it. */
    ghost predicate FatesOk()
      reads this, currentJob
    {
      && FatesMatch(received, fates, ActiveRequest(), WaitingRequest())
      && (resolveRequest.Some? ==> resolveRequest.value < |received| && received[resolveRequest.value] == Resolve)
    }

    ghost function ActiveRequest(): Option<nat>
      reads this, currentJob
    {
      if quitting || currentJob == null then None else Some(currentJob.request)
    }

    ghost function WaitingRequest(): Option<nat>
      reads this
    {
      if quitting then None else resolveRequest
    }

    /** A request has been answered once if that is its fate, and not at all otherwise. */
    ghost predicate RepliesOk()
      reads this
    {
      AnswersMatch(replies, received, fates)
    }

    /** The project is valid when the last thing that happened to it was a resolve job that made it so. */
    ghost predicate ProjectOk()
      reads this`projectIsValid, this`history
    {
      projectIsValid == (history != [] && history[|history| - 1] == Resolved(true))
    }

    ghost predicate Valid()
      reads this, jobs, currentJob
    {
      WaitsForCancel() && JobsOk() && FatesOk() && RepliesOk() && ProjectOk()
    }

    constructor ()
      ensures Valid() && received == [] && replies == [] && currentJob == null && !quitting
      ensures jobs == {} && history == []
    {
      currentJob := null;
      resolveRequest := None;
      projectIsValid := false;
      quitting := false;
      replies := [];
      received := [];
      fates := [];
      jobs := {};
      history := [];
    }

    /** A request arrives; what is to become of it is up to its handler. */
    ghost method Arrive(kind: Kind, fate: Fate) returns (request: nat)
      requires |fates| == |received|
      modifies this`received, this`fates
      ensures request == |old(received)| && received == old(received) + [kind] && fates == old(fates) + [fate]
    {
      request := |received|;
      received := received + [kind];
      fates := fates + [fate];
    }

    method SendReply(kind: Kind, request: nat, failed: bool)
      modifies this`replies
      ensures replies == old(replies) + [Reply(kind, request, failed)]
      ensures forall i :: Answers(replies, i) == Answers(old(replies), i) + if i == request then 1 else 0
    {
      forall i
        ensures Answers(replies + [Reply(kind, request, failed)], i) == Answers(replies,
            i) + if i == request then 1 else 0
      {
        OneMoreAnswer(replies, Reply(kind, request, failed), i);
      }
      replies := replies + [Reply(kind, request, failed)];
    }

    method StartJob(kind: Kind, request: nat)
      modifies this`currentJob, this`jobs
      ensures currentJob != null && fresh(currentJob) && jobs == old(jobs) + {currentJob}
      ensures currentJob.kind == kind && currentJob.request == request && currentJob.state == Running
          && currentJob.connected
    {
      var job := new Job(kind, request);
      currentJob := job;
      jobs := jobs + {job};
    }

    /** An error reply right away. */
    method Refuse(kind: Kind, request: nat)
      requires Valid() && !quitting && request == |received|
      modifies this`received, this`fates, this`replies
      ensures Valid() && received == old(received) + [kind] && fates == old(fates) + [Answered]
      ensures replies == old(replies) + [Reply(kind, request, true)]
    {
      hide Answers;
      ghost var r := Arrive(kind, Answered);
      SendReply(kind, request, true);
    }

    /** A job for the request. */
    method Begin(kind: Kind, request: nat)
      requires Valid() && !quitting && request == |received| && currentJob == null
      modifies this`received, this`fates, this`currentJob, this`jobs
      ensures Valid() && received == old(received) + [kind] && fates == old(fates) + [Active]
      ensures currentJob != null && fresh(currentJob) && currentJob.request == request
      ensures currentJob.kind == kind && currentJob.state == Running
    {
      hide Answers;
      ghost var r := Arrive(kind, Active);
      StartJob(kind, request);
    }

    /** The request waits; one that waited before is forgotten. */
    method Wait(request: nat)
      requires Valid() && !quitting && request == |received|
      requires currentJob != null && currentJob.kind == Resolve && currentJob.state == Canceling
      modifies this`received, this`fates, this`resolveRequest
      ensures Valid() && received == old(received) + [Resolve]
      ensures |old(fates)| == |old(received)|
      ensures old(resolveRequest).Some? ==> old(resolveRequest).value < |old(fates)|
      ensures old(resolveRequest) == None ==> fates == old(fates) + [Waiting]
      ensures old(resolveRequest).Some? ==>
                fates == old(fates)[old(resolveRequest).value := Superseded(request)] + [Waiting]
      ensures resolveRequest == Some(request)
    {
      hide AnswersMatch, FatesMatch;
      WaitMatches(received, fates, ActiveRequest(), WaitingRequest());
      AnswersWait(replies, received, fates, ActiveRequest(), WaitingRequest());
      ghost var r := Arrive(Resolve, Waiting);
      if resolveRequest.Some? {
        fates := fates[resolveRequest.value := Superseded(request)];
      }
      resolveRequest := Some(request);
    }

    /** `setupProject`, for a request that has just arrived; `request` is its number. */
    method SetupProject(request: nat)
      requires Valid() && !quitting && request == |received|
      modifies this
      ensures Valid() && !quitting && received == old(received) + [Resolve]
      ensures forall i :: 0 <= i < |old(fates)| && Decided(old(fates[i])) ==> fates[i] == old(fates[i])
      ensures fates[request] ==
              if old(currentJob == null) then Active
              else if old(currentJob.kind == Resolve && currentJob.state == Canceling) then Waiting
              else Answered
      ensures replies == old(replies) + if fates[request] == Answered then [Reply(Resolve, request, true)] else []
      ensures old(currentJob) != null ==> currentJob == old(currentJob)
      ensures old(currentJob) == null ==>
                currentJob != null && currentJob.kind == Resolve && currentJob.request == request
                && currentJob.state == Running
      ensures resolveRequest == if fates[request] == Waiting then Some(request) else old(resolveRequest)
      ensures projectIsValid == old(projectIsValid) && history == old(history)
    {
      hide Answers, JobsOk, RepliesOk;
      if currentJob != null {
        if currentJob.kind == Resolve && currentJob.state == Canceling {
          Wait(request);
          return;
        }
        Refuse(Resolve, request);
        return;
      }
      Begin(Resolve, request);
    }

    /** `buildProject`, `cleanProject` and `installProject`, up to the start of the job. */
    method StartNormalJob(kind: Kind, request: nat)
      requires Valid() && !quitting && request == |received| && kind != Resolve
      modifies this
      ensures Valid() && !quitting && received == old(received) + [kind]
      ensures forall i :: 0 <= i < |old(fates)| ==> fates[i] == old(fates[i])
      ensures fates[request] ==
              if old(currentJob == null && history != [] && history[|history| - 1] == Resolved(true)) then Active
              else Answered
      ensures replies == old(replies) + if fates[request] == Answered then [Reply(kind, request, true)] else []
      ensures fates[request] == Active ==>
                currentJob != null && currentJob.kind == kind && currentJob.request == request
                && currentJob.state == Running
      ensures fates[request] != Active ==> currentJob == old(currentJob)
      ensures resolveRequest == old(resolveRequest)
      ensures projectIsValid == old(projectIsValid) && history == old(history)
    {
      hide Answers, JobsOk, RepliesOk;
      if currentJob != null || !projectIsValid {
        Refuse(kind, request);
        return;
      }
      Begin(kind, request);
    }

    /** `cancelCurrentJob` */
    method CancelCurrentJob()
      requires Valid() && !quitting
      modifies this, currentJob
      ensures Valid() && !quitting && received == old(received) && resolveRequest == None
      ensures forall i :: 0 <= i < |fates| ==>
                            fates[i] == if old(fates[i]) == Waiting then DroppedByCancel else old(fates[i])
      ensures currentJob == old(currentJob) && replies == old(replies)
      ensures currentJob != null ==> currentJob.state == Canceling && currentJob.connected == old(currentJob.connected)
      ensures projectIsValid == old(projectIsValid) && history == old(history)
    {
      hide Answers;
      if currentJob != null {
        if resolveRequest.Some? {
          fates := fates[resolveRequest.value := DroppedByCancel];
          resolveRequest := None;
        }
        currentJob.Cancel();
      }
    }

    /** `releaseProject`; answers whether there was a project to release. */
    method ReleaseProject() returns (released: bool)
      requires Valid() && !quitting
      modifies this, currentJob
      ensures Valid() && !quitting && received == old(received) && released == old(projectIsValid)
      ensures replies == old(replies)
      ensures history == old(history) + if released then [Released] else []
      ensures !released ==>
                && fates == old(fates) && currentJob == old(currentJob) && resolveRequest == old(resolveRequest)
                && !projectIsValid && (currentJob != null ==> unchanged(currentJob))
      ensures released ==>
                && currentJob == null && resolveRequest == None && !projectIsValid
                && forall i :: 0 <= i < |fates| ==>
                     fates[i] == if Decided(old(fates[i])) then old(fates[i]) else DroppedByRelease
      ensures released && old(currentJob) != null ==> !old(currentJob).connected && old(currentJob).state != Running
    {
      hide Answers, FatesMatch, AnswersMatch;
      if !projectIsValid {
        return false;
      }
      AllDropped(replies, received, fates, ActiveRequest(), WaitingRequest(), DroppedByRelease);
      if currentJob != null {
        currentJob.connected := false;
        currentJob.Cancel();
        fates := Dropped(fates, Some(currentJob.request), DroppedByRelease);
        currentJob := null;
      }
      projectIsValid := false;
      history := history + [Released];
      if resolveRequest.Some? {
        fates := Dropped(fates, resolveRequest, DroppedByRelease);
        resolveRequest := None;
      }
      released := true;
    }

    /** `quitSession`; no more requests are read, and a running job is only waited for. */
    method QuitSession() returns (quitNow: bool)
      requires Valid() && !quitting
      modifies this, currentJob
      ensures Valid() && quitting && received == old(received) && replies == old(replies)
      ensures quitNow == (currentJob == null)
      ensures forall i :: 0 <= i < |fates| ==>
                            fates[i] == if Decided(old(fates[i])) then old(fates[i]) else DroppedByQuit
      ensures currentJob == old(currentJob) && resolveRequest == old(resolveRequest)
      ensures currentJob != null ==> !currentJob.connected && currentJob.state != Running
      ensures projectIsValid == old(projectIsValid) && history == old(history)
    {
      hide Answers, FatesMatch, AnswersMatch;
      AllDropped(replies, received, fates, ActiveRequest(), WaitingRequest(), DroppedByQuit);
      quitting := true;
      if resolveRequest.Some? {
        fates := Dropped(fates, resolveRequest, DroppedByQuit);
      }
      if currentJob != null {
        fates := Dropped(fates, Some(currentJob.request), DroppedByQuit);
        currentJob.connected := false;
        currentJob.Cancel();
        quitNow := false;
      } else {
        quitNow := true;
      }
    }

    /**
      A job ends, successfully or not; after a resolve job the project is valid or not. The
      session hears of it only when it still listens.
     */
    method JobEnds(job: Job, success: bool, valid: bool)
      requires Valid() && job in jobs && job.state != Finished
      modifies this, job
      ensures Valid() && received == old(received) && quitting == old(quitting) && job.state == Finished
      ensures !old(job.connected) ==>
                && fates == old(fates) && replies == old(replies) && currentJob == old(currentJob)
                && resolveRequest == old(resolveRequest)
      ensures old(job.connected) ==>
                && job.request < |fates|
                && fates[job.request] ==
                   (if old(resolveRequest).Some? then Superseded(old(resolveRequest).value) else Answered)
                && (if old(resolveRequest).Some? then
                      currentJob != null && fresh(currentJob) && currentJob.request == old(resolveRequest).value
                      && currentJob.kind == Resolve && currentJob.state == Running
                      && resolveRequest == None && replies == old(replies)
                    else currentJob == null && replies == old(replies) + [Reply(job.kind, job.request, !success)])
      ensures if old(job.connected) && job.kind == Resolve && old(resolveRequest) == None then
                projectIsValid == valid && history == old(history) + [Resolved(valid)]
              else projectIsValid == old(projectIsValid) && history == old(history)
      ensures forall i :: 0 <= i < |fates| && Decided(old(fates[i])) ==> fates[i] == old(fates[i])
    {
      hide Answers, RepliesOk, FatesOk;
      if !job.connected {
        EndUnheard(job);
        return;
      }
      CurrentJobIs(job);
      if job.kind == Resolve && resolveRequest.Some? {
        Supersede(job);
      } else {
        Answer(job, success, valid);
      }
    }

    lemma CurrentJobIs(job: Job)
      requires Valid() && job in jobs && job.connected
      ensures job == currentJob && !quitting && job.request < |fates| == |received|
      ensures resolveRequest.Some? ==> job.kind == Resolve && job.request < resolveRequest.value < |fates|
      ensures fates[job.request] == Active && (resolveRequest.Some? ==> fates[resolveRequest.value] == Waiting)
    {}

    /** A job the session does not listen to any more. */
    method EndUnheard(job: Job)
      requires Valid() && job in jobs && !job.connected
      modifies job`state
      ensures Valid() && job.state == Finished
    {
      hide Answers;
      job.state := Finished;
    }

    /** The end of a cancelled resolve job that was superseded: no reply, and the stored request's turn. */
    method Supersede(job: Job)
      requires Valid() && job == currentJob && job.connected && !quitting && resolveRequest.Some?
      requires job.state != Finished
      modifies this`resolveRequest, this`currentJob, this`fates, this`jobs, job
      ensures Valid() && job.state == Finished && resolveRequest == None
      ensures currentJob != null && fresh(currentJob) && currentJob.request == old(resolveRequest).value
      ensures currentJob.kind == Resolve && currentJob.state == Running
      ensures job.request < |old(fates)| && old(resolveRequest).value < |old(fates)|
      ensures var later := old(resolveRequest).value;
              fates == old(fates)[job.request := Superseded(later)][later := Active]
    {
      hide Answers;
      job.state := Finished;
      job.connected := false;
      var newRequest := resolveRequest.value;
      resolveRequest := None;
      currentJob := null;
      fates := fates[job.request := Superseded(newRequest)][newRequest := Active];
      StartJob(Resolve, newRequest);
    }

    /** The end of any other job: its reply. */
    method Answer(job: Job, success: bool, valid: bool)
      requires Valid() && job == currentJob && job.connected && !quitting && resolveRequest == None
      requires job.state != Finished
      modifies this`currentJob, this`fates, this`replies, this`projectIsValid, this`history, job
      ensures Valid() && job.state == Finished && currentJob == null
      ensures job.request < |old(fates)| && fates == old(fates)[job.request := Answered]
      ensures replies == old(replies) + [Reply(job.kind, job.request, !success)]
      ensures if job.kind == Resolve then projectIsValid == valid && history == old(history) + [Resolved(valid)]
              else projectIsValid == old(projectIsValid) && history == old(history)
    {
      hide Answers;
      job.state := Finished;
      job.connected := false;
      if job.kind == Resolve {
        projectIsValid := valid;
        history := history + [Resolved(valid)];
      }
      fates := fates[job.request := Answered];
      SendReply(job.kind, job.request, !success);
      currentJob := null;
    }
  }

  /** With no job left, every request has been answered, superseded or dropped. */
  lemma NothingIsForgotten(s: Session)
    requires s.Valid() && s.currentJob == null
    ensures forall i :: 0 <= i < |s.fates| ==> Decided(s.fates[i])
    ensures forall i :: 0 <= i < |s.fates| && s.fates[i] == Answered ==> Answers(s.replies, i) == 1
  {}

  // ---------------------------------------------------------------------
  // Conservation
  // ---------------------------------------------------------------------

  /** How many of the first `n` requests are of this kind and have a fate that `f` accepts. */
  function CountFates(received: seq<Kind>, fates: seq<Fate>, n: nat, kind: Kind, f: Fate -> bool): nat
    requires n <= |received| == |fates|
  {
    if n == 0 then 0
    else CountFates(received, fates, n - 1, kind, f) + if received[n - 1] == kind && f(fates[n - 1]) then 1 else 0
  }

  function CountReplies(replies: seq<Reply>, kind: Kind): nat {
    if replies == [] then 0
    else CountReplies(replies[..|replies| - 1], kind) + if replies[|replies| - 1].kind == kind then 1 else 0
  }

  /** Replies of a kind, counted request by request. */
  function SumOfAnswers(received: seq<Kind>, replies: seq<Reply>, n: nat, kind: Kind): nat
    requires n <= |received|
  {
    if n == 0 then 0
    else SumOfAnswers(received, replies, n - 1, kind) + if received[n - 1] == kind then Answers(replies, n - 1) else 0
  }

  lemma {:induction false} OneReplyMore(received: seq<Kind>, replies: seq<Reply>, r: Reply, n: nat, kind: Kind)
    requires n <= |received|
    ensures SumOfAnswers(received, replies + [r], n, kind) ==
            SumOfAnswers(received, replies, n, kind) + if r.request < n && received[r.request] == kind then 1 else 0
    decreases n
  {
    if n > 0 {
      OneReplyMore(received, replies, r, n - 1, kind);
      OneMoreAnswer(replies, r, n - 1);
    }
  }

  lemma {:induction false} NoReplies(received: seq<Kind>, n: nat, kind: Kind)
    requires n <= |received|
    ensures SumOfAnswers(received, [], n, kind) == 0
    decreases n
  {
    if n > 0 {
      NoReplies(received, n - 1, kind);
    }
  }

  lemma {:induction false} RepliesByRequest(received: seq<Kind>, replies: seq<Reply>, kind: Kind)
    requires forall k :: 0 <= k < |replies| ==>
                           replies[k].request < |received| && replies[k].kind == received[replies[k].request]
    ensures CountReplies(replies, kind) == SumOfAnswers(received, replies, |received|, kind)
    decreases |replies|
  {
    if replies == [] {
      NoReplies(received, |received|, kind);
    } else {
      var before, last := replies[..|replies| - 1], replies[|replies| - 1];
      RepliesByRequest(received, before, kind);
      OneReplyMore(received, before, last, |received|, kind);
      assert before + [last] == replies;
    }
  }

  lemma {:induction false} AnsweredOnce(received: seq<Kind>, fates: seq<Fate>, replies: seq<Reply>, n: nat, kind: Kind)
    requires n <= |received| == |fates|
    requires forall i :: 0 <= i < n ==> Answers(replies, i) == if fates[i] == Answered then 1 else 0
    ensures SumOfAnswers(received, replies, n, kind) == CountFates(received, fates, n, kind, f => f == Answered)
    decreases n
  {
    if n > 0 {
      AnsweredOnce(received, fates, replies, n - 1, kind);
    }
  }

  lemma {:induction false} EveryFate(received: seq<Kind>, fates: seq<Fate>, n: nat, kind: Kind)
    requires n <= |received| == |fates|
    ensures CountFates(received, fates, n, kind, f => true) ==
            CountFates(received, fates, n, kind, f => f == Answered)
            + CountFates(received, fates, n, kind, f => f == Active)
            + CountFates(received, fates, n, kind, f => f == Waiting)
            + CountFates(received, fates, n, kind, (f: Fate) => f.Superseded?)
            + CountFates(received, fates, n, kind, f => f == DroppedByCancel)
            + CountFates(received, fates, n, kind, f => f == DroppedByRelease || f == DroppedByQuit)
    decreases n
  {
    if n > 0 {
      EveryFate(received, fates, n - 1, kind);
    }
  }

  /**
    Of every kind, the requests received are the replies sent, plus those with a running
    job, plus those waiting, plus those superseded and those dropped by cancel, by release
    or by quit.
   */
  lemma RequestsConserved(s: Session, kind: Kind)
    requires s.Valid()
    ensures |s.fates| == |s.received|
    ensures var n := |s.received|;
            CountFates(s.received, s.fates, n, kind, f => true) ==
            CountReplies(s.replies, kind)
            + CountFates(s.received, s.fates, n, kind, f => f == Active)
            + CountFates(s.received, s.fates, n, kind, f => f == Waiting)
            + CountFates(s.received, s.fates, n, kind, (f: Fate) => f.Superseded?)
            + CountFates(s.received, s.fates, n, kind, f => f == DroppedByCancel)
            + CountFates(s.received, s.fates, n, kind, f => f == DroppedByRelease || f == DroppedByQuit)
  {
    hide CountFates, Answers;
    EveryFate(s.received, s.fates, |s.received|, kind);
    AnsweredOnce(s.received, s.fates, s.replies, |s.received|, kind);
    RepliesByRequest(s.received, s.replies, kind);
  }
}
