/**
 The mutex and condition-variable protocol of thread-pool/thread-pool.c.

 A step is one stretch of code between taking and releasing `job_mutex` (a wait on a condition
 variable releases it), or a job running outside the mutex.  `State` is everything the threads
 share plus the place where each thread is; `accepted`, `taken` and `finished` are history.
 Wakeups come from broadcasts only; what wakeups that nobody caused do is proved at the end.
 */
module ThreadPool {

  /** A function pointer and its context; `fn == 0` is NULL, which is queued and taken like any job. */
  datatype Job = Job(fn: int, ctx: int)

  /** Ready: about to take the mutex; Parked: in `pthread_cond_wait(job_semaphore)`, not yet woken. */
  datatype Worker = Ready | Parked | Running(job: Job) | Exited

  /** Waiting: in `pthread_cond_wait(job_end_semaphore)`; Signalled: woken, mutex not yet retaken. */
  datatype Stopper = Idle | Waiting | Signalled | Joining | Done

  datatype State = State(
    queue: seq<Job>, run: bool, allow: bool,
    workers: seq<Worker>, stopper: Stopper, wait: bool,
    accepted: seq<Job>, taken: seq<Job>, finished: multiset<Job>)

  datatype Label = Post(job: Job) | Turn(i: nat) | Finish(i: nat) | Stop(wait: bool) | Resume | Join

  // ---------- the steps ----------

  /** `thread_pool_init` with `n` workers */
  ghost predicate Init(s: State) {
    && s.queue == [] && s.run && s.allow && s.stopper == Idle
    && (forall i :: 0 <= i < |s.workers| ==> s.workers[i] == Ready)
    && s.accepted == [] && s.taken == [] && s.finished == multiset{}
  }

  /** `pthread_cond_broadcast(&tp->job_semaphore)` */
  function WakeAll(ws: seq<Worker>): (r: seq<Worker>)
    ensures |r| == |ws|
    ensures forall i :: 0 <= i < |ws| ==> r[i] == if ws[i] == Parked then Ready else ws[i]
  {
    seq(|ws|, i requires 0 <= i < |ws| => if ws[i] == Parked then Ready else ws[i])
  }

  predicate Enabled(s: State, l: Label) {
    match l
    case Post(_) => s.stopper != Done
    case Turn(i) => i < |s.workers| && s.workers[i] == Ready
    case Finish(i) => i < |s.workers| && s.workers[i].Running?
    case Stop(_) => s.stopper == Idle
    case Resume => s.stopper == Signalled
    case Join => s.stopper == Joining && forall i :: 0 <= i < |s.workers| ==> s.workers[i] == Exited
  }

  function Step(s: State, l: Label): State
    requires Enabled(s, l)
  {
    match l
    case Post(job) =>
      if s.allow then s.(queue := s.queue + [job], accepted := s.accepted + [job], workers := WakeAll(s.workers)) else s
    case Turn(i) => TurnOf(s, i)
    case Finish(i) =>
      s.(finished := s.finished + multiset{s.workers[i].job}, workers := s.workers[i := Ready])
    case Stop(wait) =>
      var t := s.(run := wait, allow := false, wait := wait, workers := WakeAll(s.workers));
      if wait && s.queue != [] then t.(stopper := Waiting) else t.(run := false, stopper := Joining)
    case Resume => s.(run := false, workers := WakeAll(s.workers), stopper := Joining)
    case Join => s.(stopper := Done)
  }

  /** One turn of `worker_tpl` under the mutex: park, leave, or take the first job. */
  function TurnOf(s: State, i: nat): State
    requires i < |s.workers|
  {
    if s.run && s.allow && s.queue == [] then s.(workers := s.workers[i := Parked])
    else if !s.run then s.(workers := s.workers[i := Exited])
    else if s.queue == [] then s.(workers := s.workers[i := Exited])
    else
      s.(queue := s.queue[1..], taken := s.taken + [s.queue[0]], workers := s.workers[i := Running(s.queue[0])],
         stopper := if |s.queue| == 1 && s.stopper == Waiting then Signalled else s.stopper)
  }

  ghost predicate IsRun(s: State, ls: seq<Label>, s': State)
    decreases |ls|
  {
    if ls == [] then s' == s else Enabled(s, ls[0]) && IsRun(Step(s, ls[0]), ls[1..], s')
  }

  // ---------- what every step keeps ----------

  function Holds(w: Worker, job: Job): nat {
    if w == Running(job) then 1 else 0
  }

  /** How many workers are running `job`. */
  function Holders(ws: seq<Worker>, job: Job): nat {
    if ws == [] then 0 else Holds(ws[0], job) + Holders(ws[1..], job)
  }

  ghost predicate NoneExited(s: State) {
    forall i :: 0 <= i < |s.workers| ==> s.workers[i] != Exited
  }

  /** First in, first out, nothing lost or repeated. */
  ghost predicate Fifo(s: State) {
    s.taken + s.queue == s.accepted
  }

  /** What was taken has finished or is running. */
  ghost predicate Accounted(s: State) {
    forall job :: multiset(s.taken)[job] == s.finished[job] + Holders(s.workers, job)
  }

  /** No worker sleeps while there is something to do, and the stopper only sleeps while a worker will wake it. */
  ghost predicate NoLostWakeup(s: State) {
    && (forall i :: 0 <= i < |s.workers| && s.workers[i] == Parked ==> s.queue == [] && s.run && s.allow)
    && (s.stopper == Idle ==> s.run && s.allow && NoneExited(s))
    && (s.stopper == Waiting ==> s.queue != [] && s.run && !s.allow && s.wait && NoneExited(s))
    && (s.stopper == Signalled ==> s.queue == [] && s.run && !s.allow && s.wait)
    && (s.stopper == Joining || s.stopper == Done ==> !s.run && !s.allow && (s.wait ==> s.queue == []))
    && (s.stopper == Done ==> forall i :: 0 <= i < |s.workers| ==> s.workers[i] == Exited)
  }

  ghost predicate Inv(s: State) {
    Fifo(s) && Accounted(s) && NoLostWakeup(s)
  }

  lemma {:induction false} HoldersAfterUpdate(ws: seq<Worker>, i: nat, w: Worker, job: Job)
    requires i < |ws|
    ensures Holders(ws[i := w], job) + Holds(ws[i], job) == Holders(ws, job) + Holds(w, job)
  {
    if i == 0 {
      assert ws[i := w][1..] == ws[1..];
    } else {
      assert ws[i := w][1..] == ws[1..][i - 1 := w];
      HoldersAfterUpdate(ws[1..], i - 1, w, job);
    }
  }

  lemma {:induction false} HoldersAfterWake(ws: seq<Worker>, job: Job)
    ensures Holders(WakeAll(ws), job) == Holders(ws, job)
  {
    if ws != [] {
      assert WakeAll(ws)[1..] == WakeAll(ws[1..]);
      assert WakeAll(ws)[0] == if ws[0] == Parked then Ready else ws[0];
      HoldersAfterWake(ws[1..], job);
    }
  }

  lemma {:induction false} StepKeepsFifo(s: State, l: Label)
    requires Fifo(s) && Enabled(s, l)
    ensures Fifo(Step(s, l))
  {
    if l.Post? {
      assert s.taken + (s.queue + [l.job]) == (s.taken + s.queue) + [l.job];
    } else if l.Turn? && s.queue != [] {
      assert s.taken + s.queue == (s.taken + [s.queue[0]]) + s.queue[1..];
    }
  }

  lemma {:induction false} TurnAccounts(s: State, i: nat, job: Job)
    requires i < |s.workers| && s.workers[i] == Ready
    requires multiset(s.taken)[job] == s.finished[job] + Holders(s.workers, job)
    ensures var t := TurnOf(s, i); multiset(t.taken)[job] == t.finished[job] + Holders(t.workers, job)
  {
    var t := TurnOf(s, i);
    HoldersAfterUpdate(s.workers, i, t.workers[i], job);
    if t.workers[i].Running? {
      assert multiset(t.taken) == multiset(s.taken) + multiset{s.queue[0]};
    }
  }

  lemma {:induction false} StepKeepsAccounted(s: State, l: Label)
    requires Accounted(s) && Enabled(s, l)
    ensures Accounted(Step(s, l))
  {
    var t := Step(s, l);
    forall job: Job ensures multiset(t.taken)[job] == t.finished[job] + Holders(t.workers, job) {
      match l
      case Turn(i) => TurnAccounts(s, i, job);
      case Finish(i) => HoldersAfterUpdate(s.workers, i, Ready, job);
      case _ => HoldersAfterWake(s.workers, job);
    }
  }

  lemma {:induction false} StepKeepsWakeups(s: State, l: Label)
    requires NoLostWakeup(s) && Enabled(s, l)
    ensures NoLostWakeup(Step(s, l))
  {
  }

  lemma {:induction false} RunKeepsInv(s: State, ls: seq<Label>, s': State)
    requires Inv(s) && IsRun(s, ls, s')
    ensures Inv(s') && |s'.workers| == |s.workers|
    decreases |ls|
  {
    if ls != [] {
      StepKeepsFifo(s, ls[0]);
      StepKeepsAccounted(s, ls[0]);
      StepKeepsWakeups(s, ls[0]);
      RunKeepsInv(Step(s, ls[0]), ls[1..], s');
    }
  }

  lemma {:induction false} InitInv(s: State)
    requires Init(s)
    ensures Inv(s)
  {
    forall job: Job ensures Holders(s.workers, job) == 0 { NoHolders(s.workers, job); }
  }

  lemma {:induction false} NoHolders(ws: seq<Worker>, job: Job)
    requires forall i :: 0 <= i < |ws| ==> !ws[i].Running?
    ensures Holders(ws, job) == 0
  {
    if ws != [] { NoHolders(ws[1..], job); }
  }

  // ---------- what the callers asked for ----------

  /** The jobs that callers posted before they asked the pool to stop, in order. */
  function Posted(ls: seq<Label>): seq<Job> {
    if ls == [] || ls[0].Stop? then []
    else (if ls[0].Post? then [ls[0].job] else []) + Posted(ls[1..])
  }

  /** The pool is open until somebody stops it. */
  ghost predicate OpenUntilStopped(s: State) {
    s.stopper == Idle <==> s.allow
  }

  lemma StepAsked(s: State, l: Label)
    requires OpenUntilStopped(s) && Enabled(s, l)
    ensures var t := Step(s, l);
      && OpenUntilStopped(t)
      && t.accepted == s.accepted + (if s.allow && l.Post? then [l.job] else [])
      && (l.Stop? ==> s.allow && !t.allow && t.wait == l.wait)
      && (!l.Stop? ==> t.allow == s.allow && t.wait == s.wait)
  {
  }

  lemma Regroup(a: seq<Job>, b: seq<Job>, c: seq<Job>)
    ensures (a + b) + c == a + (b + c)
  {
  }

  /** Every job posted to an open pool is accepted, in order; to a closed one, nothing. */
  lemma {:induction false} AcceptedIsPosted(s: State, ls: seq<Label>, s': State)
    requires OpenUntilStopped(s) && IsRun(s, ls, s')
    ensures OpenUntilStopped(s') && s'.accepted == s.accepted + if s.allow then Posted(ls) else []
    decreases |ls|
  {
    if ls != [] {
      var t := Step(s, ls[0]);
      StepAsked(s, ls[0]);
      AcceptedIsPosted(t, ls[1..], s');
      if s.allow && !ls[0].Stop? {
        Regroup(s.accepted, if ls[0].Post? then [ls[0].job] else [], Posted(ls[1..]));
      }
    }
  }

  lemma {:induction false} AcceptedFromStart(s: State, ls: seq<Label>, s': State)
    requires Init(s) && IsRun(s, ls, s')
    ensures s'.accepted == Posted(ls)
  {
    AcceptedIsPosted(s, ls, s');
  }

  /** The pool drains exactly when that was asked for. */
  lemma {:induction false} WaitIsAsked(s: State, ls: seq<Label>, s': State)
    requires OpenUntilStopped(s) && IsRun(s, ls, s')
    ensures OpenUntilStopped(s')
    ensures s.allow && !s'.allow ==> (s'.wait <==> Stop(true) in ls)
    ensures !s.allow ==> !s'.allow && s'.wait == s.wait && Stop(true) !in ls
    decreases |ls|
  {
    if ls != [] {
      StepAsked(s, ls[0]);
      WaitIsAsked(Step(s, ls[0]), ls[1..], s');
      assert Stop(true) in ls <==> ls[0] == Stop(true) || Stop(true) in ls[1..];
    }
  }

  /** Callers can post and stop at any time before the pool is stopped. */
  lemma CallersMayCall(s: State, job: Job, wait: bool)
    requires s.stopper == Idle
    ensures Enabled(s, Post(job)) && Enabled(s, Stop(wait))
  {
  }

  /** After a stop that does not drain no job is taken any more: what is queued stays where it is. */
  lemma {:induction false} PlainStopTakesNothing(s: State, ls: seq<Label>, s': State)
    requires Enabled(s, Stop(false)) && IsRun(Step(s, Stop(false)), ls, s')
    ensures s'.taken == s.taken && s'.queue == s.queue
  {
    NothingTaken(Step(s, Stop(false)), ls, s');
  }

  lemma {:induction false} NothingTaken(s: State, ls: seq<Label>, s': State)
    requires !s.run && !s.allow && s.stopper != Idle && IsRun(s, ls, s')
    ensures s'.taken == s.taken && s'.queue == s.queue
    decreases |ls|
  {
    if ls != [] { NothingTaken(Step(s, ls[0]), ls[1..], s'); }
  }

  // ---------- the promises ----------

  /** At all times: jobs are taken in posting order, and what was taken and what waits is what was posted. */
  lemma {:induction false} TakenInOrder(s: State, ls: seq<Label>, s': State)
    requires Init(s) && IsRun(s, ls, s')
    ensures s'.taken + s'.queue == s'.accepted == Posted(ls)
    ensures forall job :: multiset(s'.taken)[job] == s'.finished[job] + Holders(s'.workers, job)
  {
    InitInv(s);
    RunKeepsInv(s, ls, s');
    AcceptedFromStart(s, ls, s');
  }

  /** When a draining stop has joined all workers, every job posted before it was taken, in order, and has finished. */
  lemma {:induction false} DrainingStopRunsEverything(s: State, ls: seq<Label>, s': State)
    requires Init(s) && IsRun(s, ls, s') && s'.stopper == Done && Stop(true) in ls
    ensures s'.queue == [] && s'.taken == Posted(ls) && s'.finished == multiset(Posted(ls))
  {
    InitInv(s);
    RunKeepsInv(s, ls, s');
    WaitIsAsked(s, ls, s');
    AcceptedFromStart(s, ls, s');
    forall job: Job ensures Holders(s'.workers, job) == 0 { NoHolders(s'.workers, job); }
  }

  /** Without draining, what was taken has finished and is a prefix of what was posted. */
  lemma {:induction false} PlainStopFinishesTaken(s: State, ls: seq<Label>, s': State)
    requires Init(s) && IsRun(s, ls, s') && s'.stopper == Done
    ensures s'.taken <= Posted(ls) && s'.finished == multiset(s'.taken)
  {
    InitInv(s);
    RunKeepsInv(s, ls, s');
    AcceptedFromStart(s, ls, s');
    forall job: Job ensures Holders(s'.workers, job) == 0 { NoHolders(s'.workers, job); }
  }

  /** Some step other than a post can be taken. */
  ghost predicate CanProgress(s: State) {
    exists l: Label :: !l.Post? && !l.Stop? && Enabled(s, l)
  }

  /**
   No deadlock: with a worker, nothing can be stuck while jobs wait or a stop is under way.
   */
  lemma {:induction false} NoDeadlock(s: State, ls: seq<Label>, s': State)
    requires Init(s) && IsRun(s, ls, s') && |s.workers| > 0
    requires if s'.stopper == Idle then s'.queue != [] else s'.stopper != Done
    ensures CanProgress(s')
  {
    InitInv(s);
    RunKeepsInv(s, ls, s');
    if s'.stopper == Idle {
      assert Enabled(s', Turn(0)) || Enabled(s', Finish(0));
    } else {
      StuckIsDone(s');
    }
  }

  // ---------- a stop comes to an end ----------

  function Weight(w: Worker): nat {
    match w
    case Ready => 1
    case Parked => 2
    case Running(_) => 2
    case Exited => 0
  }

  function Weights(ws: seq<Worker>): nat {
    if ws == [] then 0 else Weight(ws[0]) + Weights(ws[1..])
  }

  /** Steps still to come once a stop has begun. */
  function Remaining(s: State): nat {
    2 * |s.queue| + Weights(s.workers)
    + (match s.stopper case Idle => 4 case Waiting => 3 case Signalled => 2 case Joining => 1 case Done => 0)
  }

  lemma {:induction false} WeightsAfterUpdate(ws: seq<Worker>, i: nat, w: Worker)
    requires i < |ws|
    ensures Weights(ws[i := w]) + Weight(ws[i]) == Weights(ws) + Weight(w)
  {
    if i == 0 {
      assert ws[i := w][1..] == ws[1..];
    } else {
      assert ws[i := w][1..] == ws[1..][i - 1 := w];
      WeightsAfterUpdate(ws[1..], i - 1, w);
    }
  }

  lemma {:induction false} WeightsAfterWake(ws: seq<Worker>)
    ensures Weights(WakeAll(ws)) <= Weights(ws)
  {
    if ws != [] {
      assert WakeAll(ws)[1..] == WakeAll(ws[1..]);
      assert WakeAll(ws)[0] == if ws[0] == Parked then Ready else ws[0];
      WeightsAfterWake(ws[1..]);
    }
  }

  /** Once a stop has begun, every step but a (refused) post brings the end nearer. */
  lemma {:induction false} StepComesNearer(s: State, l: Label)
    requires Inv(s) && s.stopper != Idle && Enabled(s, l)
    ensures l.Post? ==> Step(s, l) == s
    ensures !l.Post? ==> Remaining(Step(s, l)) < Remaining(s)
  {
    match l
    case Turn(i) => WeightsAfterUpdate(s.workers, i, TurnOf(s, i).workers[i]);
    case Finish(i) => WeightsAfterUpdate(s.workers, i, Ready);
    case Resume => WeightsAfterWake(s.workers);
    case _ =>
  }

  /**
   After a stop has begun no schedule has more than `Remaining` effective steps, and one that cannot
   be continued has joined every worker.
   */
  lemma {:induction false} StopTerminates(s: State, ls: seq<Label>, s': State)
    requires Inv(s) && s.stopper != Idle && |s.workers| > 0 && IsRun(s, ls, s')
    requires forall i :: 0 <= i < |ls| ==> !ls[i].Post?
    ensures |ls| + Remaining(s') <= Remaining(s)
    ensures !CanProgress(s') ==> s'.stopper == Done
    decreases |ls|
  {
    if ls == [] {
      if s.stopper != Done { StuckIsDone(s); }
    } else {
      StepComesNearer(s, ls[0]);
      RunKeepsInv(s, [ls[0]], Step(s, ls[0]));
      StopTerminates(Step(s, ls[0]), ls[1..], s');
    }
  }

  lemma {:induction false} StuckIsDone(s: State)
    requires Inv(s) && |s.workers| > 0 && s.stopper != Idle && s.stopper != Done
    ensures CanProgress(s)
  {
    if s.stopper == Signalled {
      assert Enabled(s, Resume);
    } else if s.stopper == Joining {
      if i :| 0 <= i < |s.workers| && s.workers[i] != Exited {
        assert Enabled(s, Turn(i)) || Enabled(s, Finish(i));
      } else {
        assert Enabled(s, Join);
      }
    } else {
      assert Enabled(s, Turn(0)) || Enabled(s, Finish(0));
    }
  }

  // ---------- wakeups that no broadcast caused ----------

  /** A step of the protocol, or a condition wait that returns by itself: the stopper's, or a parked worker's. */
  datatype Event = Own(step: Label) | WakeStopper | WakeWorker(i: nat)

  predicate Possible(s: State, e: Event) {
    match e
    case Own(l) => Enabled(s, l)
    case WakeStopper => s.stopper == Waiting
    case WakeWorker(i) => i < |s.workers| && s.workers[i] == Parked
  }

  function After(s: State, e: Event): State
    requires Possible(s, e)
  {
    match e
    case Own(l) => Step(s, l)
    case WakeStopper => s.(stopper := Signalled)
    case WakeWorker(i) => s.(workers := s.workers[i := Ready])
  }

  ghost predicate IsWokenRun(s: State, es: seq<Event>, s': State)
    decreases |es|
  {
    if es == [] then s' == s else Possible(s, es[0]) && IsWokenRun(After(s, es[0]), es[1..], s')
  }

  /** A worker waits under `while`: that it wakes by itself does no harm. */
  lemma WorkerWakeupKeepsInv(s: State, i: nat)
    requires Inv(s) && i < |s.workers| && s.workers[i] == Parked
    ensures Inv(s.(workers := s.workers[i := Ready]))
  {
    var t := s.(workers := s.workers[i := Ready]);
    forall job: Job ensures multiset(t.taken)[job] == t.finished[job] + Holders(t.workers, job) {
      HoldersAfterUpdate(s.workers, i, Ready, job);
    }
  }

  lemma {:induction false} WokenRunKeepsInv(s: State, es: seq<Event>, s': State)
    requires Inv(s) && IsWokenRun(s, es, s') && WakeStopper !in es
    ensures Inv(s')
    decreases |es|
  {
    if es != [] {
      match es[0] {
        case Own(l) => RunKeepsInv(s, [l], Step(s, l));
        case WakeWorker(i) => WorkerWakeupKeepsInv(s, i);
        case WakeStopper =>
      }
      WokenRunKeepsInv(After(s, es[0]), es[1..], s');
    }
  }

  /** The labels of the protocol in a run with other wakeups */
  function Labels(es: seq<Event>): seq<Label> {
    if es == [] then [] else (if es[0].Own? then [es[0].step] else []) + Labels(es[1..])
  }

  lemma LabelsFirst(es: seq<Event>)
    requires es != []
    ensures es[0].Own? ==> Labels(es) != [] && Labels(es)[0] == es[0].step && Labels(es)[1..] == Labels(es[1..])
    ensures !es[0].Own? ==> Labels(es) == Labels(es[1..])
  {
  }

  /** Wakeups change nothing about what is accepted. */
  lemma {:induction false} WokenAcceptsPosted(s: State, es: seq<Event>, s': State)
    requires OpenUntilStopped(s) && IsWokenRun(s, es, s')
    ensures OpenUntilStopped(s') && s'.accepted == s.accepted + if s.allow then Posted(Labels(es)) else []
    decreases |es|
  {
    if es != [] {
      LabelsFirst(es);
      WokenAcceptsPosted(After(s, es[0]), es[1..], s');
      if es[0].Own? {
        StepAsked(s, es[0].step);
        if s.allow && !es[0].step.Stop? {
          Regroup(s.accepted, if es[0].step.Post? then [es[0].step.job] else [], Posted(Labels(es[1..])));
        }
      }
    }
  }

  lemma {:induction false} WokenFromStart(s: State, es: seq<Event>, s': State)
    requires Init(s) && IsWokenRun(s, es, s')
    ensures s'.accepted == Posted(Labels(es))
  {
    WokenAcceptsPosted(s, es, s');
  }

  /** Nor about how the pool was stopped. */
  lemma {:induction false} WokenWaitIsAsked(s: State, es: seq<Event>, s': State)
    requires OpenUntilStopped(s) && IsWokenRun(s, es, s')
    ensures OpenUntilStopped(s')
    ensures s.allow && !s'.allow ==> (s'.wait <==> Stop(true) in Labels(es))
    ensures !s.allow ==> !s'.allow && s'.wait == s.wait && Stop(true) !in Labels(es)
    decreases |es|
  {
    if es != [] {
      LabelsFirst(es);
      WokenWaitIsAsked(After(s, es[0]), es[1..], s');
      if es[0].Own? {
        StepAsked(s, es[0].step);
        assert Stop(true) in Labels(es) <==> es[0].step == Stop(true) || Stop(true) in Labels(es[1..]);
      }
    }
  }

  /** So a draining stop runs everything whenever workers wake, if only the stopper does not. */
  lemma {:induction false} DrainingStopWithWokenWorkers(s: State, es: seq<Event>, s': State)
    requires Init(s) && IsWokenRun(s, es, s') && WakeStopper !in es && s'.stopper == Done && Stop(true) in Labels(es)
    ensures s'.taken == Posted(Labels(es)) && s'.finished == multiset(Posted(Labels(es)))
  {
    InitInv(s);
    WokenFromStart(s, es, s');
    WokenWaitIsAsked(s, es, s');
    WokenRunKeepsInv(s, es, s');
    forall job: Job ensures Holders(s'.workers, job) == 0 { NoHolders(s'.workers, job); }
  }

  /** What survives a wakeup of the stopper. */
  ghost predicate WeakInv(s: State) {
    && Fifo(s) && Accounted(s)
    && (s.stopper == Joining || s.stopper == Done ==> !s.run && !s.allow)
    && (s.stopper == Done ==> forall i :: 0 <= i < |s.workers| ==> s.workers[i] == Exited)
    && (s.stopper == Waiting || s.stopper == Signalled ==> !s.allow)
  }

  lemma WokenStepKeepsWeakInv(s: State, e: Event)
    requires WeakInv(s) && Possible(s, e)
    ensures WeakInv(After(s, e))
  {
    match e
    case Own(l) =>
      StepKeepsFifo(s, l);
      StepKeepsAccounted(s, l);
    case WakeStopper =>
    case WakeWorker(i) =>
      forall job: Job ensures Holders(After(s, e).workers, job) == Holders(s.workers, job) {
        HoldersAfterUpdate(s.workers, i, Ready, job);
      }
  }

  ghost predicate Ending(s: State) {
    s.stopper == Joining || s.stopper == Done
  }

  lemma {:induction false} IdleForGood(s: State, es: seq<Event>, s': State)
    requires WeakInv(s) && Ending(s) && IsWokenRun(s, es, s')
    ensures WeakInv(s') && s'.queue == s.queue && s'.taken == s.taken && s'.accepted == s.accepted
    decreases |es|
  {
    if es != [] {
      WokenStepKeepsWeakInv(s, es[0]);
      IdleForGood(After(s, es[0]), es[1..], s');
    }
  }

  /** The step by which the stopper goes on to join the workers, and the state before it. */
  lemma {:induction false} GoingOn(s: State, es: seq<Event>, s': State) returns (k: nat, mid: State)
    requires WeakInv(s) && !Ending(s) && IsWokenRun(s, es, s') && Ending(s')
    ensures k < |es| && IsWokenRun(s, es[..k], mid) && !Ending(mid)
    ensures Possible(mid, es[k]) && Ending(After(mid, es[k]))
    ensures WeakInv(s') && s'.queue == mid.queue && s'.taken == mid.taken && s'.accepted == mid.accepted
    decreases |es|
  {
    WokenStepKeepsWeakInv(s, es[0]);
    var t := After(s, es[0]);
    if Ending(t) {
      IdleForGood(t, es[1..], s');
      return 0, s;
    }
    k, mid := GoingOn(t, es[1..], s');
    assert es[..k + 1][1..] == es[1..][..k];
    k := k + 1;
  }

  lemma StopperGoesOn(s: State, e: Event)
    requires !Ending(s) && Possible(s, e) && Ending(After(s, e))
    ensures e == Own(Resume) || e == Own(Stop(true)) || e == Own(Stop(false))
  {
  }

  lemma AllIffQueueEmpty(s: State)
    requires WeakInv(s) && s.stopper == Done
    ensures s.taken == s.accepted <==> s.queue == []
    ensures s.finished == multiset(s.accepted) <==> s.queue == []
  {
    forall job: Job ensures Holders(s.workers, job) == 0 { NoHolders(s.workers, job); }
    assert s.finished == multiset(s.taken);
    assert |s.accepted| == |s.taken| + |s.queue|;
    assert |multiset(s.accepted)| == |s.accepted| && |multiset(s.taken)| == |s.taken|;
  }

  /**
   The stopper's wait stands under `if`, so it goes on whatever woke it.  Over every run, with
   wakeups of any kind at any time: a stop that has ended has run every accepted job if and only if
   the queue was empty when the stopper went on, which is the test a `while` would make there.
   */
  lemma {:induction false} DrainedIffEmptyWhenGoingOn(s: State, es: seq<Event>, s': State) returns (k: nat, mid: State)
    requires Init(s) && IsWokenRun(s, es, s') && s'.stopper == Done
    ensures k < |es| && IsWokenRun(s, es[..k], mid) && !Ending(mid)
    ensures es[k] == Own(Resume) || es[k] == Own(Stop(true)) || es[k] == Own(Stop(false))
    ensures s'.taken == Posted(Labels(es)) <==> mid.queue == []
    ensures s'.finished == multiset(Posted(Labels(es))) <==> mid.queue == []
  {
    InitInv(s);
    WokenFromStart(s, es, s');
    k, mid := GoingOn(s, es, s');
    StopperGoesOn(mid, es[k]);
    AllIffQueueEmpty(s');
  }

  /** One job, one worker: after a spurious wakeup the stop ends with the accepted job never taken. */
  lemma {:induction false} SpuriousWakeupLosesJob(job: Job) returns (s: State, before: seq<Label>, mid: State, after: seq<Label>, s': State)
    ensures Init(s) && |s.workers| == 1
    ensures IsRun(s, before, mid) && mid.stopper == Waiting && mid.accepted == [job]
    ensures Possible(mid, WakeStopper) && IsRun(After(mid, WakeStopper), after, s') && s'.stopper == Done && s'.wait && s'.taken == []
  {
    s := State([], true, true, [Ready], Idle, false, [], [], multiset{});
    before := [Post(job), Stop(true)];
    var s1 := Step(s, Post(job));
    assert s1.workers == [Ready];
    mid := Step(s1, Stop(true));
    assert mid.workers == [Ready];
    assert before[1..] == [Stop(true)] && before[1..][1..] == [];
    after := [Resume, Turn(0), Join];
    var s2 := Step(After(mid, WakeStopper), Resume);
    assert s2.workers == [Ready];
    var s3 := Step(s2, Turn(0));
    s' := Step(s3, Join);
    assert after[1..] == [Turn(0), Join] && after[2..] == [Join] && after[3..] == [];
    assert IsRun(s3, [Join], s');
    assert IsRun(s2, [Turn(0), Join], s') by { assert [Turn(0), Join][1..] == [Join]; }
  }

  // ---------- the pool object ----------

  /**
   `struct thread_pool`, with the threads that run on it.  Each method is one stretch of code under
   the mutex and does what the step of its name does.
   */
  class Pool {
    var queue: seq<Job>
    var run: bool
    var allowNewJobs: bool
    var workers: seq<Worker>
    var stopper: Stopper
    ghost var wait: bool
    ghost var accepted: seq<Job>
    ghost var taken: seq<Job>
    ghost var finished: multiset<Job>

    ghost function Snapshot(): State
      reads this
    {
      State(queue, run, allowNewJobs, workers, stopper, wait, accepted, taken, finished)
    }

    /** `thread_pool_init` */
    constructor (threadCount: nat)
      ensures Init(Snapshot()) && |workers| == threadCount
    {
      queue, run, allowNewJobs := [], true, true;
      workers := seq(threadCount, _ => Ready);
      stopper := Idle;
      wait, accepted, taken, finished := false, [], [], multiset{};
    }

    /** `push_job` */
    method PushJob(job: Job)
      modifies this`queue, this`accepted
      ensures queue == old(queue) + [job] && accepted == old(accepted) + [job]
    {
      queue := queue + [job];
      accepted := accepted + [job];
    }

    /** `get_and_pop_job`: the last job taken wakes the stopper. */
    method GetAndPopJob() returns (job: Job)
      modifies this`queue, this`taken, this`stopper
      ensures old(queue) == [] ==> job == Job(0, 0) && queue == [] && taken == old(taken) && stopper == old(stopper)
      ensures old(queue) != [] ==> [job] + queue == old(queue) && taken == old(taken) + [job]
      ensures old(queue) != [] ==>
        stopper == if queue == [] && old(stopper) == Waiting then Signalled else old(stopper)
    {
      if queue == [] { return Job(0, 0); }
      job := queue[0];
      queue := queue[1..];
      taken := taken + [job];
      if queue == [] && stopper == Waiting { stopper := Signalled; }
    }

    /** `pthread_cond_broadcast(&tp->job_semaphore)` */
    method Broadcast()
      modifies this`workers
      ensures workers == WakeAll(old(workers))
    {
      var i := 0;
      while i < |workers|
        invariant 0 <= i <= |workers| == |old(workers)|
        invariant forall j :: 0 <= j < i ==> workers[j] == WakeAll(old(workers))[j]
        invariant forall j :: i <= j < |workers| ==> workers[j] == old(workers)[j]
      {
        if workers[i] == Parked { workers := workers[i := Ready]; }
        i := i + 1;
      }
    }

    /** `thread_pool_post_job` */
    method PostJob(job: Job)
      requires Enabled(Snapshot(), Post(job))
      modifies this
      ensures Snapshot() == Step(old(Snapshot()), Post(job))
    {
      if allowNewJobs {
        PushJob(job);
        Broadcast();
      }
    }

    /** The part of `worker_tpl` under the mutex, for worker `i`. */
    method WorkerTurn(i: nat)
      requires Enabled(Snapshot(), Turn(i))
      modifies this
      ensures Snapshot() == Step(old(Snapshot()), Turn(i))
    {
      if run && allowNewJobs && queue == [] {
        workers := workers[i := Parked];
        return;
      }
      if !run || (queue == [] && !allowNewJobs) {
        workers := workers[i := Exited];
        return;
      }
      var job := GetAndPopJob();
      workers := workers[i := Running(job)];
    }

    /** Worker `i` comes back from the job it ran. */
    method WorkerFinish(i: nat)
      requires Enabled(Snapshot(), Finish(i))
      modifies this
      ensures Snapshot() == Step(old(Snapshot()), Finish(i))
    {
      finished := finished + multiset{workers[i].job};
      workers := workers[i := Ready];
    }

    /** `thread_pool_stop` up to its wait, or to its first unlock when there is nothing to wait for. */
    method StopBegin(waitForStop: bool)
      requires Enabled(Snapshot(), Stop(waitForStop))
      modifies this
      ensures Snapshot() == Step(old(Snapshot()), Stop(waitForStop))
    {
      wait := waitForStop;
      run := waitForStop;
      allowNewJobs := false;
      Broadcast();
      if waitForStop && queue != [] {
        stopper := Waiting;
      } else {
        StopFinish();
      }
    }

    /** The rest of `thread_pool_stop` under the mutex. */
    method StopFinish()
      modifies this`run, this`workers, this`stopper
      ensures !run && workers == WakeAll(old(workers)) && stopper == Joining
    {
      run := false;
      Broadcast();
      stopper := Joining;
    }

    /** `thread_pool_stop` after its wait. */
    method StopResume()
      requires Enabled(Snapshot(), Resume)
      modifies this
      ensures Snapshot() == Step(old(Snapshot()), Resume)
    {
      StopFinish();
    }
  }
}
