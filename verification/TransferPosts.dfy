/**
 The posts of an asynchronous transfer (network/network.c) as the I/O service answers them
 (io-service/io-service.c): one slot per descriptor and operation, and no answer to the caller.
 */
module TransferPosts {
  import opened JobTable
  import S = IoService
  import T = Transfer

  /** What `io_service_post_job` looks at before it takes a job for this descriptor and operation. */
  predicate Free(service: S.State, fd: int, op: Op) {
    service.allow && SlotAt(service.table, fd, op) == Empty
  }

  /** So the service accepts exactly then, and has the job in its slot afterwards. */
  lemma AcceptedIffFree(service: S.State, fd: int, op: Op, fn: int, ctx: int)
    requires S.Inv(service) && fn != 0
    ensures var after := S.PostJob(service, fd, op, true, fn, ctx);
      && (after != service <==> Free(service, fd, op))
      && (Free(service, fd, op) ==> SlotAt(after.table, fd, op) == Job(fn, ctx, true, |service.places|))
  {
    S.PostAccepted(service, fd, op, true, fn, ctx);
  }

  /** One run of the job, with the service as it was when the job posted again. */
  datatype Turn = Turn(io: T.Io, service: S.State)

  function Rounds(turns: seq<Turn>, fd: int, op: Op): (rs: seq<T.Round>)
    ensures |rs| == |turns|
    ensures forall i :: 0 <= i < |turns| ==> rs[i] == T.Round(turns[i].io, Free(turns[i].service, fd, op))
  {
    seq(|turns|, i requires 0 <= i < |turns| => T.Round(turns[i].io, Free(turns[i].service, fd, op)))
  }

  /**
   Over every schedule and every history of the service: the request is lost exactly when the service
   was closed, or its slot taken, at the first post, or at the post of a round that did not end the
   transfer.
   */
  lemma LostIffSlotTaken(request: T.State, fd: int, op: Op, first: S.State, turns: seq<Turn>, s': T.State)
      returns (before: T.State)
    requires T.Fresh(request) && T.ErrnosAreErrors(Rounds(turns, fd, op))
    requires T.IsRun(T.Started(request, Free(first, fd, op)), Rounds(turns, fd, op), s')
    ensures turns != [] ==> T.Possible(before, turns[|turns| - 1].io)
    ensures s'.status == T.Lost <==>
      if turns == [] then !Free(first, fd, op)
      else !Free(turns[|turns| - 1].service, fd, op) && !T.Ends(before, Rounds(turns, fd, op)[|turns| - 1])
  {
    before := T.LostIffPostRefused(request, Free(first, fd, op), Rounds(turns, fd, op), s');
  }

  /**
   Two transfers on one descriptor and direction: whatever happens in the meantime, a second one that
   is started while the first is still waiting is lost.
   */
  lemma {:induction false} SecondTransferIsLost(service: S.State, fd: int, op: Op, fn: int, ctx: int,
                                                ls: seq<S.Label>, later: S.State, second: T.State)
    requires S.Inv(service) && fn != 0 && Free(service, fd, op)
    requires S.IsRun(S.PostJob(service, fd, op, true, fn, ctx), ls, later)
    requires |service.places| < |later.places| && later.places[|service.places|].InTable?
    ensures T.Started(second, Free(later, fd, op)).status == T.Lost
  {
    var after := S.PostJob(service, fd, op, true, fn, ctx);
    AcceptedIffFree(service, fd, op, fn, ctx);
    S.PostKeepsInv(service, fd, op, true, fn, ctx);
    S.RunKeepsInv(after, ls, later);
    S.StillInPlace(after, ls, later, |service.places|);
    assert SlotAt(later.table, fd, op).Job?;
  }
  // ---------- one transfer that has its slot to itself ----------

  /** A step of the service that leaves the slot to the transfer: no stop, no post to it, no removal from it. */
  predicate Foreign(l: S.Label, fd: int, op: Op) {
    && !l.Stop?
    && !(l.Post? && l.fd == fd && l.op == op)
    && !(l.Remove? && l.fd == fd && l.op == op)
  }

  lemma {:induction false} ScanAndSlot(s: S.State, from: int, ops: seq<Op>, fd: int, op: Op)
    requires WellFormed(s.table)
    ensures var t := S.Scan(s, from, ops);
      && t.allow == s.allow
      && (SlotAt(t.table, fd, op) != SlotAt(s.table, fd, op) ==>
            SlotAt(t.table, fd, op) == Empty && t.selected == s.selected + [SlotAt(s.table, fd, op).id])
    decreases |ops|
  {
    if ops != [] {
      if SlotAt(s.table, from, ops[0]).Job? {
        TakenSees(s.table, Find(s.table, from), ops[0]);
      } else {
        ScanAndSlot(s, from, ops[1..], fd, op);
      }
    }
  }

  /** Such a step changes the slot only by selecting its job, which leaves it empty; an empty one stays empty. */
  lemma ForeignStep(s: S.State, l: S.Label, fd: int, op: Op)
    requires S.Inv(s) && S.Enabled(s, l) && Foreign(l, fd, op)
    ensures var t := S.Step(s, l);
      && t.allow == s.allow
      && (SlotAt(t.table, fd, op) != SlotAt(s.table, fd, op) ==>
            && SlotAt(t.table, fd, op) == Empty && SlotAt(s.table, fd, op).Job?
            && t.selected == s.selected + [SlotAt(s.table, fd, op).id])
  {
    match l
    case Post(f, p, oneshot, fn, ctx) => S.PostAccepted(s, f, p, oneshot, fn, ctx);
    case Remove(f, p, fn, ctx) =>
      if S.RemoveJob(s, f, p, fn, ctx) != s { PutSees(s.table, f, p, Empty); }
    case Notified => SweptTableSees(s.table);
    case Event(f, ops) => ScanAndSlot(s, f, S.InOrder(ops), fd, op);
    case Return => ScanAndSlot(s, s.phase.fd, s.phase.rest, fd, op);
    case _ =>
  }

  /** Free stays free. */
  lemma {:induction false} StaysFree(s: S.State, ls: seq<S.Label>, s': S.State, fd: int, op: Op)
    requires S.Inv(s) && Free(s, fd, op) && S.IsRun(s, ls, s')
    requires forall i :: 0 <= i < |ls| ==> Foreign(ls[i], fd, op)
    ensures Free(s', fd, op)
    decreases |ls|
  {
    if ls != [] {
      assert Foreign(ls[0], fd, op);
      S.StepKeepsInv(s, ls[0]);
      ForeignStep(s, ls[0], fd, op);
      assert forall i :: 0 <= i < |ls[1..]| ==> ls[1..][i] == ls[i + 1];
      StaysFree(S.Step(s, ls[0]), ls[1..], s', fd, op);
    }
  }

  /** The transfer's place in the service: descriptor, operation, and the job that it posts. */
  datatype Posting = Posting(fd: int, op: Op, fn: int, ctx: int)

  /** Service and transfer together; `due`: the transfer's job was selected and has not run yet. */
  datatype Joint = Joint(service: S.State, transfer: T.State, due: bool)

  /** A step of the service, or the run of the transfer's job with what the socket does. */
  datatype Event = Serve(step: S.Label) | Run(io: T.Io)

  ghost predicate CanHappen(j: Joint, e: Event, job: Posting) {
    match e
    case Serve(l) => Foreign(l, job.fd, job.op) && S.Enabled(j.service, l)
    case Run(io) => j.due && j.transfer.status == T.Posted && T.Possible(j.transfer, io)
  }

  /** The round that the job goes through, with the answer that the service has for its post. */
  ghost function RoundOf(j: Joint, io: T.Io, job: Posting): T.Round
    requires T.Possible(j.transfer, io)
  {
    T.Round(io, T.Ends(j.transfer, T.Round(io, true)) || Free(j.service, job.fd, job.op))
  }

  ghost function Happened(j: Joint, e: Event, job: Posting): Joint
    requires CanHappen(j, e, job)
  {
    match e
    case Serve(l) =>
      var t := S.Step(j.service, l);
      var selected := SlotAt(j.service.table, job.fd, job.op).Job? && SlotAt(t.table, job.fd, job.op) == Empty;
      j.(service := t, due := j.due || selected)
    case Run(io) =>
      var after := if T.Ends(j.transfer, T.Round(io, true)) then j.service
                   else S.PostJob(j.service, job.fd, job.op, true, job.fn, job.ctx);
      Joint(after, T.Ran(j.transfer, RoundOf(j, io, job)), false)
  }

  ghost predicate IsJointRun(j: Joint, es: seq<Event>, j': Joint, job: Posting)
    decreases |es|
  {
    if es == [] then j' == j else CanHappen(j, es[0], job) && IsJointRun(Happened(j, es[0], job), es[1..], j', job)
  }

  /** While the transfer goes on, its job is in the slot, or has been selected and the slot is free. */
  ghost predicate HasItsSlot(j: Joint, job: Posting) {
    && S.Inv(j.service) && j.service.allow && job.fn != 0
    && (j.transfer.status == T.Posted ==>
          if j.due then SlotAt(j.service.table, job.fd, job.op) == Empty
          else SlotAt(j.service.table, job.fd, job.op).Job?)
  }

  lemma HappenedKeepsSlot(j: Joint, e: Event, job: Posting)
    requires HasItsSlot(j, job) && CanHappen(j, e, job)
    ensures HasItsSlot(Happened(j, e, job), job)
    ensures e.Run? ==> RoundOf(j, e.io, job).accepted
  {
    match e
    case Serve(l) =>
      S.StepKeepsInv(j.service, l);
      ForeignStep(j.service, l, job.fd, job.op);
    case Run(io) =>
      S.PostKeepsInv(j.service, job.fd, job.op, true, job.fn, job.ctx);
      AcceptedIffFree(j.service, job.fd, job.op, job.fn, job.ctx);
  }

  /**
   A transfer that is alone with its slot on a service that is not stopped: over every joint run,
   every post it makes is accepted, so what it goes through is a schedule without a refusal.
   */
  lemma {:induction false} LoneTransferIsServed(j: Joint, es: seq<Event>, j': Joint, job: Posting) returns (rs: seq<T.Round>)
    requires HasItsSlot(j, job) && IsJointRun(j, es, j', job)
    ensures T.IsRun(j.transfer, rs, j'.transfer) && forall i :: 0 <= i < |rs| ==> rs[i].accepted
    ensures forall i :: 0 <= i < |rs| ==> Run(rs[i].io) in es
    decreases |es|
  {
    rs := [];
    if es != [] {
      HappenedKeepsSlot(j, es[0], job);
      var t := Happened(j, es[0], job);
      var rest := LoneTransferIsServed(t, es[1..], j', job);
      if es[0].Run? {
        rs := [RoundOf(j, es[0].io, job)] + rest;
        assert rs[1..] == rest;
      } else {
        rs := rest;
      }
    }
  }

  /**
   So it is never lost: it has completed, and was reported and freed once, or it is still waiting; and
   what it has moved is the buffer up to where it is.
   */
  lemma {:induction false} LoneTransferIsNotLost(service: S.State, request: T.State, es: seq<Event>, j': Joint, job: Posting)
    requires S.Inv(service) && Free(service, job.fd, job.op) && job.fn != 0 && T.Fresh(request)
    requires forall e :: e in es && e.Run? && e.io.Failed? ==> e.io.errno != 0
    requires IsJointRun(Joint(S.PostJob(service, job.fd, job.op, true, job.fn, job.ctx), T.Started(request, true), false), es, j', job)
    ensures j'.transfer.status != T.Lost && T.Inv(j'.transfer)
    ensures j'.transfer.status == T.Posted <==> j'.transfer.frees == 0
  {
    var j := Joint(S.PostJob(service, job.fd, job.op, true, job.fn, job.ctx), T.Started(request, true), false);
    S.PostKeepsInv(service, job.fd, job.op, true, job.fn, job.ctx);
    S.PostAccepted(service, job.fd, job.op, true, job.fn, job.ctx);
    var rs := LoneTransferIsServed(j, es, j', job);
    T.MovesExactlyThePrefix(T.Started(request, true), rs, j'.transfer);
    var before := T.LostIffPostRefused(request, true, rs, j'.transfer);
  }
}
