/**
 `struct io_service` with the code of io-service/io-service.c: each method is one stretch of code
 under `object_mutex`, loops included, and does what the step of its name does.
 */
module IoServiceObject {
  import opened JobTable
  import opened Sequences
  import S = IoService

  class Service {
    var allowNew: bool
    var running: bool
    var lookupTable: seq<Entry>
    var kernel: Kernel
    var counter: nat
    var phase: S.Phase
    // history, as in the state of the transition system
    var hard: bool
    var places: seq<S.Place>
    var oneshots: seq<bool>
    var selected: seq<nat>

    ghost function Snapshot(): S.State
      reads this
    {
      S.State(allowNew, running, lookupTable, kernel, counter, phase, hard, places, oneshots, selected)
    }

    /** `io_service_init` */
    constructor ()
      ensures S.Init(Snapshot())
    {
      allowNew, running, lookupTable := true, false, [];
      kernel, counter, phase := map[], 0, S.NotStarted;
      hard, places, oneshots, selected := false, [], [], [];
    }

    /** The search loop over the lookup table. */
    method Lookup(fd: int) returns (i: nat)
      ensures i == Find(lookupTable, fd)
    {
      i := 0;
      while i < |lookupTable| && lookupTable[i].fd != fd
        invariant i <= |lookupTable|
        invariant Find(lookupTable, fd) == i + Find(lookupTable[i..], fd)
      {
        assert lookupTable[i..][1..] == lookupTable[i + 1..];
        i := i + 1;
      }
    }

    /** `notify_svc` */
    method Notify()
      modifies this`counter
      ensures counter == old(counter) + 1
    {
      counter := counter + 1;
    }

    /** `io_service_post_job` */
    method PostJob(fd: int, op: Op, oneshot: bool, fn: int, ctx: int)
      modifies this
      ensures Snapshot() == S.Step(old(Snapshot()), S.Post(fd, op, oneshot, fn, ctx))
    {
      if allowNew && fn != 0 {
        var i := Lookup(fd);
        ghost var table := lookupTable;
        if i == |lookupTable| {
          lookupTable := lookupTable + [Entry(fd, {}, Empty, Empty)];
        }
        if Get(lookupTable[i], op) == Empty {
          lookupTable := lookupTable[i := Filled(lookupTable[i], op, Job(fn, ctx, oneshot, |places|))];
          places := places + [S.InTable(fd, op)];
          oneshots := oneshots + [oneshot];
          if running { Notify(); }
        }
      }
    }

    /** `io_service_remove_job`; one entry per descriptor makes the first match the only one. */
    method RemoveJob(fd: int, op: Op, fn: int, ctx: int)
      requires WellFormed(lookupTable)
      modifies this
      ensures Snapshot() == S.Step(old(Snapshot()), S.Remove(fd, op, fn, ctx))
    {
      var done := false;
      var i := 0;
      ghost var at := Find(lookupTable, fd);
      while i < |lookupTable| && !done
        invariant i <= |lookupTable|
        invariant !done ==> Snapshot() == old(Snapshot())
        invariant !done ==> i <= at || (at < |lookupTable| && !S.Matches(Get(lookupTable[at], op), fn, ctx))
        invariant done ==> i == at < |old(lookupTable)| && S.Matches(Get(old(lookupTable)[i], op), fn, ctx)
        invariant done ==> Snapshot() == S.RemoveJob(old(Snapshot()), fd, op, fn, ctx).(counter := counter)
        invariant running == old(running) && counter == old(counter)
        decreases |lookupTable| - i, !done
      {
        if lookupTable[i].fd == fd && S.Matches(Get(lookupTable[i], op), fn, ctx) {
          FindAt(lookupTable, i);
          var slot := Get(lookupTable[i], op);
          lookupTable := lookupTable[i := Cleared(lookupTable[i], op)];
          if slot.Job? && slot.id < |places| { places := places[slot.id := S.Removed]; }
          done := true;
        } else {
          i := i + 1;
        }
      }
      if done && running { Notify(); }
    }

    /** `io_service_stop` */
    method Stop(waitPending: bool)
      modifies this
      ensures Snapshot() == S.Step(old(Snapshot()), S.Stop(waitPending))
    {
      allowNew := false;
      running := waitPending;
      hard := if waitPending then hard && phase == S.Exited else true;
      Notify();
    }

    /** `while (*running)` */
    method LoopHead()
      modifies this`phase
      ensures Snapshot() == S.LoopHead(old(Snapshot()))
    {
      phase := if running then S.Polling else S.Exited;
    }

    /** The start of `io_service_run`: every entry is added to the kernel's set. */
    method RunStart()
      requires S.Enabled(Snapshot(), S.Start)
      modifies this
      ensures Snapshot() == S.Step(old(Snapshot()), S.Start)
    {
      var i := 0;
      while i < |lookupTable|
        invariant i <= |lookupTable|
        invariant Snapshot() == old(Snapshot()).(kernel := kernel)
        invariant AddAll(lookupTable[i..], kernel) == AddAll(lookupTable, old(kernel))
      {
        var e := lookupTable[i];
        assert lookupTable[i..][0] == e && lookupTable[i..][1..] == lookupTable[i + 1..];
        if e.fd !in kernel { kernel := kernel[e.fd := e.events]; }
        i := i + 1;
      }
      running := true;
      hard := false;
      phase := S.Polling;
    }

    /** The branch of the loop for a notification: the exit test and the sweep. */
    method RunNotified()
      requires S.Enabled(Snapshot(), S.Notified)
      modifies this
      ensures Snapshot() == S.Step(old(Snapshot()), S.Notified)
    {
      counter := counter - 1;
      if |lookupTable| == 0 && !allowNew { running := false; }
      SweepTable();
      LoopHead();
    }

    /** The sweep: an entry without events leaves, any other is modified in the kernel or added to it. */
    method SweepTable()
      modifies this`kernel, this`lookupTable
      ensures lookupTable == SweptTable(old(lookupTable))
      ensures kernel == SweptKernel(old(lookupTable), old(kernel))
    {
      var i := 0;
      while i < |lookupTable|
        invariant i <= |lookupTable|
        invariant lookupTable[..i] + SweptTable(lookupTable[i..]) == SweptTable(old(lookupTable))
        invariant SweptKernel(lookupTable[i..], kernel) == SweptKernel(old(lookupTable), old(kernel))
        decreases |lookupTable| - i
      {
        var e := lookupTable[i];
        SweepRound(lookupTable, i, kernel);
        if e.events == {} {
          kernel := kernel - {e.fd};
          lookupTable := Without(lookupTable, i);
        } else {
          kernel := kernel[e.fd := e.events];
          i := i + 1;
        }
      }
    }

    /** The loop over the operations of one event, from `ops` on, up to the next call of a job. */
    method RunOps(fd: int, ops: seq<Op>)
      modifies this
      ensures Snapshot() == S.Scan(old(Snapshot()), fd, ops)
    {
      var k := 0;
      while k < |ops|
        invariant k <= |ops| && Snapshot() == old(Snapshot())
        invariant S.Scan(old(Snapshot()), fd, ops) == S.Scan(old(Snapshot()), fd, ops[k..])
      {
        assert ops[k..][0] == ops[k] && ops[k..][1..] == ops[k + 1..];
        var i := Lookup(fd);
        if i < |lookupTable| && Get(lookupTable[i], ops[k]).Job? {
          Dispatch(i, ops[k], ops[k + 1..]);
          return;
        }
        k := k + 1;
      }
      LoopHead();
    }

    /** The body of `if (lte)`. */
    method Dispatch(i: nat, op: Op, rest: seq<Op>)
      requires i < |lookupTable| && Get(lookupTable[i], op).Job?
      modifies this
      ensures Snapshot() == S.Select(old(Snapshot()), i, op, rest)
    {
      var slot, fd := Get(lookupTable[i], op), lookupTable[i].fd;
      selected := selected + [slot.id];
      phase := S.InJob(fd, rest);
      if slot.oneshot {
        if slot.id < |places| { places := places[slot.id := S.Dispatched]; }
        lookupTable := lookupTable[i := Cleared(lookupTable[i], op)];
        if lookupTable[i].events == {} {
          kernel := kernel - {fd};
          lookupTable := Without(lookupTable, i);
        }
      }
    }

    /** The loop goes on with a reported event. */
    method RunEvent(fd: int, ops: set<Op>)
      requires S.Enabled(Snapshot(), S.Event(fd, ops))
      modifies this
      ensures Snapshot() == S.Step(old(Snapshot()), S.Event(fd, ops))
    {
      RunOps(fd, S.InOrder(ops));
    }

    /** The loop goes on after a job has returned. */
    method RunReturn()
      requires S.Enabled(Snapshot(), S.Return)
      modifies this
      ensures Snapshot() == S.Step(old(Snapshot()), S.Return)
    {
      RunOps(phase.fd, phase.rest);
    }
  }
}
