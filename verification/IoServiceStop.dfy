/**
 When `io_service_stop` makes the loop of io-service/io-service.c end.

 The loop tests for emptiness only in the branch for a notification, before the sweep of that round;
 so a waiting stop may find the loop in `epoll_wait` for good.  `HangsIff` says exactly from which
 states that can happen.  A non-waiting stop works only until something sets `running` again;
 `HardStopEndsLoopIff` says when it does.
 */
module IoServiceStop {
  import opened JobTable
  import opened IoService

  /** The loop runs and has been told to end once nothing is left. */
  ghost predicate Draining(s: State) {
    !s.allow && s.running && (s.phase == Polling || s.phase.InJob?)
  }

  /** A loop that waits for a notification nobody will send. */
  ghost predicate Hung(s: State) {
    s.phase == Polling && s.running && !s.allow && s.counter == 0 && s.table == [] && s.kernel == map[]
  }

  /** Neither another stop nor another start. */
  ghost predicate Quiet(ls: seq<Label>) {
    forall i :: 0 <= i < |ls| ==> !ls[i].Stop? && ls[i] != Start
  }

  ghost predicate CanHang(s: State) {
    exists ls, s' :: Quiet(ls) && IsRun(s, ls, s') && Hung(s')
  }

  /** Some slot is filled. */
  ghost predicate Busy(table: seq<Entry>) {
    exists fd, op :: SlotAt(table, fd, op).Job?
  }

  /** The state in which the loop is back in `epoll_wait` when nobody interferes. */
  function Settled(s: State): State
    decreases if s.phase.InJob? then |s.phase.rest| + 1 else 0
  {
    if s.phase.InJob? then Settled(Scan(s, s.phase.fd, s.phase.rest)) else s
  }

  /**
   What decides, once the reported event has been worked off: with an empty table a notification
   must be pending; otherwise all slots must be empty and two notifications pending.
   */
  ghost predicate MayHang(s: State) {
    var t := Settled(s);
    if t.table == [] then t.counter == 0 else Busy(t.table) || t.counter <= 1
  }

  /** Nothing but another stop changes a hung state. */
  lemma {:induction false} HungForGood(s: State, ls: seq<Label>, s': State)
    requires Hung(s) && IsRun(s, ls, s')
    requires forall i :: 0 <= i < |ls| ==> !ls[i].Stop?
    ensures s' == s
    decreases |ls|
  {
    if ls != [] {
      assert !ls[0].Stop?;
      assert Step(s, ls[0]) == s;
      assert forall i :: 0 <= i < |ls[1..]| ==> ls[1..][i] == ls[i + 1];
      HungForGood(s, ls[1..], s');
    }
  }

  // ---------- working off a reported event ----------

  /** The slot will be emptied by its dispatch before the loop is back in `epoll_wait`. */
  ghost predicate Due(s: State, fd: int, ops: seq<Op>, f: int, p: Op) {
    f == fd && p in ops && SlotAt(s.table, f, p).Job? && SlotAt(s.table, f, p).oneshot
  }

  lemma SelectKeepsDraining(s: State, i: nat, op: Op, rest: seq<Op>)
    requires Inv(s) && Draining(s) && i < |s.table| && Get(s.table[i], op).Job?
    ensures var t, fd := Select(s, i, op, rest), s.table[i].fd;
      && Inv(t) && Draining(t) && t.counter == s.counter && t.phase == InJob(fd, rest)
      && forall f, p :: SlotAt(t.table, f, p) == if Due(s, fd, [op], f, p) then Empty else SlotAt(s.table, f, p)
  {
    SelectKeepsInv(s, i, op, rest);
    FindAt(s.table, i);
    TakenSees(s.table, i, op);
  }

  lemma {:induction false} ScanSettles(s: State, fd: int, ops: seq<Op>)
    requires Inv(s) && Draining(s)
    ensures var t := Settled(Scan(s, fd, ops));
      && Inv(t) && Draining(t) && t.phase == Polling && t.counter == s.counter
      && forall f, p :: SlotAt(t.table, f, p) == if Due(s, fd, ops, f, p) then Empty else SlotAt(s.table, f, p)
    decreases |ops|
  {
    if ops != [] {
      if SlotAt(s.table, fd, ops[0]).Job? {
        var i := Find(s.table, fd);
        var u := Select(s, i, ops[0], ops[1..]);
        SelectKeepsDraining(s, i, ops[0], ops[1..]);
        ScanSettles(u, fd, ops[1..]);
        assert Settled(u) == Settled(Scan(u, fd, ops[1..]));
      } else {
        ScanSettles(s, fd, ops[1..]);
      }
    }
  }

  lemma SettledSees(s: State)
    requires Inv(s) && Draining(s)
    ensures var t := Settled(s);
      && Inv(t) && Draining(t) && t.phase == Polling && t.counter == s.counter
      && forall f, p :: SlotAt(t.table, f, p) ==
           if s.phase.InJob? && Due(s, s.phase.fd, s.phase.rest, f, p) then Empty else SlotAt(s.table, f, p)
  {
    if s.phase.InJob? { ScanSettles(s, s.phase.fd, s.phase.rest); }
  }

  lemma {:induction false} ScanKeepsDraining(s: State, fd: int, ops: seq<Op>)
    requires Draining(s)
    ensures Draining(Scan(s, fd, ops)) && Scan(s, fd, ops).counter == s.counter
    decreases |ops|
  {
    if ops != [] && !SlotAt(s.table, fd, ops[0]).Job? { ScanKeepsDraining(s, fd, ops[1..]); }
  }

  lemma {:induction false} ScanOfIdle(s: State, fd: int, ops: seq<Op>)
    requires !Busy(s.table)
    ensures Scan(s, fd, ops) == LoopHead(s)
    decreases |ops|
  {
    if ops != [] {
      assert !SlotAt(s.table, fd, ops[0]).Job?;
      ScanOfIdle(s, fd, ops[1..]);
    }
  }

  // ---------- the states that return ----------

  /** What a sweep leaves in the table has jobs. */
  lemma SweptIsBusy(s: State)
    requires Inv(s) && SweptTable(s.table) != []
    ensures Busy(s.table) && Busy(SweptTable(s.table))
  {
    SweptTableSees(s.table);
    SweptMembers(s.table);
    var e := SweptTable(s.table)[0];
    assert e in s.table;
    var i :| 0 <= i < |s.table| && s.table[i] == e;
    var op :| op in e.events;
    FindAt(s.table, i);
    assert SlotAt(s.table, e.fd, op).Job? && SlotAt(SweptTable(s.table), e.fd, op).Job?;
  }

  ghost predicate Safe(s: State) {
    s.phase == Exited || (Draining(s) && !MayHang(s))
  }

  lemma RemoveKeepsSafe(s: State, fd: int, op: Op, fn: int, ctx: int)
    requires Inv(s) && Draining(s) && !MayHang(s)
    ensures Safe(RemoveJob(s, fd, op, fn, ctx))
  {
    var s1 := RemoveJob(s, fd, op, fn, ctx);
    if s1 != s {
      RemoveKeepsInv(s, fd, op, fn, ctx);
      PutSees(s.table, fd, op, Empty);
      SettledSees(s);
      SettledSees(s1);
      var t, t1 := Settled(s), Settled(s1);
      forall f, p ensures !SlotAt(t1.table, f, p).Job? {
        assert !SlotAt(t.table, f, p).Job?;
      }
    }
  }

  lemma StepKeepsSafe(s: State, l: Label)
    requires Inv(s) && Safe(s) && Enabled(s, l) && !l.Stop? && l != Start
    ensures Safe(Step(s, l))
  {
    if s.phase == Exited { return; }
    match l
    case Remove(fd, op, fn, ctx) => RemoveKeepsSafe(s, fd, op, fn, ctx);
    case Notified => if SweptTable(s.table) != [] { SweptIsBusy(s); }
    case Event(fd, ops) => ScanOfIdle(s, fd, InOrder(ops));
    case Return => ScanKeepsDraining(s, s.phase.fd, s.phase.rest);
    case _ =>
  }

  lemma {:induction false} SafeForGood(s: State, ls: seq<Label>, s': State)
    requires Inv(s) && Safe(s) && Quiet(ls) && IsRun(s, ls, s')
    ensures Inv(s') && Safe(s')
    decreases |ls|
  {
    if ls != [] {
      assert !ls[0].Stop? && ls[0] != Start;
      StepKeepsInv(s, ls[0]);
      StepKeepsSafe(s, ls[0]);
      assert Quiet(ls[1..]) by { assert forall i :: 0 <= i < |ls[1..]| ==> ls[1..][i] == ls[i + 1]; }
      SafeForGood(Step(s, ls[0]), ls[1..], s');
    }
  }

  /** From a safe state on a notification is always pending until the loop has exited. */
  lemma SafeIsNotified(s: State)
    requires Inv(s) && Safe(s)
    ensures s.phase == Exited || s.counter > 0
    ensures !Hung(s)
  {
    if s.phase != Exited { SettledSees(s); }
  }

  // ---------- the states that can hang ----------

  lemma {:induction false} RunConcat(s: State, a: seq<Label>, mid: State, b: seq<Label>, s': State)
    requires IsRun(s, a, mid) && IsRun(mid, b, s')
    ensures IsRun(s, a + b, s')
    decreases |a|
  {
    if a == [] {
      assert a + b == b;
    } else {
      assert (a + b)[1..] == a[1..] + b;
      RunConcat(Step(s, a[0]), a[1..], mid, b, s');
    }
  }

  /** One step before a run that ends hung. */
  lemma StepThenHang(s: State, l: Label)
    requires Enabled(s, l) && !l.Stop? && l != Start && CanHang(Step(s, l))
    ensures CanHang(s)
  {
    var ls, s' :| Quiet(ls) && IsRun(Step(s, l), ls, s') && Hung(s');
    var all := [l] + ls;
    assert all[1..] == ls && Quiet(all);
    assert IsRun(s, all, s');
  }

  lemma HungCanHang(s: State)
    requires Hung(s)
    ensures CanHang(s)
  {
    assert Quiet([]) && IsRun(s, [], s);
  }

  /** No notification is pending, the table is empty: that is hung. */
  lemma QuietAndEmptyHangs(s: State)
    requires Inv(s) && Draining(s) && s.phase == Polling && s.table == [] && s.counter == 0
    ensures CanHang(s)
  {
    forall fd ensures fd !in s.kernel {
      assert !Listed(s.table, fd);
    }
    assert s.kernel == map[];
    HungCanHang(s);
  }

  /** All slots are empty but an entry is left, and at most one notification is pending. */
  lemma LastSweepHangs(s: State)
    requires Inv(s) && Draining(s) && s.phase == Polling && s.table != [] && !Busy(s.table) && s.counter <= 1
    ensures CanHang(s)
    decreases 1 - s.counter
  {
    if s.counter == 0 {
      // removing NULL from an empty slot does nothing but notify
      var e := s.table[0];
      var l := Remove(e.fd, Read, 0, 0);
      assert !SlotAt(s.table, e.fd, Read).Job? && Find(s.table, e.fd) == 0;
      assert Cleared(e, Read) == e by { assert Read !in e.events; }
      StepKeepsInv(s, l);
      assert Step(s, l) == s.(counter := 1);
      LastSweepHangs(Step(s, l));
      StepThenHang(s, l);
    } else {
      var t := Step(s, Notified);
      StepKeepsInv(s, Notified);
      if SweptTable(s.table) != [] { SweptIsBusy(s); }
      QuietAndEmptyHangs(t);
      StepThenHang(s, Notified);
    }
  }

  /** The posts that are still in the table. */
  ghost function Waiting(s: State): set<nat> {
    set id | 0 <= id < |s.places| && s.places[id].InTable?
  }

  /** Removing the job of a filled slot, and the sweep after it, leave one job fewer and no notification. */
  lemma RemovalRound(s: State, fd: int, op: Op) returns (l: Label)
    requires Inv(s) && Draining(s) && s.phase == Polling && s.counter == 0 && SlotAt(s.table, fd, op).Job?
    ensures Enabled(s, l) && !l.Stop? && l != Start
    ensures var t := Step(s, l);
      && Enabled(t, Notified) && t.table != [] && t.counter == 1
      && var u := Step(t, Notified);
        && Inv(u) && Draining(u) && u.phase == Polling && u.counter == 0 && (u.table == [] || Busy(u.table))
        && SlotAt(s.table, fd, op).id < |s.places| && s.places[SlotAt(s.table, fd, op).id].InTable?
        && u.places == s.places[SlotAt(s.table, fd, op).id := Removed]
  {
    var slot := SlotAt(s.table, fd, op);
    l := Remove(fd, op, slot.fn, slot.ctx);
    var t := Step(s, l);
    StepKeepsInv(s, l);
    StepKeepsInv(t, Notified);
    if SweptTable(t.table) != [] { SweptIsBusy(t); }
  }

  lemma {:induction false} RemovalsHang(s: State)
    requires Inv(s) && Draining(s) && s.phase == Polling && s.counter == 0 && Busy(s.table)
    ensures CanHang(s)
    decreases |Waiting(s)|
  {
    var fd, op :| SlotAt(s.table, fd, op).Job?;
    var l := RemovalRound(s, fd, op);
    var t := Step(s, l);
    var u := Step(t, Notified);
    FewerWaiting(s, u, SlotAt(s.table, fd, op).id);
    if u.table == [] {
      QuietAndEmptyHangs(u);
    } else {
      RemovalsHang(u);
    }
    StepThenHang(t, Notified);
    StepThenHang(s, l);
  }

  lemma FewerWaiting(s: State, u: State, id: nat)
    requires id < |s.places| && s.places[id].InTable? && u.places == s.places[id := Removed]
    ensures |Waiting(u)| < |Waiting(s)|
  {
    assert id in Waiting(s) && id !in Waiting(u);
    forall k ensures k in Waiting(u) <==> k in Waiting(s) - {id} {
      if 0 <= k < |s.places| && k != id { assert u.places[k] == s.places[k]; }
    }
    assert Waiting(u) == Waiting(s) - {id};
  }

  /** With a filled slot the pending notifications can be used up first. */
  lemma {:induction false} BusyHangs(s: State)
    requires Inv(s) && Draining(s) && s.phase == Polling && Busy(s.table)
    ensures CanHang(s)
    decreases s.counter
  {
    if s.counter == 0 {
      RemovalsHang(s);
    } else {
      var fd, op :| SlotAt(s.table, fd, op).Job?;
      assert s.table != [];
      var t := Step(s, Notified);
      StepKeepsInv(s, Notified);
      SweptTableSees(s.table);
      assert SlotAt(t.table, fd, op).Job?;
      BusyHangs(t);
      StepThenHang(s, Notified);
    }
  }

  lemma {:induction false} MayHangCanHang(s: State)
    requires Inv(s) && Draining(s) && MayHang(s)
    ensures CanHang(s)
    decreases if s.phase.InJob? then |s.phase.rest| + 1 else 0
  {
    if s.phase.InJob? {
      StepKeepsInv(s, Return);
      ScanKeepsDraining(s, s.phase.fd, s.phase.rest);
      MayHangCanHang(Step(s, Return));
      StepThenHang(s, Return);
    } else if s.table == [] {
      QuietAndEmptyHangs(s);
    } else if Busy(s.table) {
      BusyHangs(s);
    } else {
      LastSweepHangs(s);
    }
  }

  /**
   The exact condition, for every state of a loop that has been told to drain: it can hang if and
   only if, when the reported event has been worked off, a slot is filled, or fewer notifications are
   pending than the sweeps it takes to empty the table and to see that it is empty.
   */
  lemma HangsIff(s: State)
    requires Inv(s) && Draining(s)
    ensures CanHang(s) <==> MayHang(s)
  {
    if MayHang(s) {
      MayHangCanHang(s);
    } else if CanHang(s) {
      var ls, s' :| Quiet(ls) && IsRun(s, ls, s') && Hung(s');
      SafeForGood(s, ls, s');
      SafeIsNotified(s');
    }
  }

  /**
   Over every run up to a waiting stop of a running loop: the stop can leave the loop hung if and
   only if, once the reported event has been worked off, the table is not empty and either has a job
   or is looked at by this stop's notification alone.  Otherwise the loop can only exit.
   */
  lemma {:induction false} GracefulStopHangsIff(init: State, ls: seq<Label>, s: State)
    requires Init(init) && IsRun(init, ls, s) && (s.phase == Polling || s.phase.InJob?)
    ensures var t := Step(s, Stop(true)); var u := Settled(t);
      CanHang(t) <==> u.table != [] && (Busy(u.table) || s.counter == 0)
    ensures s.phase == Polling ==>
      (CanHang(Step(s, Stop(true))) <==> s.table != [] && (Busy(s.table) || s.counter == 0))
  {
    var t := Step(s, Stop(true));
    RunKeepsInv(init, ls, s);
    StepKeepsInv(s, Stop(true));
    HangsIff(t);
    SettledSees(t);
  }

  /**
   The event in hand matters: with a notification pending, a filled slot is no danger when its
   one-shot job is the only one and is about to be dispatched from that event.
   */
  lemma LastDispatchIsSafe(s: State, e: Entry, op: Op)
    requires Inv(s) && Draining(s) && s.table == [e] && s.phase == InJob(e.fd, [op]) && s.counter > 0
    requires e.events == {op} && Get(e, op).Job? && Get(e, op).oneshot
    ensures Busy(s.table) && !CanHang(s)
  {
    assert Find(s.table, e.fd) == 0 && SlotAt(s.table, e.fd, op) == Get(e, op);
    var t := Select(s, 0, op, []);
    assert Cleared(e, op).events == {} && t.table == [];
    assert Scan(s, e.fd, [op]) == t && Settled(t) == Settled(LoopHead(t));
    HangsIff(s);
  }

  /** One one-shot job is registered and a graceful stop has just been asked for. */
  ghost function StopAsked(): State {
    State(false, true, [Entry(5, {Read}, Job(1, 0, true, 0), Empty)], map[5 := {Read}], 1, Polling,
          false, [InTable(5, Read)], [true], [])
  }

  lemma StopAskedIsReached(s: State)
    requires Init(s)
    ensures IsRun(s, [Post(5, Read, true, 1, 0), Start, Stop(true)], StopAsked())
  {
    var s1 := Step(s, Post(5, Read, true, 1, 0));
    assert s1.table == StopAsked().table by { assert {} + {Read} == {Read}; }
    var s2 := Step(s1, Start);
    assert s2.kernel == map[5 := {Read}] by { assert s1.table[1..] == []; }
    assert IsRun(s2, [Stop(true)], StopAsked());
    assert [Post(5, Read, true, 1, 0), Start, Stop(true)][1..][1..] == [Stop(true)];
  }

  lemma StopAskedHangs() returns (s': State)
    ensures IsRun(StopAsked(), [Notified, Event(5, {Read}), Return], s') && Hung(s')
  {
    var s := StopAsked();
    var s1 := Step(s, Notified);
    assert s1.table == s.table && s1.kernel == s.kernel by { assert s.table[1..] == []; }
    var s2 := Step(s1, Event(5, {Read}));
    assert s2.table == [] && s2.kernel == map[] by { assert {Read} - {Read} == {}; }
    s' := Step(s2, Return);
    assert IsRun(s2, [Return], s');
    assert [Notified, Event(5, {Read}), Return][1..][1..] == [Return];
  }

  /** One of them: a one-shot job that is dispatched after the stop's notification leaves the loop hung. */
  lemma {:induction false} GracefulStopMayHang(s: State) returns (ls: seq<Label>, s': State)
    requires Init(s)
    ensures IsRun(s, ls, s') && Stop(true) in ls && NoHardStop(ls)
    ensures Hung(s')
  {
    var a := [Post(5, Read, true, 1, 0), Start, Stop(true)];
    StopAskedIsReached(s);
    s' := StopAskedHangs();
    ls := a + [Notified, Event(5, {Read}), Return];
    RunConcat(s, a, StopAsked(), ls[3..], s');
    assert ls[2] == Stop(true);
  }

  // ---------- and the others return ----------

  ghost function Sweeps(ls: seq<Label>): nat {
    if ls == [] then 0 else (if ls[0] == Notified then 1 else 0) + Sweeps(ls[1..])
  }

  /** With an empty table the next notification ends the loop. */
  lemma {:induction false} EmptyTableExits(s: State, ls: seq<Label>, s': State)
    requires Inv(s) && s.table == [] && (s.phase == Exited || (Draining(s) && s.phase == Polling))
    requires Quiet(ls) && IsRun(s, ls, s') && Sweeps(ls) >= 1
    ensures s'.phase == Exited
    decreases |ls|
  {
    assert !ls[0].Stop? && ls[0] != Start;
    assert Quiet(ls[1..]) by { assert forall i :: 0 <= i < |ls[1..]| ==> ls[1..][i] == ls[i + 1]; }
    var t := Step(s, ls[0]);
    StepKeepsInv(s, ls[0]);
    if t.phase == Exited {
      ExitedStays(t, ls[1..], s');
    } else {
      assert forall fd :: fd in s.kernel ==> Listed(s.table, fd);
      EmptyTableExits(t, ls[1..], s');
    }
  }

  lemma {:induction false} ExitedStays(s: State, ls: seq<Label>, s': State)
    requires s.phase == Exited && Quiet(ls) && IsRun(s, ls, s')
    ensures s'.phase == Exited
    decreases |ls|
  {
    if ls != [] {
      assert ls[0] != Start;
      assert Quiet(ls[1..]) by { assert forall i :: 0 <= i < |ls[1..]| ==> ls[1..][i] == ls[i + 1]; }
      ExitedStays(Step(s, ls[0]), ls[1..], s');
    }
  }

  /**
   From a state that cannot hang the second notification at the latest ends the loop, and until then
   one is always pending.
   */
  lemma {:induction false} TwoSweepsSuffice(s: State, ls: seq<Label>, s': State)
    requires Inv(s) && Draining(s) && !MayHang(s) && Quiet(ls) && IsRun(s, ls, s')
    ensures s'.phase == Exited || s'.counter > 0
    ensures Sweeps(ls) >= 2 ==> s'.phase == Exited
    decreases |ls|
  {
    SafeForGood(s, ls, s');
    SafeIsNotified(s');
    if Sweeps(ls) >= 2 {
      var t := Step(s, ls[0]);
      assert !ls[0].Stop? && ls[0] != Start;
      assert Quiet(ls[1..]) by { assert forall i :: 0 <= i < |ls[1..]| ==> ls[1..][i] == ls[i + 1]; }
      StepKeepsInv(s, ls[0]);
      StepKeepsSafe(s, ls[0]);
      if t.phase == Exited {
        ExitedStays(t, ls[1..], s');
      } else if ls[0] == Notified {
        if SweptTable(s.table) != [] { SweptIsBusy(s); }
        EmptyTableExits(t, ls[1..], s');
      } else {
        TwoSweepsSuffice(t, ls[1..], s');
      }
    }
  }

  // ---------- a stop that does not wait ----------

  /** The steps of the thread in `io_service_run`, from one `while` test or job to the next. */
  predicate LoopLabel(l: Label) {
    l == PollError || l == Notified || l.Event? || l == Return
  }

  /** A run in which the loop does not get to the test of its `while`. */
  ghost predicate Untested(s: State, ls: seq<Label>)
    decreases |ls|
  {
    ls != [] ==>
      Enabled(s, ls[0]) && (LoopLabel(ls[0]) ==> Step(s, ls[0]).phase.InJob?) && Untested(Step(s, ls[0]), ls[1..])
  }

  /** The last stop in `ls`, if there is one, waits. */
  ghost predicate Revived(ls: seq<Label>) {
    exists i :: 0 <= i < |ls| && ls[i] == Stop(true) && forall j :: i < j < |ls| ==> ls[j] != Stop(false)
  }

  lemma {:induction false} ScanKeepsRunning(s: State, fd: int, ops: seq<Op>)
    ensures Scan(s, fd, ops).running == s.running && Scan(s, fd, ops).allow == s.allow
    ensures Scan(s, fd, ops).counter == s.counter
    decreases |ops|
  {
    if ops != [] && !SlotAt(s.table, fd, ops[0]).Job? { ScanKeepsRunning(s, fd, ops[1..]); }
  }

  lemma RevivedTail(ls: seq<Label>)
    requires ls != []
    ensures Revived(ls) <==> Revived(ls[1..]) || (ls[0] == Stop(true) && Stop(false) !in ls[1..])
  {
    var rest := ls[1..];
    if i :| 0 <= i < |rest| && rest[i] == Stop(true) && forall j :: i < j < |rest| ==> rest[j] != Stop(false) {
      assert ls[i + 1] == Stop(true) && forall j :: i + 1 < j < |ls| ==> ls[j] == rest[j - 1];
    }
    if i :| 0 <= i < |ls| && ls[i] == Stop(true) && forall j :: i < j < |ls| ==> ls[j] != Stop(false) {
      assert forall j :: 0 <= j < |rest| ==> rest[j] == ls[j + 1];
      if i > 0 { assert rest[i - 1] == Stop(true); }
    }
    if ls[0] == Stop(true) && Stop(false) !in rest {
      assert forall j :: 0 < j < |ls| ==> ls[j] == rest[j - 1] && rest[j - 1] in rest;
    }
  }

  /** As long as the loop does not look, `running` is what the last stop made it, and no notification is used up. */
  lemma {:induction false} RunningIsLastStop(s: State, ls: seq<Label>, s': State)
    requires (s.phase == Polling || s.phase.InJob?) && !s.allow && Untested(s, ls) && IsRun(s, ls, s')
    ensures (s'.phase == Polling || s'.phase.InJob?) && !s'.allow
    ensures s'.running <==> Revived(ls) || (s.running && Stop(false) !in ls)
    ensures s'.counter >= s.counter
    decreases |ls|
  {
    if ls != [] {
      var t := Step(s, ls[0]);
      RevivedTail(ls);
      match ls[0] {
        case Event(fd, ops) => ScanKeepsRunning(s, fd, InOrder(ops));
        case Return => ScanKeepsRunning(s, s.phase.fd, s.phase.rest);
        case _ =>
      }
      assert Stop(false) in ls <==> ls[0] == Stop(false) || Stop(false) in ls[1..];
      RunningIsLastStop(t, ls[1..], s');
    }
  }

  /**
   A non-waiting stop of a running loop ends it at its next test of `running` if and only if no
   waiting stop has come in between, or that test is made on a notification with an empty table.
   Until then a notification is pending, so the loop does not wait in vain.
   */
  lemma {:induction false} HardStopEndsLoopIff(s: State, ls: seq<Label>, s': State, l: Label)
    requires s.phase == Polling || s.phase.InJob?
    requires Untested(Step(s, Stop(false)), ls) && IsRun(Step(s, Stop(false)), ls, s')
    requires LoopLabel(l) && Enabled(s', l) && !Step(s', l).phase.InJob?
    ensures Step(s', l).phase == Exited <==> !Revived(ls) || (l == Notified && s'.table == [])
    ensures s'.counter > 0
  {
    RunningIsLastStop(Step(s, Stop(false)), ls, s');
    match l
    case Event(fd, ops) => ScanTests(s', fd, InOrder(ops));
    case Return => ScanTests(s', s'.phase.fd, s'.phase.rest);
    case _ =>
  }

  /** A run in which the waiting stop comes in between: the loop goes on. */
  lemma {:induction false} HardStopRevived(s: State) returns (s': State)
    requires Init(s)
    ensures IsRun(s, [Start, Stop(false), Stop(true), PollError], s') && s'.phase == Polling && s'.running && !s'.allow
  {
    var s1 := Step(s, Start);
    var s2 := Step(s1, Stop(false));
    var s3 := Step(s2, Stop(true));
    s' := Step(s3, PollError);
    assert IsRun(s3, [PollError], s');
    assert [Start, Stop(false), Stop(true), PollError][1..][1..][1..] == [PollError];
  }

  lemma {:induction false} ScanTests(s: State, fd: int, ops: seq<Op>)
    ensures !Scan(s, fd, ops).phase.InJob? ==> Scan(s, fd, ops) == LoopHead(s)
    decreases |ops|
  {
    if ops != [] && !SlotAt(s.table, fd, ops[0]).Job? { ScanTests(s, fd, ops[1..]); }
  }

  /**
   A stop before `io_service_run` works as a waiting one whichever it was: the loop starts with
   `running` set, and from there on it exits only when the table is empty.
   */
  lemma {:induction false} EarlyStopAlwaysWaits(s: State, wait: bool, ls: seq<Label>, s': State)
    requires Inv(s) && (s.phase == NotStarted || s.phase == Exited)
    requires IsRun(Step(Step(s, Stop(wait)), Start), ls, s') && NoHardStop(ls)
    ensures var t := Step(Step(s, Stop(wait)), Start);
      t == Step(Step(s, Stop(!wait)), Start) && Draining(t) && t.counter > 0 && OnlyDrains(t, s')
    ensures s'.phase == Exited ==> s'.table == [] && forall id :: 0 <= id < |s'.places| ==> !s'.places[id].InTable?
  {
    var t := Step(Step(s, Stop(wait)), Start);
    StepKeepsInv(s, Stop(wait));
    StepKeepsInv(Step(s, Stop(wait)), Start);
    GracefulStopDrains(t, ls, s');
  }
}
