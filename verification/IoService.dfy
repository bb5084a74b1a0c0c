/**
 The dispatcher of io-service/io-service.c as a transition system.

 A step is one stretch of code under `object_mutex`.  One thread runs `io_service_run`; posts,
 removals and stops come from any thread at any time, also from inside a job.  The kernel interest
 set is a map from descriptor to operations, the eventfd (opened with EFD_SEMAPHORE) is a counter,
 and `epoll_wait` may report any subset of the interest of a known descriptor.
 */
module IoService {
  import opened JobTable

  /** NotStarted and Exited: no loop.  Polling: in `epoll_wait`.  InJob: a job runs, `rest` is still to be looked at. */
  datatype Phase = NotStarted | Polling | InJob(fd: int, rest: seq<Op>) | Exited

  /** Where the job of an accepted post is, or how it left. */
  datatype Place = InTable(fd: int, op: Op) | Dispatched | Removed

  datatype State = State(
    allow: bool, running: bool, table: seq<Entry>,
    kernel: Kernel, counter: nat, phase: Phase,
    // history: a non-waiting stop is in force, or has ended the loop; every accepted post, by number,
    // with its kind; the posts whose job was selected for dispatch, in order
    hard: bool, places: seq<Place>, oneshots: seq<bool>, selected: seq<nat>)

  datatype Label =
    | Post(fd: int, op: Op, oneshot: bool, fn: int, ctx: int)
    | Remove(fd: int, op: Op, fn: int, ctx: int)
    | Stop(wait: bool)
    | Start
    | PollError
    | Notified
    | Event(fd: int, ops: set<Op>)
    | Return

  // ---------- the steps ----------

  /** `io_service_init` */
  ghost predicate Init(s: State) {
    s == State(true, false, [], map[], 0, NotStarted, false, [], [], [])
  }

  /** `io_service_post_job`; a NULL function or an occupied slot is silently refused. */
  function PostJob(s: State, fd: int, op: Op, oneshot: bool, fn: int, ctx: int): State {
    if !s.allow || fn == 0 then s
    else
      var table := WithEntry(s.table, fd);
      var i := Find(s.table, fd);
      if Get(table[i], op).Job? then s
      else s.(table := table[i := Filled(table[i], op, Job(fn, ctx, oneshot, |s.places|))],
              places := s.places + [InTable(fd, op)],
              oneshots := s.oneshots + [oneshot],
              counter := if s.running then s.counter + 1 else s.counter)
  }

  /** A slot as the comparison in `io_service_remove_job` sees it: NULL and NULL when empty. */
  predicate Matches(slot: Slot, fn: int, ctx: int) {
    match slot
    case Empty => fn == 0 && ctx == 0
    case Job(f, c, _, _) => f == fn && c == ctx
  }

  /** `io_service_remove_job` */
  function RemoveJob(s: State, fd: int, op: Op, fn: int, ctx: int): State {
    var i := Find(s.table, fd);
    if i == |s.table| || !Matches(Get(s.table[i], op), fn, ctx) then s
    else
      var slot := Get(s.table[i], op);
      s.(table := s.table[i := Cleared(s.table[i], op)],
         places := if slot.Job? && slot.id < |s.places| then s.places[slot.id := Removed] else s.places,
         counter := if s.running then s.counter + 1 else s.counter)
  }

  /** `io_service_stop`; a waiting stop that overtakes a non-waiting one before the loop looks takes its place. */
  function StopService(s: State, wait: bool): State {
    s.(allow := false, running := wait, counter := s.counter + 1, hard := if wait then s.hard && s.phase == Exited else true)
  }

  /** The test of the `while` in `io_service_run`. */
  function LoopHead(s: State): State {
    s.(phase := if s.running then Polling else Exited)
  }

  /** `io_service_run` up to its first `epoll_wait` */
  function StartLoop(s: State): State {
    s.(kernel := AddAll(s.table, s.kernel), running := true, phase := Polling, hard := false)
  }

  /** The branch for the eventfd: the exit test, then the sweep. */
  function Sweep(s: State): State
    requires s.counter > 0
  {
    LoopHead(s.(
      counter := s.counter - 1,
      running := s.running && !(s.table == [] && !s.allow),
      kernel := SweptKernel(s.table, s.kernel),
      table := SweptTable(s.table)))
  }

  /** A one-shot job leaves its slot, and an entry left empty leaves the table and the kernel. */
  function TakeOneShot(s: State, i: nat, op: Op): State
    requires i < |s.table|
  {
    s.(kernel := if Cleared(s.table[i], op).events == {} then s.kernel - {s.table[i].fd} else s.kernel,
       table := Taken(s.table, i, op))
  }

  /** A job is selected: it runs outside the mutex next. */
  function Select(s: State, i: nat, op: Op, rest: seq<Op>): State
    requires i < |s.table| && Get(s.table[i], op).Job?
  {
    var slot, fd := Get(s.table[i], op), s.table[i].fd;
    var t := s.(selected := s.selected + [slot.id], phase := InJob(fd, rest));
    if slot.oneshot then
      TakeOneShot(t.(places := if slot.id < |s.places| then s.places[slot.id := Dispatched] else s.places), i, op)
    else t
  }

  /** The `for` over the operations that were reported, up to the first job found. */
  function Scan(s: State, fd: int, ops: seq<Op>): (t: State)
    ensures t.phase.InJob? ==> |t.phase.rest| < |ops|
    decreases |ops|
  {
    if ops == [] then LoopHead(s)
    else if SlotAt(s.table, fd, ops[0]).Job? then Select(s, Find(s.table, fd), ops[0], ops[1..])
    else Scan(s, fd, ops[1..])
  }

  function InOrder(ops: set<Op>): seq<Op> {
    (if Read in ops then [Read] else []) + (if Write in ops then [Write] else [])
  }

  predicate Enabled(s: State, l: Label) {
    match l
    case Post(_, _, _, _, _) => true
    case Remove(_, _, _, _) => true
    case Stop(_) => true
    case Start => s.phase == NotStarted || s.phase == Exited
    case PollError => s.phase == Polling
    case Notified => s.phase == Polling && s.counter > 0
    case Event(fd, ops) => s.phase == Polling && fd in s.kernel && ops <= s.kernel[fd]
    case Return => s.phase.InJob?
  }

  function Step(s: State, l: Label): State
    requires Enabled(s, l)
  {
    match l
    case Post(fd, op, oneshot, fn, ctx) => PostJob(s, fd, op, oneshot, fn, ctx)
    case Remove(fd, op, fn, ctx) => RemoveJob(s, fd, op, fn, ctx)
    case Stop(wait) => StopService(s, wait)
    case Start => StartLoop(s)
    case PollError => LoopHead(s)
    case Notified => Sweep(s)
    case Event(fd, ops) => Scan(s, fd, InOrder(ops))
    case Return => Scan(s, s.phase.fd, s.phase.rest)
  }

  ghost predicate IsRun(s: State, ls: seq<Label>, s': State)
    decreases |ls|
  {
    if ls == [] then s' == s else Enabled(s, ls[0]) && IsRun(Step(s, ls[0]), ls[1..], s')
  }

  // ---------- what every step keeps ----------

  /** A filled slot's operation is registered with the kernel. */
  ghost predicate Registered(s: State) {
    forall fd, op :: SlotAt(s.table, fd, op).Job? ==> fd in s.kernel && op in s.kernel[fd]
  }

  /** The kernel watches only descriptors that are in the table; nothing before the loop starts. */
  ghost predicate KernelInTable(s: State) {
    && (forall fd :: fd in s.kernel ==> Listed(s.table, fd))
    && (s.phase == NotStarted ==> s.kernel == map[])
  }

  /** Every registration is done, or a notification that will do it is pending. */
  ghost predicate NoneLost(s: State) {
    s.phase != NotStarted ==> s.counter > 0 || Registered(s)
  }

  /** How the flags go with the phase. */
  ghost predicate Flags(s: State) {
    && (s.phase == Exited ==> !s.allow)
    && ((s.phase == Polling || s.phase.InJob?) && s.allow ==> s.running)
    && (s.phase == Exited && !s.hard ==> s.table == [])
    && ((s.phase == Polling || s.phase.InJob?) && !s.running && !s.hard ==> s.table == [] && !s.allow)
  }

  /** Each accepted post is in exactly the slot that history says, or has left it for good. */
  ghost predicate Placed(s: State) {
    && |s.oneshots| == |s.places|
    && (forall fd, op :: SlotAt(s.table, fd, op).Job? ==>
          var slot := SlotAt(s.table, fd, op);
          slot.id < |s.places| && s.places[slot.id] == InTable(fd, op) && slot.oneshot == s.oneshots[slot.id])
    && (forall id :: 0 <= id < |s.places| && s.places[id].InTable? ==>
          SlotAt(s.table, s.places[id].fd, s.places[id].op).Job? && SlotAt(s.table, s.places[id].fd, s.places[id].op).id == id)
  }

  /** A one-shot post is selected once, and leaves the table by it. */
  ghost predicate SelectedOnce(s: State) {
    && |s.oneshots| == |s.places|
    && (forall k :: 0 <= k < |s.selected| ==> s.selected[k] < |s.places|)
    && (forall k :: 0 <= k < |s.selected| && s.oneshots[s.selected[k]] ==> s.places[s.selected[k]] == Dispatched)
    && (forall id :: 0 <= id < |s.places| && s.places[id] == Dispatched ==> s.oneshots[id] && id in s.selected)
    && (forall j, k :: 0 <= j < k < |s.selected| && s.selected[j] == s.selected[k] ==> !s.oneshots[s.selected[k]])
  }

  ghost predicate Inv(s: State) {
    WellFormed(s.table) && KernelInTable(s) && NoneLost(s) && Flags(s) && Placed(s) && SelectedOnce(s)
  }

  /** The table of `t` shows `slot` at one place and what `s` shows everywhere else. */
  ghost predicate ShowsAt(s: State, t: State, fd: int, op: Op, slot: Slot) {
    forall f, p :: SlotAt(t.table, f, p) == if f == fd && p == op then slot else SlotAt(s.table, f, p)
  }

  lemma FilledIsPlaced(s: State, t: State, fd: int, op: Op, slot: Slot)
    requires Placed(s) && SelectedOnce(s) && SlotAt(s.table, fd, op) == Empty
    requires slot.Job? && slot.id == |s.places| && ShowsAt(s, t, fd, op, slot)
    requires t.places == s.places + [InTable(fd, op)] && t.oneshots == s.oneshots + [slot.oneshot]
    requires t.selected == s.selected
    ensures Placed(t) && SelectedOnce(t)
  {
    forall id | 0 <= id < |t.places| && t.places[id].InTable?
      ensures SlotAt(t.table, t.places[id].fd, t.places[id].op).Job?
      ensures SlotAt(t.table, t.places[id].fd, t.places[id].op).id == id
    {
      if id < |s.places| { assert t.places[id] == s.places[id]; }
    }
  }

  lemma ClearedIsPlaced(s: State, t: State, fd: int, op: Op, place: Place)
    requires Placed(s) && SlotAt(s.table, fd, op).Job? && ShowsAt(s, t, fd, op, Empty)
    requires !place.InTable? && t.places == s.places[SlotAt(s.table, fd, op).id := place]
    requires t.oneshots == s.oneshots
    ensures Placed(t)
  {
  }

  lemma PostKeepsInv(s: State, fd: int, op: Op, oneshot: bool, fn: int, ctx: int)
    requires Inv(s)
    ensures Inv(PostJob(s, fd, op, oneshot, fn, ctx))
  {
    var t := PostJob(s, fd, op, oneshot, fn, ctx);
    if t != s {
      var table := WithEntry(s.table, fd);
      var slot := Job(fn, ctx, oneshot, |s.places|);
      WithEntrySees(s.table, fd);
      PutSees(table, fd, op, slot);
      FilledIsPlaced(s, t, fd, op, slot);
      forall f | Listed(s.table, f) ensures Listed(t.table, f) {
        assert t.table[Find(s.table, f)].fd == f;
      }
    }
  }

  lemma RemoveKeepsInv(s: State, fd: int, op: Op, fn: int, ctx: int)
    requires Inv(s)
    ensures Inv(RemoveJob(s, fd, op, fn, ctx))
  {
    var t := RemoveJob(s, fd, op, fn, ctx);
    var i := Find(s.table, fd);
    if t != s && Get(s.table[i], op) == Empty {
      // NULL removed from an empty slot: nothing but a notification
      assert Cleared(s.table[i], op) == s.table[i] by { assert op !in s.table[i].events; }
      assert t.table == s.table;
    } else if t != s {
      PutSees(s.table, fd, op, Empty);
      ClearedIsPlaced(s, t, fd, op, Removed);
      forall f ensures Find(t.table, f) == Find(s.table, f) { SameFds(s.table, t.table, f); }
    }
  }

  lemma StartKeepsInv(s: State)
    requires Inv(s) && (s.phase == NotStarted || s.phase == Exited)
    ensures Inv(StartLoop(s))
  {
    AddAllCovers(s.table, s.kernel);
    forall fd, op | SlotAt(s.table, fd, op).Job? && (s.phase == NotStarted || Registered(s))
      ensures fd in StartLoop(s).kernel && op in StartLoop(s).kernel[fd]
    {
      var i := Find(s.table, fd);
      assert op in s.table[i].events;
      assert Listed(s.table, fd);
    }
  }

  /** The sweep registers everything, so the notification it consumed is not missed. */
  lemma SweepKeepsInv(s: State)
    requires Inv(s) && s.phase == Polling && s.counter > 0
    ensures Inv(Sweep(s)) && Registered(Sweep(s))
  {
    var t := Sweep(s);
    SweptTableSees(s.table);
    SweptKernelCovers(s.table, s.kernel);
    forall fd, op | SlotAt(t.table, fd, op).Job?
      ensures fd in t.kernel && op in t.kernel[fd]
    {
      var i := Find(s.table, fd);
      assert op in s.table[i].events && Listed(s.table, fd);
    }
  }

  lemma SelectionIsOnce(s: State, t: State, id: nat)
    requires Placed(s) && SelectedOnce(s) && id < |s.places| && s.places[id].InTable?
    requires t.places == (if s.oneshots[id] then s.places[id := Dispatched] else s.places)
    requires t.oneshots == s.oneshots && t.selected == s.selected + [id]
    ensures SelectedOnce(t)
  {
    forall other | 0 <= other < |t.places| && t.places[other] == Dispatched
      ensures t.oneshots[other] && other in t.selected
    {
      if other != id {
        assert other in s.selected;
      }
    }
  }

  lemma SelectKeepsInv(s: State, i: nat, op: Op, rest: seq<Op>)
    requires Inv(s) && (s.phase == Polling || s.phase.InJob?)
    requires i < |s.table| && Get(s.table[i], op).Job?
    ensures Inv(Select(s, i, op, rest))
  {
    FindAt(s.table, i);
    var fd, slot := s.table[i].fd, Get(s.table[i], op);
    assert SlotAt(s.table, fd, op) == slot;
    var t := Select(s, i, op, rest);
    SelectionIsOnce(s, t, slot.id);
    if slot.oneshot {
      TakenSees(s.table, i, op);
      ClearedIsPlaced(s, t, fd, op, Dispatched);
      assert Listed(s.table, fd);
    }
  }

  lemma {:induction false} ScanKeepsInv(s: State, fd: int, ops: seq<Op>)
    requires Inv(s) && (s.phase == Polling || s.phase.InJob?)
    ensures Inv(Scan(s, fd, ops))
    decreases |ops|
  {
    if ops != [] {
      if SlotAt(s.table, fd, ops[0]).Job? {
        SelectKeepsInv(s, Find(s.table, fd), ops[0], ops[1..]);
      } else {
        ScanKeepsInv(s, fd, ops[1..]);
      }
    }
  }

  lemma StepKeepsInv(s: State, l: Label)
    requires Inv(s) && Enabled(s, l)
    ensures Inv(Step(s, l))
  {
    match l
    case Post(fd, op, oneshot, fn, ctx) => PostKeepsInv(s, fd, op, oneshot, fn, ctx);
    case Remove(fd, op, fn, ctx) => RemoveKeepsInv(s, fd, op, fn, ctx);
    case Stop(wait) =>
    case Start => StartKeepsInv(s);
    case PollError =>
    case Notified => SweepKeepsInv(s);
    case Event(fd, ops) => ScanKeepsInv(s, fd, InOrder(ops));
    case Return => ScanKeepsInv(s, s.phase.fd, s.phase.rest);
  }

  lemma {:induction false} RunKeepsInv(s: State, ls: seq<Label>, s': State)
    requires Inv(s) && IsRun(s, ls, s')
    ensures Inv(s')
    decreases |ls|
  {
    if ls != [] {
      StepKeepsInv(s, ls[0]);
      RunKeepsInv(Step(s, ls[0]), ls[1..], s');
    }
  }

  // ---------- the promises ----------

  /** No lost registration: a job in the table is registered, or a notification is pending that will register it. */
  lemma {:induction false} NoLostRegistration(s: State, ls: seq<Label>, s': State, fd: int, op: Op)
    requires Init(s) && IsRun(s, ls, s') && s'.phase != NotStarted && SlotAt(s'.table, fd, op).Job?
    ensures s'.counter > 0 || (fd in s'.kernel && op in s'.kernel[fd])
  {
    RunKeepsInv(s, ls, s');
  }

  /** The table never has two entries for a descriptor, and its bits say exactly which slots are filled. */
  lemma {:induction false} TableStaysWellFormed(s: State, ls: seq<Label>, s': State)
    requires Init(s) && IsRun(s, ls, s')
    ensures WellFormed(s'.table)
  {
    RunKeepsInv(s, ls, s');
  }

  /** Every accepted one-shot post is selected at most once, and is gone from the table if and only if it was selected or removed. */
  lemma {:induction false} OneShotAtMostOnce(s: State, ls: seq<Label>, s': State, id: nat)
    requires Init(s) && IsRun(s, ls, s') && id < |s'.places| && id < |s'.oneshots| && s'.oneshots[id]
    ensures multiset(s'.selected)[id] <= 1
    ensures multiset(s'.selected)[id] == 1 <==> s'.places[id] == Dispatched
    ensures (exists fd, op :: SlotAt(s'.table, fd, op).Job? && SlotAt(s'.table, fd, op).id == id) <==> s'.places[id].InTable?
  {
    RunKeepsInv(s, ls, s');
    CountOnce(s'.selected, id);
    if s'.places[id].InTable? {
      assert SlotAt(s'.table, s'.places[id].fd, s'.places[id].op).id == id;
    }
  }

  lemma {:induction false} CountOnce(ids: seq<nat>, id: nat)
    requires forall j, k :: 0 <= j < k < |ids| && ids[j] == ids[k] ==> ids[k] != id
    ensures multiset(ids)[id] <= 1
    ensures multiset(ids)[id] == 1 <==> id in ids
  {
    if ids != [] {
      assert ids == [ids[0]] + ids[1..];
      assert forall j :: 0 <= j < |ids[1..]| ==> ids[1..][j] == ids[j + 1];
      CountOnce(ids[1..], id);
    }
  }

  /** A post that was removed, or dispatched as a one-shot, is never selected again. */
  lemma {:induction false} NothingAfterRemoval(s: State, ls: seq<Label>, s': State, id: nat)
    requires Inv(s) && IsRun(s, ls, s') && id < |s.places| && !s.places[id].InTable?
    ensures id < |s'.places| && s'.places[id] == s.places[id]
    ensures multiset(s'.selected)[id] == multiset(s.selected)[id]
    decreases |ls|
  {
    if ls != [] {
      StepKeepsInv(s, ls[0]);
      GoneStaysGone(s, ls[0], id);
      NothingAfterRemoval(Step(s, ls[0]), ls[1..], s', id);
    }
  }

  lemma GoneStaysGone(s: State, l: Label, id: nat)
    requires Inv(s) && Enabled(s, l) && id < |s.places| && !s.places[id].InTable?
    ensures var t := Step(s, l);
      id < |t.places| && t.places[id] == s.places[id] && multiset(t.selected)[id] == multiset(s.selected)[id]
  {
    match l
    case Event(fd, ops) => ScanLeavesGone(s, fd, InOrder(ops), id);
    case Return => ScanLeavesGone(s, s.phase.fd, s.phase.rest, id);
    case Remove(fd, op, _, _) => assert SlotAt(s.table, fd, op).Job? ==> SlotAt(s.table, fd, op).id != id;
    case _ =>
  }

  lemma {:induction false} ScanLeavesGone(s: State, fd: int, ops: seq<Op>, id: nat)
    requires Placed(s) && id < |s.places| && !s.places[id].InTable?
    ensures var t := Scan(s, fd, ops);
      id < |t.places| && t.places[id] == s.places[id] && multiset(t.selected)[id] == multiset(s.selected)[id]
    decreases |ops|
  {
    if ops != [] {
      if SlotAt(s.table, fd, ops[0]).Job? {
        var other := SlotAt(s.table, fd, ops[0]).id;
        assert other != id;
        assert Scan(s, fd, ops).selected == s.selected + [other];
      } else {
        ScanLeavesGone(s, fd, ops[1..], id);
      }
    }
  }

  ghost predicate NoHardStop(ls: seq<Label>) {
    forall i :: 0 <= i < |ls| ==> ls[i] != Stop(false)
  }

  /** Once new posts are refused, a slot is filled only if it was, with the same job. */
  ghost predicate OnlyDrains(s: State, s': State) {
    forall fd, op :: SlotAt(s'.table, fd, op).Job? ==> SlotAt(s'.table, fd, op) == SlotAt(s.table, fd, op)
  }

  lemma RefusingOnlyDrains(s: State, l: Label)
    requires Inv(s) && Enabled(s, l) && !s.allow
    ensures !Step(s, l).allow && OnlyDrains(s, Step(s, l))
    ensures |Step(s, l).places| == |s.places|
    ensures !s.hard && l != Stop(false) ==> !Step(s, l).hard
  {
    match l
    case Remove(fd, op, fn, ctx) =>
      if RemoveJob(s, fd, op, fn, ctx) != s { PutSees(s.table, fd, op, Empty); }
    case Notified => SweptTableSees(s.table);
    case Event(fd, ops) => ScanOnlyDrains(s, fd, InOrder(ops));
    case Return => ScanOnlyDrains(s, s.phase.fd, s.phase.rest);
    case _ =>
  }

  lemma {:induction false} ScanOnlyDrains(s: State, fd: int, ops: seq<Op>)
    requires WellFormed(s.table)
    ensures var t := Scan(s, fd, ops);
      t.allow == s.allow && t.hard == s.hard && |t.places| == |s.places| && OnlyDrains(s, t)
    decreases |ops|
  {
    if ops != [] {
      if SlotAt(s.table, fd, ops[0]).Job? {
        TakenSees(s.table, Find(s.table, fd), ops[0]);
      } else {
        ScanOnlyDrains(s, fd, ops[1..]);
      }
    }
  }

  lemma ExitedIsEmpty(s: State)
    requires Inv(s) && s.phase == Exited && !s.hard
    ensures s.table == [] && forall id :: 0 <= id < |s.places| ==> !s.places[id].InTable?
  {
    assert forall fd, op :: SlotAt(s.table, fd, op) == Empty;
  }

  /**
   A graceful stop is safe: from it on, with no non-waiting stop, slots only empty, nothing new is
   accepted, and the loop exits only when every accepted post was dispatched or removed.
   */
  lemma {:induction false} GracefulStopDrains(s: State, ls: seq<Label>, s': State)
    requires Inv(s) && !s.allow && !s.hard && NoHardStop(ls) && IsRun(s, ls, s')
    ensures OnlyDrains(s, s') && |s'.places| == |s.places|
    ensures s'.phase == Exited ==> s'.table == []
    ensures s'.phase == Exited ==> forall id :: 0 <= id < |s'.places| ==> !s'.places[id].InTable?
    decreases |ls|
  {
    if ls != [] {
      StepKeepsInv(s, ls[0]);
      RefusingOnlyDrains(s, ls[0]);
      assert ls[0] != Stop(false);
      assert NoHardStop(ls[1..]) by { assert forall i :: 0 <= i < |ls[1..]| ==> ls[1..][i] == ls[i + 1]; }
      GracefulStopDrains(Step(s, ls[0]), ls[1..], s');
    } else if s.phase == Exited {
      ExitedIsEmpty(s);
    }
  }

  ghost predicate Watched(s: State, fd: int, op: Op) {
    fd in s.kernel && op in s.kernel[fd]
  }

  /** The kernel watches exactly the operations for which there is a job. */
  ghost predicate Exact(s: State) {
    forall fd, op :: Watched(s, fd, op) <==> SlotAt(s.table, fd, op).Job?
  }

  /**
   A one-shot job leaves its slot empty.  The kernel goes on watching the operation exactly when the
   descriptor has another job, because only an empty entry is taken out of the kernel's set.
   */
  lemma SurplusIffOtherJob(s: State, i: nat, op: Op, rest: seq<Op>)
    requires Inv(s) && i < |s.table| && Get(s.table[i], op).Job? && Get(s.table[i], op).oneshot
    ensures var t, fd := Select(s, i, op, rest), s.table[i].fd;
      && SlotAt(t.table, fd, op) == Empty
      && (Watched(t, fd, op) <==> s.table[i].events != {op} && Watched(s, fd, op))
  {
    TakenSees(s.table, i, op);
    assert op in s.table[i].events;
    assert Cleared(s.table[i], op).events == {} <==> s.table[i].events == {op} by {
      if Cleared(s.table[i], op).events == {} {
        assert forall p :: p in s.table[i].events ==> p == op || p in Cleared(s.table[i], op).events;
      }
    }
  }

  /** The sweep puts it right: whatever came before, afterwards the kernel watches exactly the filled slots. */
  lemma {:induction false} SurplusEndsAtSweep(s: State, ls: seq<Label>, s': State)
    requires Init(s) && IsRun(s, ls, s') && Enabled(s', Notified)
    ensures Exact(Step(s', Notified))
  {
    RunKeepsInv(s, ls, s');
    SweepIsExact(s');
  }

  lemma SweepIsExact(s: State)
    requires Inv(s) && s.phase == Polling && s.counter > 0
    ensures Exact(Sweep(s))
  {
    var t := Sweep(s);
    SweptTableSees(s.table);
    SweptKernelCovers(s.table, s.kernel);
    forall fd, op ensures Watched(t, fd, op) <==> SlotAt(t.table, fd, op).Job? {
      assert SlotAt(t.table, fd, op) == SlotAt(s.table, fd, op);
      if Listed(s.table, fd) {
        var e := s.table[Find(s.table, fd)];
        assert op in e.events <==> Get(e, op).Job?;
      }
    }
  }

  /** After a one-shot dispatch the kernel may watch for more than the table asks. */
  lemma {:induction false} KernelMayWatchMore() returns (s: State, ls: seq<Label>, s': State)
    ensures Init(s) && IsRun(s, ls, s') && s'.phase.InJob?
    ensures SlotAt(s'.table, 5, Read) == Empty && 5 in s'.kernel && Read in s'.kernel[5]
  {
    s := State(true, false, [], map[], 0, NotStarted, false, [], [], []);
    ls := [Post(5, Read, true, 1, 0), Post(5, Write, false, 1, 0), Start, Event(5, {Read})];
    var read, write := Job(1, 0, true, 0), Job(1, 0, false, 1);
    var s1 := Step(s, ls[0]);
    assert s1.table == [Entry(5, {Read}, read, Empty)] by { assert {} + {Read} == {Read}; }
    var s2 := Step(s1, ls[1]);
    assert Find(s1.table, 5) == 0 && WithEntry(s1.table, 5) == s1.table;
    assert s2.table == [Filled(s1.table[0], Write, write)];
    assert s2.table[0].events == {Read, Write};
    var s3 := Step(s2, Start);
    assert s3.kernel == map[5 := {Read, Write}] by { assert s2.table[1..] == []; }
    s' := Step(s3, Event(5, {Read}));
    assert ls[1..][1..][1..] == [Event(5, {Read})];
    assert IsRun(s3, [Event(5, {Read})], s');
  }

  /** Posts and removals change neither the flags nor the kernel's set, nor where the loop is, nor what it has selected. */
  ghost predicate Untouched(s: State, t: State) {
    && t.allow == s.allow && t.running == s.running && t.hard == s.hard && t.phase == s.phase
    && t.kernel == s.kernel && t.selected == s.selected
  }

  /**
   A removal takes the job out of its slot exactly when function and context are those of the job, and
   then the loop is notified.  Otherwise every slot stays as it was; there is a notification all the
   same when NULL is removed from the empty slot of a descriptor that is listed.
   */
  lemma RemovedIffSame(s: State, fd: int, op: Op, fn: int, ctx: int)
    requires Inv(s)
    ensures var t, slot := RemoveJob(s, fd, op, fn, ctx), SlotAt(s.table, fd, op);
      && Untouched(s, t) && t.oneshots == s.oneshots
      && (if slot.Job? && slot.fn == fn && slot.ctx == ctx then
            && ShowsAt(s, t, fd, op, Empty) && slot.id < |s.places| && t.places == s.places[slot.id := Removed]
            && t.counter == if s.running then s.counter + 1 else s.counter
          else
            && ShowsAt(s, t, fd, op, slot) && t.places == s.places
            && t.counter == if slot == Empty && Listed(s.table, fd) && fn == 0 && ctx == 0 && s.running
                            then s.counter + 1 else s.counter)
  {
    if Listed(s.table, fd) { PutSees(s.table, fd, op, Empty); }
  }

  /** A stop changes the flags and notifies; table, kernel and history stay. */
  lemma StopLeavesJobs(s: State, wait: bool)
    ensures var t := StopService(s, wait);
      && !t.allow && (t.running <==> wait) && t.counter > s.counter && t.phase == s.phase
      && t.table == s.table && t.kernel == s.kernel
      && t.places == s.places && t.oneshots == s.oneshots && t.selected == s.selected
  {
  }

  /** A loop that starts for the first time has the kernel watch exactly the filled slots. */
  lemma FirstStartIsExact(s: State)
    requires Inv(s) && s.phase == NotStarted
    ensures var t := StartLoop(s);
      && Exact(t) && t.running && t.phase == Polling && t.table == s.table && t.counter == s.counter && t.allow == s.allow
      && t.places == s.places && t.oneshots == s.oneshots && t.selected == s.selected
  {
    var t := StartLoop(s);
    AddAllCovers(s.table, s.kernel);
    forall fd, op ensures Watched(t, fd, op) <==> SlotAt(t.table, fd, op).Job? {
      if Listed(s.table, fd) {
        var e := s.table[Find(s.table, fd)];
        assert op in e.events <==> Get(e, op).Job?;
      }
    }
  }

  /** A notification is used up by a sweep, after which the loop goes on unless there is nothing left to wait for. */
  lemma SweepLeavesJobs(s: State)
    requires Inv(s) && s.phase == Polling && s.counter > 0
    ensures var t := Sweep(s);
      && Exact(t) && (forall fd, op :: SlotAt(t.table, fd, op) == SlotAt(s.table, fd, op)) && t.counter == s.counter - 1
      && (t.phase == Exited <==> !s.running || (s.table == [] && !s.allow)) && (t.phase != Exited ==> t.phase == Polling)
      && t.allow == s.allow && (t.running <==> t.phase == Polling)
      && t.places == s.places && t.oneshots == s.oneshots && t.selected == s.selected
  {
    SweepIsExact(s);
    SweptTableSees(s.table);
  }

  /** An interrupted wait changes nothing; the loop is back at its test. */
  lemma PollErrorIsIdle(s: State)
    requires Enabled(s, PollError)
    ensures Step(s, PollError) == s.(phase := if s.running then Polling else Exited)
  {
  }

  // ---------- what a reported event does ----------

  /** The first reported operation with a job is selected: what is left over, and what the table shows. */
  ghost predicate Selected(s: State, t: State, fd: int, op: Op, rest: seq<Op>) {
    var slot := SlotAt(s.table, fd, op);
    && slot.Job? && t.phase == InJob(fd, rest) && t.selected == s.selected + [slot.id]
    && ShowsAt(s, t, fd, op, if slot.oneshot then Empty else slot)
    && t.allow == s.allow && t.running == s.running && t.hard == s.hard && t.counter == s.counter
    && slot.id < |s.places| && t.places == if slot.oneshot then s.places[slot.id := Dispatched] else s.places
  }

  lemma {:induction false} ScanSelects(s: State, fd: int, ops: seq<Op>, k: nat)
    requires Inv(s) && k < |ops| && SlotAt(s.table, fd, ops[k]).Job?
    requires forall j :: 0 <= j < k ==> SlotAt(s.table, fd, ops[j]) == Empty
    ensures Selected(s, Scan(s, fd, ops), fd, ops[k], ops[k + 1..])
    decreases |ops|
  {
    if k == 0 {
      TakenSees(s.table, Find(s.table, fd), ops[0]);
    } else {
      assert SlotAt(s.table, fd, ops[0]) == Empty;
      ScanSelects(s, fd, ops[1..], k - 1);
      assert ops[1..][k..] == ops[k + 1..];
    }
  }

  lemma {:induction false} ScanPassesOver(s: State, fd: int, ops: seq<Op>)
    requires forall j :: 0 <= j < |ops| ==> SlotAt(s.table, fd, ops[j]) == Empty
    ensures Scan(s, fd, ops) == LoopHead(s)
    decreases |ops|
  {
    if ops != [] {
      assert SlotAt(s.table, fd, ops[0]) == Empty;
      ScanPassesOver(s, fd, ops[1..]);
    }
  }

  /**
   A reported event reaches the job that waits for it, one-shot or not; a write waits behind a read
   that is reported with it and has a job, and is looked at after that.
   */
  lemma EventIsServed(s: State, fd: int, ops: set<Op>, op: Op)
    requires Inv(s) && Enabled(s, Event(fd, ops)) && op in ops && SlotAt(s.table, fd, op).Job?
    requires op == Write && Read in ops ==> SlotAt(s.table, fd, Read) == Empty
    ensures Selected(s, Step(s, Event(fd, ops)), fd, op, if op == Read && Write in ops then [Write] else [])
  {
    var order := InOrder(ops);
    var k := if op == Write && Read in ops then 1 else 0;
    assert order[k] == op && order[k + 1..] == if op == Read && Write in ops then [Write] else [];
    ScanSelects(s, fd, order, k);
  }

  /** Callers can post, remove and stop at any time, and start a loop when there is none. */
  lemma CallersMayCall(s: State, fd: int, op: Op, oneshot: bool, fn: int, ctx: int, wait: bool)
    ensures Enabled(s, Post(fd, op, oneshot, fn, ctx)) && Enabled(s, Remove(fd, op, fn, ctx)) && Enabled(s, Stop(wait))
    ensures Enabled(s, Start) <==> s.phase == NotStarted || s.phase == Exited
  {
  }

  /**
   No waiting job is out of reach: when the loop waits, a notification is pending that makes the kernel
   watch for it, or the kernel may report it, and reporting it runs it.
   */
  lemma {:induction false} WaitingJobCanRun(init: State, ls: seq<Label>, s: State, fd: int, op: Op)
    requires Init(init) && IsRun(init, ls, s) && s.phase == Polling && SlotAt(s.table, fd, op).Job?
    ensures s.counter > 0 ==> Enabled(s, Notified) && Watched(Step(s, Notified), fd, op)
    ensures s.counter == 0 ==> Enabled(s, Event(fd, {op})) && Selected(s, Step(s, Event(fd, {op})), fd, op, [])
  {
    RunKeepsInv(init, ls, s);
    if s.counter > 0 {
      SweepLeavesJobs(s);
    } else {
      assert Registered(s);
      EventIsServed(s, fd, {op}, op);
    }
  }

  /** An event without a job changes nothing; the loop is back at its test. */
  lemma EventIsIdle(s: State, fd: int, ops: set<Op>)
    requires Enabled(s, Event(fd, ops)) && forall op :: op in ops ==> SlotAt(s.table, fd, op) == Empty
    ensures Step(s, Event(fd, ops)) == s.(phase := if s.running then Polling else Exited)
  {
    ScanPassesOver(s, fd, InOrder(ops));
  }

  /** After a job, what is left over of the event reaches its job too. */
  lemma ReturnIsServed(s: State, k: nat)
    requires Inv(s) && s.phase.InJob? && k < |s.phase.rest| && SlotAt(s.table, s.phase.fd, s.phase.rest[k]).Job?
    requires forall j :: 0 <= j < k ==> SlotAt(s.table, s.phase.fd, s.phase.rest[j]) == Empty
    ensures Selected(s, Step(s, Return), s.phase.fd, s.phase.rest[k], s.phase.rest[k + 1..])
  {
    ScanSelects(s, s.phase.fd, s.phase.rest, k);
  }

  lemma ReturnIsIdle(s: State)
    requires s.phase.InJob?
    requires forall j :: 0 <= j < |s.phase.rest| ==> SlotAt(s.table, s.phase.fd, s.phase.rest[j]) == Empty
    ensures Step(s, Return) == s.(phase := if s.running then Polling else Exited)
  {
    ScanPassesOver(s, s.phase.fd, s.phase.rest);
  }

  /** A post is accepted exactly when the service still allows posts and the slot is free; it fills that slot only. */
  lemma PostAccepted(s: State, fd: int, op: Op, oneshot: bool, fn: int, ctx: int)
    requires Inv(s)
    ensures var t := PostJob(s, fd, op, oneshot, fn, ctx);
      if s.allow && fn != 0 && SlotAt(s.table, fd, op) == Empty
      then
        && ShowsAt(s, t, fd, op, Job(fn, ctx, oneshot, |s.places|))
        && t.places == s.places + [InTable(fd, op)] && t.oneshots == s.oneshots + [oneshot]
        && t.counter == (if s.running then s.counter + 1 else s.counter) && Untouched(s, t)
      else t == s
  {
    WithEntrySees(s.table, fd);
    if s.allow && fn != 0 && SlotAt(s.table, fd, op) == Empty {
      PutSees(WithEntry(s.table, fd), fd, op, Job(fn, ctx, oneshot, |s.places|));
    }
  }

  lemma StepKeepsPlace(s: State, l: Label, id: nat)
    requires Inv(s) && Enabled(s, l) && id < |s.places|
    ensures id < |Step(s, l).places|
    ensures Step(s, l).places[id].InTable? ==> Step(s, l).places[id] == s.places[id]
  {
    match l
    case Event(fd, ops) => ScanKeepsPlace(s, fd, InOrder(ops), id);
    case Return => ScanKeepsPlace(s, s.phase.fd, s.phase.rest, id);
    case _ =>
  }

  lemma {:induction false} ScanKeepsPlace(s: State, fd: int, ops: seq<Op>, id: nat)
    requires id < |s.places|
    ensures id < |Scan(s, fd, ops).places|
    ensures Scan(s, fd, ops).places[id].InTable? ==> Scan(s, fd, ops).places[id] == s.places[id]
    decreases |ops|
  {
    if ops != [] && !SlotAt(s.table, fd, ops[0]).Job? { ScanKeepsPlace(s, fd, ops[1..], id); }
  }

  /** An accepted post that is still in the table is where it was put. */
  lemma {:induction false} StillInPlace(s: State, ls: seq<Label>, s': State, id: nat)
    requires Inv(s) && IsRun(s, ls, s') && id < |s.places|
    ensures id < |s'.places| && (s'.places[id].InTable? ==> s'.places[id] == s.places[id])
    decreases |ls|
  {
    if ls != [] {
      StepKeepsInv(s, ls[0]);
      StepKeepsPlace(s, ls[0], id);
      StillInPlace(Step(s, ls[0]), ls[1..], s', id);
    }
  }
}
