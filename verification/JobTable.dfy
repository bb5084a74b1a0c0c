/**
 The lookup table of io-service/io-service.c: one entry per descriptor, one job slot per operation.

 `SlotAt` reads the table the way the loops of the C file do, by the first entry with the
 descriptor.  The lemmas say how each table operation changes what `SlotAt` sees.
 */
module JobTable {
  import opened Sequences

  /** IO_SVC_OP_READ, IO_SVC_OP_WRITE */
  datatype Op = Read | Write

  /** `job_t`; Empty is a NULL function.  `id` numbers the accepted posts and is history. */
  datatype Slot = Empty | Job(fn: int, ctx: int, oneshot: bool, id: nat)

  /** `lookup_table_element_t`; `events` is the EPOLLIN/EPOLLOUT mask kept for the kernel. */
  datatype Entry = Entry(fd: int, events: set<Op>, read: Slot, write: Slot)

  function Get(e: Entry, op: Op): Slot {
    match op case Read => e.read case Write => e.write
  }

  function Put(e: Entry, op: Op, slot: Slot): Entry {
    match op case Read => e.(read := slot) case Write => e.(write := slot)
  }

  function Filled(e: Entry, op: Op, slot: Slot): Entry {
    Put(e, op, slot).(events := e.events + {op})
  }

  function Cleared(e: Entry, op: Op): Entry {
    Put(e, op, Empty).(events := e.events - {op})
  }

  /** The first entry for `fd`, or the length of the table. */
  function Find(table: seq<Entry>, fd: int): (r: nat)
    ensures r <= |table| && (r < |table| ==> table[r].fd == fd)
    ensures forall j :: 0 <= j < r ==> table[j].fd != fd
  {
    if table == [] || table[0].fd == fd then 0 else 1 + Find(table[1..], fd)
  }

  function SlotAt(table: seq<Entry>, fd: int, op: Op): Slot {
    if Find(table, fd) < |table| then Get(table[Find(table, fd)], op) else Empty
  }

  /** At most one entry per descriptor, and an event bit exactly for a filled slot. */
  ghost predicate WellFormed(table: seq<Entry>) {
    && (forall i, j :: 0 <= i < j < |table| ==> table[i].fd != table[j].fd)
    && (forall i, op :: 0 <= i < |table| ==> (op in table[i].events <==> Get(table[i], op).Job?))
  }

  /** The table with an entry for `fd`, as after the search of `io_service_post_job`. */
  function WithEntry(table: seq<Entry>, fd: int): (r: seq<Entry>)
    ensures Find(table, fd) < |r|
  {
    if Find(table, fd) < |table| then table else table + [Entry(fd, {}, Empty, Empty)]
  }

  lemma FindAt(table: seq<Entry>, i: nat)
    requires WellFormed(table) && i < |table|
    ensures Find(table, table[i].fd) == i
  {
  }

  lemma WithEntrySees(table: seq<Entry>, fd: int)
    requires WellFormed(table)
    ensures WellFormed(WithEntry(table, fd)) && Find(WithEntry(table, fd), fd) == Find(table, fd)
    ensures WithEntry(table, fd)[Find(table, fd)].fd == fd
    ensures forall f, op :: SlotAt(WithEntry(table, fd), f, op) == SlotAt(table, f, op)
  {
    var r := WithEntry(table, fd);
    FindAt(r, Find(table, fd));
    forall f, op: Op ensures SlotAt(r, f, op) == SlotAt(table, f, op) {
      if Find(table, f) < |table| {
        assert r[Find(table, f)] == table[Find(table, f)];
        FindAt(r, Find(table, f));
      } else if Find(r, f) < |r| {
        assert r[Find(r, f)] == Entry(fd, {}, Empty, Empty);
      }
    }
  }

  /** Writing one slot, with its bit, changes what is seen there and nowhere else. */
  lemma PutSees(table: seq<Entry>, fd: int, op: Op, slot: Slot)
    requires WellFormed(table) && Find(table, fd) < |table|
    ensures var i := Find(table, fd);
      var r := table[i := if slot.Job? then Filled(table[i], op, slot) else Cleared(table[i], op)];
      && WellFormed(r) && Find(r, fd) == i
      && forall f, p :: SlotAt(r, f, p) == if f == fd && p == op then slot else SlotAt(table, f, p)
  {
    var i := Find(table, fd);
    var r := table[i := if slot.Job? then Filled(table[i], op, slot) else Cleared(table[i], op)];
    assert WellFormed(r);
    forall f, p: Op ensures SlotAt(r, f, p) == if f == fd && p == op then slot else SlotAt(table, f, p) {
      SameFds(table, r, f);
    }
    SameFds(table, r, fd);
  }

  lemma {:induction false} SameFds(a: seq<Entry>, b: seq<Entry>, fd: int)
    requires |a| == |b| && forall i :: 0 <= i < |a| ==> a[i].fd == b[i].fd
    ensures Find(a, fd) == Find(b, fd)
  {
    if a != [] { SameFds(a[1..], b[1..], fd); }
  }

  ghost predicate Listed(table: seq<Entry>, fd: int) {
    Find(table, fd) < |table|
  }

  lemma DeleteLists(table: seq<Entry>, i: nat)
    requires WellFormed(table) && i < |table|
    ensures forall f :: Listed(Without(table, i), f) <==> Listed(table, f) && f != table[i].fd
  {
    var r := Without(table, i);
    assert forall j :: 0 <= j < |r| ==> r[j] == if j < i then table[j] else table[j + 1];
    forall f | Listed(table, f) && f != table[i].fd ensures Listed(r, f) {
      var k := Find(table, f);
      assert r[if k < i then k else k - 1] == table[k];
    }
    forall f | Listed(r, f) ensures Listed(table, f) && f != table[i].fd {
      var k := Find(r, f);
      assert table[if k < i then k else k + 1] == r[k];
    }
  }

  /** A slot is emptied, and its entry leaves when nothing else is in it. */
  function Taken(table: seq<Entry>, i: nat, op: Op): seq<Entry>
    requires i < |table|
  {
    var r := table[i := Cleared(table[i], op)];
    if r[i].events == {} then Without(r, i) else r
  }

  lemma TakenSees(table: seq<Entry>, i: nat, op: Op)
    requires WellFormed(table) && i < |table|
    ensures WellFormed(Taken(table, i, op))
    ensures forall f, p ::
      SlotAt(Taken(table, i, op), f, p) == (if f == table[i].fd && p == op then Empty else SlotAt(table, f, p))
    ensures forall f :: Listed(Taken(table, i, op), f) <==>
      Listed(table, f) && (f != table[i].fd || Cleared(table[i], op).events != {})
  {
    var r := table[i := Cleared(table[i], op)];
    FindAt(table, i);
    PutSees(table, table[i].fd, op, Empty);
    forall f ensures Find(r, f) == Find(table, f) { SameFds(table, r, f); }
    if r[i].events == {} { DeleteSees(r, i); }
  }

  /** Dropping an entry with nothing in it is not seen. */
  lemma DeleteSees(table: seq<Entry>, i: nat)
    requires WellFormed(table) && i < |table| && table[i].events == {}
    ensures WellFormed(Without(table, i)) && Find(Without(table, i), table[i].fd) == |table| - 1
    ensures forall f, op :: SlotAt(Without(table, i), f, op) == SlotAt(table, f, op)
    ensures forall f :: Listed(Without(table, i), f) <==> Listed(table, f) && f != table[i].fd
  {
    var r := Without(table, i);
    DeleteLists(table, i);
    assert forall j :: 0 <= j < |r| ==> r[j] == if j < i then table[j] else table[j + 1];
    forall f, op: Op ensures SlotAt(r, f, op) == SlotAt(table, f, op) {
      var k := Find(table, f);
      if k < |table| && k != i {
        var k' := if k < i then k else k - 1;
        assert r[k'] == table[k];
        FindAt(r, k');
      } else if Find(r, f) < |r| {
        assert false;
      } else if k < |table| {
        assert op !in table[i].events;
      }
    }
  }

  // ---------- the kernel interest set ----------

  /** What `epoll` was told, per descriptor. */
  type Kernel = map<int, set<Op>>

  /** `EPOLL_CTL_ADD` for every entry; it fails on a descriptor that is already known. */
  function AddAll(table: seq<Entry>, kernel: Kernel): Kernel {
    if table == [] then kernel
    else AddAll(table[1..], if table[0].fd in kernel then kernel else kernel[table[0].fd := table[0].events])
  }

  lemma {:induction false} AddAllCovers(table: seq<Entry>, kernel: Kernel)
    requires WellFormed(table)
    ensures forall fd :: fd in AddAll(table, kernel) <==> fd in kernel || Listed(table, fd)
    ensures forall fd :: fd in kernel ==> AddAll(table, kernel)[fd] == kernel[fd]
    ensures forall fd :: Listed(table, fd) && fd !in kernel ==>
      AddAll(table, kernel)[fd] == table[Find(table, fd)].events
  {
    if table != [] {
      var e := table[0];
      var kernel' := if e.fd in kernel then kernel else kernel[e.fd := e.events];
      assert forall j :: 0 <= j < |table[1..]| ==> table[1..][j] == table[j + 1];
      AddAllCovers(table[1..], kernel');
      assert Find(table[1..], e.fd) == |table[1..]|;
      forall fd ensures Find(table, fd) == if fd == e.fd then 0 else 1 + Find(table[1..], fd) {}
    }
  }

  /** The sweep of `io_service_run`: empty entries leave, the others tell the kernel their mask. */
  function SweptTable(table: seq<Entry>): seq<Entry> {
    if table == [] then []
    else (if table[0].events == {} then [] else [table[0]]) + SweptTable(table[1..])
  }

  /** `EPOLL_CTL_DEL` for an empty entry; otherwise `EPOLL_CTL_MOD`, or `EPOLL_CTL_ADD` when it is not known. */
  function Told(e: Entry, kernel: Kernel): Kernel {
    if e.events == {} then kernel - {e.fd} else kernel[e.fd := e.events]
  }

  function SweptKernel(table: seq<Entry>, kernel: Kernel): Kernel {
    if table == [] then kernel
    else SweptKernel(table[1..], Told(table[0], kernel))
  }

  /** One round of the sweep loop at entry `i`, which leaves or stays. */
  lemma SweepRound(table: seq<Entry>, i: nat, kernel: Kernel)
    requires i < |table|
    ensures var r := Without(table, i);
      table[i].events == {} ==>
        r[..i] == table[..i] && r[i..] == table[i + 1..] && SweptTable(table[i..]) == SweptTable(table[i + 1..])
    ensures table[i].events != {} ==>
      table[..i] + SweptTable(table[i..]) == table[..i + 1] + SweptTable(table[i + 1..])
    ensures SweptKernel(table[i..], kernel) == SweptKernel(table[i + 1..], Told(table[i], kernel))
  {
    assert table[i..][0] == table[i] && table[i..][1..] == table[i + 1..];
    if table[i].events != {} {
      assert table[..i + 1] == table[..i] + [table[i]];
    }
  }

  lemma {:induction false} SweptMembers(table: seq<Entry>)
    ensures forall e :: e in SweptTable(table) ==> e in table && e.events != {}
  {
    if table != [] { SweptMembers(table[1..]); }
  }

  lemma TailWellFormed(table: seq<Entry>)
    requires WellFormed(table) && table != []
    ensures WellFormed(table[1..]) && Find(table[1..], table[0].fd) == |table| - 1
    ensures forall e :: e in table[1..] ==> e.fd != table[0].fd
  {
    assert forall j :: 0 <= j < |table[1..]| ==> table[1..][j] == table[j + 1];
  }

  lemma {:induction false} SweptFdsDiffer(table: seq<Entry>, i: nat, j: nat)
    requires WellFormed(table) && i < j < |SweptTable(table)|
    ensures SweptTable(table)[i].fd != SweptTable(table)[j].fd
  {
    var r, rest := SweptTable(table), SweptTable(table[1..]);
    TailWellFormed(table);
    if table[0].events == {} {
      SweptFdsDiffer(table[1..], i, j);
    } else if i > 0 {
      SweptFdsDiffer(table[1..], i - 1, j - 1);
    } else {
      assert rest[j - 1] in rest;
      SweptMembers(table[1..]);
    }
  }

  lemma {:induction false} SweptWellFormed(table: seq<Entry>)
    requires WellFormed(table)
    ensures WellFormed(SweptTable(table))
  {
    var r := SweptTable(table);
    SweptMembers(table);
    forall i, j | 0 <= i < j < |r| ensures r[i].fd != r[j].fd {
      SweptFdsDiffer(table, i, j);
    }
    forall i, op | 0 <= i < |r| ensures op in r[i].events <==> Get(r[i], op).Job? {
      assert r[i] in r;
    }
  }

  lemma {:induction false} SweptSlot(table: seq<Entry>, fd: int, op: Op)
    requires WellFormed(table)
    ensures SlotAt(SweptTable(table), fd, op) == SlotAt(table, fd, op)
    ensures Listed(SweptTable(table), fd) <==> Listed(table, fd) && table[Find(table, fd)].events != {}
  {
    if table != [] {
      TailWellFormed(table);
      SweptSlot(table[1..], fd, op);
      if table[0].events != {} {
        assert SweptTable(table)[1..] == SweptTable(table[1..]);
      } else {
        assert SweptTable(table) == SweptTable(table[1..]);
        assert op !in table[0].events;
      }
    }
  }

  lemma SweptTableSees(table: seq<Entry>)
    requires WellFormed(table)
    ensures WellFormed(SweptTable(table))
    ensures forall fd, op :: SlotAt(SweptTable(table), fd, op) == SlotAt(table, fd, op)
    ensures forall fd :: Listed(SweptTable(table), fd) <==> Listed(table, fd) && table[Find(table, fd)].events != {}
  {
    SweptWellFormed(table);
    forall fd, op ensures SlotAt(SweptTable(table), fd, op) == SlotAt(table, fd, op) { SweptSlot(table, fd, op); }
    forall fd ensures Listed(SweptTable(table), fd) <==> Listed(table, fd) && table[Find(table, fd)].events != {} {
      SweptSlot(table, fd, Read);
    }
  }

  lemma {:induction false} SweptKernelCovers(table: seq<Entry>, kernel: Kernel)
    requires WellFormed(table)
    ensures var k := SweptKernel(table, kernel);
      forall fd :: fd in k <==> if Listed(table, fd) then table[Find(table, fd)].events != {} else fd in kernel
    ensures var k := SweptKernel(table, kernel);
      forall fd :: fd in k ==> k[fd] == if Listed(table, fd) then table[Find(table, fd)].events else kernel[fd]
  {
    if table != [] {
      var e, rest := table[0], table[1..];
      assert forall j :: 0 <= j < |rest| ==> rest[j] == table[j + 1];
      SweptKernelCovers(rest, Told(e, kernel));
      assert Find(rest, e.fd) == |rest|;
    }
  }
}
