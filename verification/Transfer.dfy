/**
 The asynchronous transfers of network/network.c: a buffer that is sent or filled by one-shot jobs,
 each of which moves what the socket takes and posts itself again for the rest.

 The TCP code serves both directions; the UDP send repeats it word for word.  The socket is the
 environment: it decides what each call moves, and the I/O service whether a post is accepted.
 */
module Transfer {

  type Byte = bv8

  datatype Direction = Send | Receive

  /** What `sendmsg` or `recvmsg` does on one call: bytes moved, EAGAIN or EWOULDBLOCK, another error. */
  datatype Io = Moved(data: seq<Byte>) | WouldBlock | Failed(errno: int)

  /** One run of the job; `accepted` says whether a post made by it was taken by the I/O service. */
  datatype Round = Round(io: Io, accepted: bool)

  /** Posted: the job waits in the I/O service.  Completed: reported and freed.  Lost: a post was refused. */
  datatype Status = Posted | Completed(errno: int) | Lost

  /** `callbacks` and `frees` count what happened to the request; `moved` is all that passed the socket, in order. */
  datatype State = State(
    direction: Direction, buffer: seq<Byte>, done: nat, status: Status, hasCallback: bool,
    moved: seq<Byte>, callbacks: nat, frees: nat)

  /** `tcp_send_recv_async`, `udp_send_async`: start over and post the job. */
  function Started(s: State, accepted: bool): State {
    s.(done := 0, status := if accepted then Posted else Lost)
  }

  /** The bytes that `iov_base` and `iov_len` point at. */
  function Vector(s: State): seq<Byte>
    requires s.done <= |s.buffer|
  {
    s.buffer[s.done..]
  }

  /** The socket moves no more than the vector holds, and sends what is in it. */
  ghost predicate Possible(s: State, io: Io) {
    s.done <= |s.buffer| &&
    (io.Moved? ==>
      |io.data| <= |Vector(s)| && (s.direction == Send ==> io.data == Vector(s)[..|io.data|]))
  }

  function Finished(s: State, errno: int): State {
    s.(status := Completed(errno), frees := s.frees + 1, callbacks := if s.hasCallback then s.callbacks + 1 else s.callbacks)
  }

  function Posting(s: State, accepted: bool): State {
    s.(status := if accepted then Posted else Lost)
  }

  /** The buffer after the socket has had its way with the vector. */
  function BufferAfter(s: State, data: seq<Byte>): seq<Byte>
    requires s.done + |data| <= |s.buffer|
  {
    match s.direction
    case Send => s.buffer
    case Receive => s.buffer[..s.done] + data + s.buffer[s.done + |data|..]
  }

  /** `tcp_send_recv_async_tpl`, `udp_send_async_tpl` */
  ghost function Ran(s: State, r: Round): State
    requires s.status == Posted && Possible(s, r.io)
  {
    match r.io
    case WouldBlock => Posting(s, r.accepted)
    case Failed(errno) => Finished(s, errno)
    case Moved(data) =>
      var t := s.(buffer := BufferAfter(s, data), moved := s.moved + data, done := s.done + |data|);
      if t.done < |t.buffer| then Posting(t, r.accepted) else Finished(t, 0)
  }

  /** A schedule: every round finds the job posted, and does what a socket can do. */
  ghost predicate IsRun(s: State, rs: seq<Round>, s': State)
    decreases |rs|
  {
    if rs == [] then s' == s
    else s.status == Posted && Possible(s, rs[0].io) && IsRun(Ran(s, rs[0]), rs[1..], s')
  }

  // ---------- what every round keeps ----------

  /** What passed the socket is the part of the buffer before `done`; nothing is reported or freed twice. */
  ghost predicate Inv(s: State) {
    && s.done <= |s.buffer|
    && s.moved == s.buffer[..s.done]
    && s.frees == (if s.status.Completed? then 1 else 0)
    && s.callbacks == (if s.status.Completed? && s.hasCallback then 1 else 0)
    && (s.status == Completed(0) ==> s.done == |s.buffer|)
  }

  function DataOf(io: Io): seq<Byte> {
    if io.Moved? then io.data else []
  }

  /** The bytes of all rounds, one after the other. */
  ghost function AllData(rs: seq<Round>): seq<Byte> {
    if rs == [] then [] else DataOf(rs[0].io) + AllData(rs[1..])
  }

  ghost predicate ErrnosAreErrors(rs: seq<Round>) {
    forall i :: 0 <= i < |rs| && rs[i].io.Failed? ==> rs[i].io.errno != 0
  }

  lemma RanKeepsInv(s: State, r: Round)
    requires Inv(s) && s.status == Posted && Possible(s, r.io) && (r.io.Failed? ==> r.io.errno != 0)
    ensures Inv(Ran(s, r))
    ensures |Ran(s, r).buffer| == |s.buffer| && Ran(s, r).buffer[Ran(s, r).done..] == s.buffer[Ran(s, r).done..]
    ensures s.direction == Send ==> Ran(s, r).buffer == s.buffer
    ensures Ran(s, r).direction == s.direction && Ran(s, r).hasCallback == s.hasCallback
    ensures Ran(s, r).moved == s.moved + DataOf(r.io)
  {
    if r.io.Moved? {
      var t := Ran(s, r);
      assert t.buffer[..t.done] == s.buffer[..s.done] + r.io.data;
    }
  }

  lemma SameTail(a: seq<Byte>, b: seq<Byte>, m: nat, n: nat)
    requires m <= n <= |a| == |b| && a[m..] == b[m..]
    ensures a[n..] == b[n..]
  {
    assert a[n..] == a[m..][n - m..] && b[n..] == b[m..][n - m..];
  }

  lemma Regroup(a: seq<Byte>, b: seq<Byte>, c: seq<Byte>)
    ensures a + (b + c) == (a + b) + c
  {
  }

  lemma Later(rs: seq<Round>)
    requires rs != [] && ErrnosAreErrors(rs)
    ensures ErrnosAreErrors(rs[1..]) && (rs[0].io.Failed? ==> rs[0].io.errno != 0)
  {
    assert forall i :: 0 <= i < |rs[1..]| ==> rs[1..][i] == rs[i + 1];
  }

  /** The socket may take any part of what is left to send, deliver any bytes that fit, take nothing, or fail. */
  lemma SocketMayDo(s: State, n: nat, data: seq<Byte>, errno: int)
    requires Inv(s)
    ensures Possible(s, WouldBlock) && Possible(s, Failed(errno))
    ensures s.direction == Send && n <= |s.buffer| - s.done ==> Possible(s, Moved(s.buffer[s.done..s.done + n]))
    ensures s.direction == Receive && |data| <= |s.buffer| - s.done ==> Possible(s, Moved(data))
  {
    if n <= |s.buffer| - s.done { assert s.buffer[s.done..][..n] == s.buffer[s.done..s.done + n]; }
  }

  /**
   For every schedule: the bytes moved are exactly the buffer up to `done`, in order, none skipped or
   repeated.
   */
  lemma {:induction false} MovesExactlyThePrefix(s: State, rs: seq<Round>, s': State)
    requires Inv(s) && IsRun(s, rs, s') && ErrnosAreErrors(rs)
    ensures Inv(s') && s'.moved == s.moved + AllData(rs) && s'.moved == s'.buffer[..s'.done]
    decreases |rs|
  {
    if rs != [] {
      var t, d := Ran(s, rs[0]), DataOf(rs[0].io);
      RanKeepsInv(s, rs[0]);
      Later(rs);
      MovesExactlyThePrefix(t, rs[1..], s');
      Regroup(s.moved, d, AllData(rs[1..]));
    }
  }

  /** What lies behind is untouched, and a sent buffer is never written. */
  lemma {:induction false} LeavesTheRestAlone(s: State, rs: seq<Round>, s': State)
    requires Inv(s) && IsRun(s, rs, s') && ErrnosAreErrors(rs)
    ensures |s'.buffer| == |s.buffer| && s.done <= s'.done <= |s.buffer|
    ensures s'.buffer[s'.done..] == s.buffer[s'.done..]
    ensures s.direction == Send ==> s'.buffer == s.buffer
    decreases |rs|
  {
    if rs != [] {
      var t := Ran(s, rs[0]);
      RanKeepsInv(s, rs[0]);
      Later(rs);
      LeavesTheRestAlone(t, rs[1..], s');
      SameTail(t.buffer, s.buffer, t.done, s'.done);
    }
  }

  /** A round that ends the operation: a hard error, or the last byte. */
  ghost predicate Ends(s: State, r: Round)
    requires Possible(s, r.io)
  {
    r.io.Failed? || (r.io.Moved? && s.done + |r.io.data| == |s.buffer|)
  }

  /** The round at the end of a schedule, seen from the state before it. */
  lemma {:induction false} LastRound(s: State, rs: seq<Round>, s': State) returns (before: State)
    requires rs != [] && IsRun(s, rs, s')
    ensures before.status == Posted && Possible(before, rs[|rs| - 1].io) && s' == Ran(before, rs[|rs| - 1])
    ensures IsRun(s, rs[..|rs| - 1], before)
    decreases |rs|
  {
    if |rs| == 1 {
      before := s;
    } else {
      before := LastRound(Ran(s, rs[0]), rs[1..], s');
      assert rs[..|rs| - 1][1..] == rs[1..][..|rs| - 2];
    }
  }

  /**
   When every post is accepted, the request is completed and freed exactly once if the schedule ends
   in a hard error or with the last byte, and otherwise it is still waiting, untouched.
   */
  lemma {:induction false} CompletesExactlyOnce(s: State, rs: seq<Round>, s': State) returns (before: State)
    requires Inv(s) && s.status == Posted && rs != [] && IsRun(s, rs, s') && ErrnosAreErrors(rs)
    requires forall i :: 0 <= i < |rs| ==> rs[i].accepted
    ensures IsRun(s, rs[..|rs| - 1], before) && Possible(before, rs[|rs| - 1].io)
    ensures Ends(before, rs[|rs| - 1]) ==> s'.frees == 1 && (s'.hasCallback ==> s'.callbacks == 1)
    ensures Ends(before, rs[|rs| - 1]) ==>
      s'.status == Completed(if rs[|rs| - 1].io.Failed? then rs[|rs| - 1].io.errno else 0)
    ensures s'.status == Completed(0) ==> s'.moved == s'.buffer
    ensures !Ends(before, rs[|rs| - 1]) ==> s'.status == Posted && s'.frees == 0 && s'.callbacks == 0
  {
    MovesExactlyThePrefix(s, rs, s');
    before := LastRound(s, rs, s');
  }

  /** Nothing has happened to the request yet. */
  ghost predicate Fresh(s: State) {
    s.moved == [] && s.callbacks == 0 && s.frees == 0
  }

  /** A schedule goes on only as long as its posts are accepted. */
  lemma {:induction false} EarlierPostsAccepted(s: State, rs: seq<Round>, s': State, k: nat)
    requires IsRun(s, rs, s') && k < |rs| - 1
    ensures rs[k].accepted
    decreases |rs|
  {
    if k > 0 { EarlierPostsAccepted(Ran(s, rs[0]), rs[1..], s', k - 1); }
  }

  /**
   A request is lost, neither reported nor freed, exactly when a post it needed was refused: the very
   first one, or the one of a round that did not end the transfer.  That round is then the last.
   */
  lemma {:induction false} LostIffPostRefused(request: State, first: bool, rs: seq<Round>, s': State) returns (before: State)
    requires Fresh(request) && IsRun(Started(request, first), rs, s') && ErrnosAreErrors(rs)
    ensures rs != [] ==> first && IsRun(Started(request, true), rs[..|rs| - 1], before) && Possible(before, rs[|rs| - 1].io)
    ensures s'.status == Lost <==>
      if rs == [] then !first else !rs[|rs| - 1].accepted && !Ends(before, rs[|rs| - 1])
    ensures forall k :: 0 <= k < |rs| - 1 ==> rs[k].accepted
    ensures s'.status == Lost ==> s'.frees == 0 && s'.callbacks == 0 && s'.moved == AllData(rs)
  {
    before := request;
    MovesExactlyThePrefix(Started(request, first), rs, s');
    if rs != [] {
      before := LastRound(Started(request, first), rs, s');
      forall k | 0 <= k < |rs| - 1 ensures rs[k].accepted {
        EarlierPostsAccepted(Started(request, first), rs, s', k);
      }
    }
  }

  /** At the end of the peer's stream a receive moves nothing and posts again: no number of rounds completes it. */
  lemma {:induction false} EndOfStreamNeverCompletes(s: State, rs: seq<Round>, s': State)
    requires s.status == Posted && s.done < |s.buffer| && IsRun(s, rs, s')
    requires forall i :: 0 <= i < |rs| ==> rs[i] == Round(Moved([]), true)
    ensures s'.status == Posted && s'.done == s.done && s'.frees == s.frees && s'.callbacks == s.callbacks
    decreases |rs|
  {
    if rs != [] {
      assert forall i :: 0 <= i < |rs[1..]| ==> rs[1..][i] == rs[i + 1];
      EndOfStreamNeverCompletes(Ran(s, rs[0]), rs[1..], s');
    }
  }

  // ---------- the request object ----------

  /** `struct send_recv_buffer`; `vecBase` and `vecLen` are its `iovec`, as offsets into the buffer. */
  class Srb {
    const direction: Direction
    const hasCallback: bool
    var buffer: array<Byte>
    var bytesOperated: nat
    var vecBase: nat
    var vecLen: nat
    var status: Status
    // history
    var moved: seq<Byte>
    var callbacks: nat
    var frees: nat

    ghost function Snapshot(): State
      reads this, buffer
    {
      State(direction, buffer[..], bytesOperated, status, hasCallback, moved, callbacks, frees)
    }

    /** A request over `buffer`, started right away. */
    constructor (direction: Direction, buffer: array<Byte>, hasCallback: bool, accepted: bool)
      ensures this.buffer == buffer && this.direction == direction && this.hasCallback == hasCallback
      ensures Snapshot() == Started(State(direction, buffer[..], 0, Posted, hasCallback, [], 0, 0), accepted)
      ensures Inv(Snapshot())
    {
      this.direction, this.hasCallback, this.buffer := direction, hasCallback, buffer;
      vecBase, vecLen := 0, buffer.Length;
      bytesOperated := 0;
      moved, callbacks, frees := [], 0, 0;
      status := if accepted then Posted else Lost;
    }

    /** `(*srb->cb)(...)` and `deallocate(srb)` */
    method Finish(errno: int)
      modifies this`status, this`callbacks, this`frees
      ensures status == Completed(errno) && frees == old(frees) + 1
      ensures callbacks == if hasCallback then old(callbacks) + 1 else old(callbacks)
    {
      if hasCallback { callbacks := callbacks + 1; }
      frees := frees + 1;
      status := Completed(errno);
    }

    /** What the socket does to the vector. */
    method Operate(data: seq<Byte>)
      requires |data| <= vecLen && vecBase + vecLen == buffer.Length
      requires direction == Send ==> data == buffer[vecBase..][..|data|]
      modifies buffer, this`moved
      ensures moved == old(moved) + data
      ensures direction == Send ==> buffer[..] == old(buffer[..])
      ensures direction == Receive ==> buffer[..] == old(buffer[..vecBase]) + data + old(buffer[vecBase + |data|..])
    {
      moved := moved + data;
      if direction == Receive {
        var i := 0;
        while i < |data|
          invariant 0 <= i <= |data| && moved == old(moved) + data
          invariant forall k :: 0 <= k < i ==> buffer[vecBase + k] == data[k]
          invariant forall k :: 0 <= k < vecBase || vecBase + i <= k < buffer.Length ==> buffer[k] == old(buffer[k])
        {
          buffer[vecBase + i] := data[i];
          i := i + 1;
        }
      }
    }

    /** `tcp_send_recv_async_tpl`, `udp_send_async_tpl` */
    method Run(r: Round)
      requires status == Posted && Possible(Snapshot(), r.io)
      modifies this, buffer
      ensures buffer == old(buffer) && Snapshot() == Ran(old(Snapshot()), r)
    {
      vecBase := bytesOperated;
      vecLen := buffer.Length - bytesOperated;
      match r.io
      case WouldBlock => Repost(r.accepted);
      case Failed(errno) => Finish(errno);
      case Moved(data) =>
        Advance(data);
        if bytesOperated < buffer.Length {
          Repost(r.accepted);
        } else {
          Finish(0);
        }
    }

    /** The socket has moved `data`; the count follows. */
    method Advance(data: seq<Byte>)
      requires bytesOperated + |data| <= buffer.Length && vecBase == bytesOperated && vecLen == buffer.Length - vecBase
      requires direction == Send ==> data == buffer[vecBase..][..|data|]
      modifies this, buffer
      ensures buffer == old(buffer)
      ensures var s := old(Snapshot());
        Snapshot() == s.(buffer := BufferAfter(s, data), moved := s.moved + data, done := s.done + |data|)
    {
      Operate(data);
      bytesOperated := bytesOperated + |data|;
    }

    /** `io_service_post_job` for this request */
    method Repost(accepted: bool)
      modifies this`status
      ensures status == if accepted then Posted else Lost
    {
      status := if accepted then Posted else Lost;
    }
  }
}
