/** What whole runs of the conn process put on a channel, and what a worker that has taken all of it was called for,
    read off the operations alone. */
module SessionRuns {
  import opened Bytes
  import opened Session

  // ----- session ids -----

  const IDS := 0xffff_ffff

  /** The k-th id handed out: 1, 2, ... and after 2^32 - 1 again 1. */
  function IdOf(k: nat): nat {
    if k == 0 then 0 else (k - 1) % IDS + 1
  }

  lemma MakeIdCounts(k: nat)
    ensures MakeId(IdOf(k)) == IdOf(k + 1)
  {
    if k > 0 {
      var q, r := (k - 1) / IDS, (k - 1) % IDS;
      if r + 1 < IDS {
        ModIs(k, IDS, q, r + 1);
      } else {
        ModIs(k, IDS, q + 1, 0);
      }
    }
  }

  /** Two sessions have the same id exactly when a multiple of 2^32 - 1 accepts lies between them. */
  lemma SameIdExactly(j: nat, k: nat)
    requires 0 < j <= k
    ensures IdOf(j) == IdOf(k) <==> (k - j) % IDS == 0
    ensures j < k < j + IDS ==> IdOf(j) != IdOf(k)
  {
    var r := (j - 1) % IDS;
    var d, e := (k - j) % IDS, (k - j) / IDS;
    if r + d < IDS {
      ModIs(k - 1, IDS, (j - 1) / IDS + e, r + d);
    } else {
      ModIs(k - 1, IDS, (j - 1) / IDS + e + 1, r + d - IDS);
    }
  }

  // ----- operations and what they tell a channel -----

  /** How many sockets have been accepted; each gets an id, whether it can be started or not. */
  function Accepts(ops: seq<ConnOp>): nat {
    if ops == [] then 0 else Accepts(ops[..|ops| - 1]) + if ops[|ops| - 1].Accept? then 1 else 0
  }

  predicate NoAccept(ops: seq<ConnOp>, fd: nat) {
    forall i :: 0 <= i < |ops| ==> !(ops[i].Accept? && ops[i].fd == fd)
  }

  predicate WasShut(ops: seq<ConnOp>, fd: nat) {
    exists i :: 0 <= i < |ops| && ops[i].Shut? && ops[i].fd == fd
  }

  predicate WasClosed(ops: seq<ConnOp>, fd: nat) {
    exists i :: 0 <= i < |ops| && (ops[i].Shut? || ops[i].Fail?) && ops[i].fd == fd
  }

  /** The packets of fd that were pushed to channel c and not dropped. */
  function Delivered(ops: seq<ConnOp>, fd: nat, c: nat): nat {
    if ops == [] then 0
    else Delivered(ops[..|ops| - 1], fd, c) + if ops[|ops| - 1] == Packet(fd, c, true) then 1 else 0
  }

  /** What channel c is told of a session on fd after its LOGIN: one PROTO for every packet delivered to it, a CLOSE
      for every shut, and a CLOSE for an error unless the session was shut before. */
  function Told(ops: seq<ConnOp>, fd: nat, c: nat, id: nat): seq<FdEvent> {
    if ops == [] then []
    else Told(ops[..|ops| - 1], fd, c, id) + ToldBy(ops[..|ops| - 1], ops[|ops| - 1], fd, c, id)
  }

  function ToldBy(before: seq<ConnOp>, op: ConnOp, fd: nat, c: nat, id: nat): seq<FdEvent> {
    if op.fd != fd then []
    else match op
      case Accept(_, _) => []
      case Packet(_, channel, delivered) => if channel == c && delivered then [Data(id)] else []
      case Fail(_) => if WasShut(before, fd) then [] else [Down(id)]
      case Shut(_, _) => [Down(id)]
  }

  // ----- runs of the conn process -----

  lemma {:induction false} IdsCount(states: seq<ConnState>, ops: seq<ConnOp>, channels: nat, n: nat)
    requires ConnRun(states, ops, channels) && n <= |ops|
    ensures states[n].lastId == IdOf(Accepts(ops[..n]))
  {
    if n > 0 {
      IdsCount(states, ops, channels, n - 1);
      assert ops[..n][..n - 1] == ops[..n - 1];
      assert Enabled(states[n - 1], ops[n - 1]) && states[n - 1 + 1] == ConnNext(states[n - 1], ops[n - 1]);
      MakeIdCounts(Accepts(ops[..n - 1]));
    }
  }

  /** The handler of fd after the operations since its last accept. */
  ghost predicate Stands(s: ConnState, fd: nat, ok: bool, id: nat, after: seq<ConnOp>) {
    && (fd in s.handlers ==> ok && s.handlers[fd] == if WasShut(after, fd) then Closing(id) else Open(id))
    && (ok && !WasClosed(after, fd) ==> fd in s.handlers)
  }

  lemma ClosedSnoc(ops: seq<ConnOp>, op: ConnOp, fd: nat)
    ensures WasShut(ops + [op], fd) <==> WasShut(ops, fd) || (op.Shut? && op.fd == fd)
    ensures WasClosed(ops + [op], fd) <==> WasClosed(ops, fd) || ((op.Shut? || op.Fail?) && op.fd == fd)
    ensures WasShut(ops, fd) ==> WasClosed(ops, fd)
  {
    var more := ops + [op];
    assert more[|ops|] == op;
    if WasShut(ops, fd) {
      var i :| 0 <= i < |ops| && ops[i].Shut? && ops[i].fd == fd;
      assert more[i] == ops[i];
    }
    if WasClosed(ops, fd) {
      var i :| 0 <= i < |ops| && (ops[i].Shut? || ops[i].Fail?) && ops[i].fd == fd;
      assert more[i] == ops[i];
    }
  }

  lemma PushedBy(s: ConnState, op: ConnOp, c: nat, fd: nat)
    requires Enabled(s, op) && c < |s.log|
    ensures var s' := ConnNext(s, op);
            && |s'.log| == |s.log|
            && Events(s'.log[c], fd) == Events(s.log[c], fd) +
                 if op.fd != fd then []
                 else match op
                   case Accept(_, ok) => if ok then [Up(MakeId(s.lastId))] else []
                   case Packet(_, channel, delivered) =>
                     if channel == c && delivered then [Data(s.handlers[fd].id)] else []
                   case Fail(_) => if s.handlers[fd].Open? then [Down(s.handlers[fd].id)] else []
                   case Shut(_, _) => [Down(s.handlers[fd].id)]
  {
    hide Events;
    var s' := ConnNext(s, op);
    if s'.log[c] != s.log[c] {
      var m := s'.log[c][|s.log[c]|];
      assert s'.log[c] == s.log[c] + [m];
      EventsSnoc(s.log[c], m, fd);
    }
    assert Events(s.log[c], fd) + [] == Events(s.log[c], fd);
  }

  lemma SessionStep(s: ConnState, op: ConnOp, c: nat, fd: nat, ok: bool, id: nat, after: seq<ConnOp>)
    requires Enabled(s, op) && c < |s.log| && !(op.Accept? && op.fd == fd)
    requires Stands(s, fd, ok, id, after)
    ensures Stands(ConnNext(s, op), fd, ok, id, after + [op]) && |ConnNext(s, op).log| == |s.log|
    ensures op.fd == fd ==> ok
    ensures Events(ConnNext(s, op).log[c], fd) == Events(s.log[c], fd) + ToldBy(after, op, fd, c, id)
  {
    hide WasShut, WasClosed, Events;
    PushedBy(s, op, c, fd);
    ClosedSnoc(after, op, fd);
  }

  /** In every run, what a channel holds of fd grows from one accept of fd up to the next by exactly this: nothing if
      the accept was refused, and otherwise the LOGIN, with the id of that accept, and what the session's operations
      tell. A refused descriptor has no handler; an accepted one has until it fails or is shut. */
  lemma {:induction false} SessionOnChannel(states: seq<ConnState>, ops: seq<ConnOp>, channels: nat, c: nat,
                                            fd: nat, ok: bool, k: nat, n: nat)
    requires ConnRun(states, ops, channels) && c < channels && k < n <= |ops|
    requires ops[k] == Accept(fd, ok) && NoAccept(ops[k + 1..n], fd)
    ensures |states[k].log| == |states[n].log| == channels
    ensures var id, after := IdOf(Accepts(ops[..k]) + 1), ops[k + 1..n];
            && Events(states[n].log[c], fd)
               == Events(states[k].log[c], fd) + (if ok then [Up(id)] + Told(after, fd, c, id) else [])
            && Stands(states[n], fd, ok, id, after)
            && (!ok ==> forall i :: k < i < n ==> ops[i].fd != fd)
    decreases n
  {
    hide Events, ConnInv, ToldBy, Stands, ConnNext, Enabled;
    var id := IdOf(Accepts(ops[..k]) + 1);
    ConnRunInv(states, ops, channels, k);
    ConnRunInv(states, ops, channels, n);
    assert Enabled(states[n - 1], ops[n - 1]) && states[n - 1 + 1] == ConnNext(states[n - 1], ops[n - 1]);
    if n == k + 1 {
      IdsCount(states, ops, channels, k);
      MakeIdCounts(Accepts(ops[..k]));
      PushedBy(states[k], ops[k], c, fd);
      assert ops[k + 1..n] == [] && [Up(id)] + [] == [Up(id)];
      StartStands(states[k], fd, ok);
    } else {
      var before, op := ops[k + 1..n - 1], ops[n - 1];
      assert ops[k + 1..n] == before + [op] && (before + [op])[..|before|] == before;
      assert NoAccept(before, fd) && (before + [op])[|before|] == op;
      SessionOnChannel(states, ops, channels, c, fd, ok, k, n - 1);
      SessionStep(states[n - 1], op, c, fd, ok, id, before);
      Longer(Events(states[k].log[c], fd), [Up(id)], Told(before, fd, c, id), ToldBy(before, op, fd, c, id));
      NotTold(before, op, fd, c, id);
    }
  }

  lemma StartStands(s: ConnState, fd: nat, ok: bool)
    requires Enabled(s, Accept(fd, ok))
    ensures Stands(ConnNext(s, Accept(fd, ok)), fd, ok, MakeId(s.lastId), [])
  {
    NotClosed(fd);
  }

  lemma NotClosed(fd: nat)
    ensures !WasShut([], fd) && !WasClosed([], fd)
  {
  }

  lemma NotTold(before: seq<ConnOp>, op: ConnOp, fd: nat, c: nat, id: nat)
    ensures op.fd != fd ==> ToldBy(before, op, fd, c, id) == []
  {
  }

  lemma Longer(a: seq<FdEvent>, b: seq<FdEvent>, c: seq<FdEvent>, d: seq<FdEvent>)
    ensures a + (b + c) + d == a + (b + (c + d)) && a + [] + [] == a + []
  {
  }

  /** Before the first accept of fd no channel holds anything of it. */
  lemma {:induction false} NothingBefore(states: seq<ConnState>, ops: seq<ConnOp>, channels: nat, c: nat, fd: nat,
                                         n: nat)
    requires ConnRun(states, ops, channels) && c < channels && n <= |ops| && NoAccept(ops[..n], fd)
    ensures |states[n].log| == channels && Events(states[n].log[c], fd) == [] && fd !in states[n].handlers
    ensures forall i :: 0 <= i < n ==> ops[i].fd != fd
  {
    hide ConnInv;
    if n > 0 {
      assert ops[..n][n - 1] == ops[n - 1] && ops[..n][..n - 1] == ops[..n - 1];
      assert NoAccept(ops[..n - 1], fd);
      NothingBefore(states, ops, channels, c, fd, n - 1);
      assert Enabled(states[n - 1], ops[n - 1]) && states[n - 1 + 1] == ConnNext(states[n - 1], ops[n - 1]);
      hide Events;
      PushedBy(states[n - 1], ops[n - 1], c, fd);
    }
  }

  // ----- a worker that has taken its whole channel -----

  /** Without the worker's own closes. */
  function Strip(evs: seq<FdEvent>): seq<FdEvent> {
    if evs == [] then []
    else Strip(evs[..|evs| - 1]) + if evs[|evs| - 1].AppClosed? then [] else [evs[|evs| - 1]]
  }

  lemma StripSnoc(evs: seq<FdEvent>, e: FdEvent)
    ensures Strip(evs + [e]) == if e.AppClosed? then Strip(evs) else Strip(evs) + [e]
  {
    assert (evs + [e])[..|evs|] == evs;
    assert Strip(evs) + [] == Strip(evs);
  }

  lemma {:induction false} StripOfTaken(evs: seq<Event>, fd: nat)
    ensures Strip(FdEvents(evs, fd)) == Events(Deliveries(evs), fd)
  {
    if evs != [] {
      var p, e := evs[..|evs| - 1], evs[|evs| - 1];
      StripOfTaken(p, fd);
      assert evs == p + [e];
      hide Strip, Events, FdEvents, Deliveries;
      DeliveriesSnoc(p, e, fd);
      if e.Deliver? {
        EventsSnoc(Deliveries(p), e.m, fd);
      } else {
        assert Deliveries(p) + [] == Deliveries(p);
      }
      if FdOf(e) == fd {
        StripSnoc(FdEvents(p, fd), Seen(e, fd)[0]);
      } else {
        assert FdEvents(p, fd) + [] == FdEvents(p, fd);
      }
    }
  }

  /** Where the last session begins in what the worker saw. */
  lemma {:induction false} FindUp(evs: seq<FdEvent>, before: seq<FdEvent>, id: nat, told: seq<FdEvent>)
    returns (pre: seq<FdEvent>, body: seq<FdEvent>)
    requires Strip(evs) == before + [Up(id)] + told && NoUp(told)
    ensures evs == pre + [Up(id)] + body && Strip(body) == told && Strip(pre) == before && NoUp(body)
    decreases |evs|
  {
    var n := |evs| - 1;
    var p, e := evs[..n], evs[n];
    assert evs == p + [e];
    StripSnoc(p, e);
    hide Strip;
    if e.AppClosed? {
      pre, body := FindUp(p, before, id, told);
      StripSnoc(body, e);
      Longer3(pre, [Up(id)], body, [e]);
      body := body + [e];
    } else if told == [] {
      assert before + [Up(id)] + told == before + [Up(id)];
      assert (Strip(p) + [e])[|Strip(p)|] == e == Up(id);
      assert Strip(p) == (Strip(p) + [e])[..|Strip(p)|] == before;
      pre, body := p, [];
      StripNothing();
      assert pre + [Up(id)] + body == pre + [Up(id)];
    } else {
      var m := |told| - 1;
      assert told == told[..m] + [told[m]];
      Longer3(before, [Up(id)], told[..m], [told[m]]);
      var whole := before + [Up(id)] + told[..m];
      assert Strip(p) + [e] == whole + [told[m]];
      assert (Strip(p) + [e])[|Strip(p)|] == e && (whole + [told[m]])[|whole|] == told[m];
      assert Strip(p) == (Strip(p) + [e])[..|Strip(p)|] == whole;
      pre, body := FindUp(p, before, id, told[..m]);
      StripSnoc(body, e);
      Longer3(pre, [Up(id)], body, [e]);
      body := body + [e];
    }
  }

  lemma Longer3(a: seq<FdEvent>, b: seq<FdEvent>, c: seq<FdEvent>, d: seq<FdEvent>)
    ensures a + b + c + d == a + b + (c + d)
  {
  }

  lemma StripNothing()
    ensures Strip([]) == []
  {
  }

  function Repeat<T>(n: nat, x: T): seq<T> {
    seq(n, _ => x)
  }

  function Datas(evs: seq<FdEvent>): nat {
    if evs == [] then 0 else Datas(evs[..|evs| - 1]) + if evs[|evs| - 1].Data? then 1 else 0
  }

  lemma {:induction false} ProcsCount(id: nat, body: seq<FdEvent>)
    ensures Procs(id, body) == Repeat(Datas(Strip(body)), CalledProc(id))
    ensures HasDown(body) <==> HasDown(Strip(body))
  {
    if body != [] {
      var p, e := body[..|body| - 1], body[|body| - 1];
      ProcsCount(id, p);
      var s := Strip(p);
      if !e.AppClosed? {
        assert (s + [e])[..|s|] == s;
      } else {
        assert s + [] == s;
      }
    }
  }

  lemma CountsSnoc(t: seq<FdEvent>, x: FdEvent)
    ensures Datas(t + [x]) == Datas(t) + if x.Data? then 1 else 0
    ensures HasDown(t + [x]) <==> x.Down? || HasDown(t)
    ensures NoUp(t + [x]) <==> NoUp(t) && !x.Up?
  {
    assert (t + [x])[..|t|] == t && (t + [x])[|t|] == x;
    if NoUp(t + [x]) {
      forall k | 0 <= k < |t| ensures !t[k].Up? {
        assert (t + [x])[k] == t[k];
      }
    }
  }

  lemma CountsNone()
    ensures Datas([]) == 0 && !HasDown([]) && NoUp([])
  {
  }

  lemma {:induction false} ToldCounts(ops: seq<ConnOp>, fd: nat, c: nat, id: nat)
    requires NoAccept(ops, fd)
    ensures Datas(Told(ops, fd, c, id)) == Delivered(ops, fd, c) && NoUp(Told(ops, fd, c, id))
    ensures HasDown(Told(ops, fd, c, id)) <==> WasClosed(ops, fd)
  {
    hide Datas, HasDown, NoUp, WasShut, WasClosed;
    if ops == [] {
      NotClosed(fd);
      CountsNone();
    } else {
      var p, op := ops[..|ops| - 1], ops[|ops| - 1];
      assert ops == p + [op] && !(op.Accept? && op.fd == fd);
      assert NoAccept(p, fd);
      ToldCounts(p, fd, c, id);
      ClosedSnoc(p, op, fd);
      var t, d := Told(p, fd, c, id), ToldBy(p, op, fd, c, id);
      if d == [] {
        assert t + d == t;
      } else {
        CountsSnoc(t, d[0]);
        assert d == [d[0]];
      }
    }
  }

  /** Whole systems: once a worker has taken all that a run of the conn process pushed to its channel, the last
      session on fd has made it call link_up once, then proc_pkg once for every packet delivered to that channel, with
      the id of the session's accept in the flag, and at the end link_down at most once: exactly when the session was
      ended, if the worker did not close it itself. */
  lemma SystemDelivers(states: seq<ConnState>, ops: seq<ConnOp>, channels: nat, c: nat, evs: seq<Event>, n: nat,
                       fd: nat, k: nat)
    returns (earlier: seq<FdCall>, down: bool)
    requires ConnRun(states, ops, channels) && k < |ops|
    requires c < |states[|ops|].log| && Deliveries(evs) == states[|ops|].log[c]
    requires InRange(evs, n) && fd < n
    requires ops[k] == Accept(fd, true) && NoAccept(ops[k + 1..], fd)
    ensures var after := ops[k + 1..];
            && CallsOf(WorkerRun(evs, n).calls, fd)
               == earlier + [CalledUp] + Repeat(Delivered(after, fd, c), CalledProc(IdOf(Accepts(ops[..k]) + 1)))
                  + (if down then [CalledDown] else [])
            && (down ==> WasClosed(after, fd))
            && (AppClose(fd) !in evs ==> down == WasClosed(after, fd))
  {
    hide Told, Events, Stands, Strip, FdEvents, Deliveries, CallsOf, WorkerRun, SessionCalls, FdRun, ConnRun, WasClosed;
    var id, after := IdOf(Accepts(ops[..k]) + 1), ops[k + 1..];
    RunEnds(states, ops, channels);
    assert ops[k + 1..|ops|] == after;
    SessionOnChannel(states, ops, channels, c, fd, true, k, |ops|);
    StripOfTaken(evs, fd);
    ToldCounts(after, fd, c, id);
    var past := Events(states[k].log[c], fd);
    Associate(past, [Up(id)], Told(after, fd, c, id));
    var pre, body := FindUp(FdEvents(evs, fd), past, id, Told(after, fd, c, id));
    assert pre + [Up(id)] + body + [] == pre + [Up(id)] + body;
    SystemSessions(states, ops, channels, c, evs, n, fd, pre, id, body, []);
    ProcsCount(id, body);
    DueNeedsDown(body);
    earlier, down := FdRun(pre).calls, DownDue(body);
    CallsAre(earlier, id, body);
    if AppClose(fd) !in evs {
      NoOwnClose(evs, fd);
      TailNoClose(FdEvents(evs, fd), pre + [Up(id)], body);
      UndisturbedSession(body);
    }
  }

  lemma RunEnds(states: seq<ConnState>, ops: seq<ConnOp>, channels: nat)
    requires ConnRun(states, ops, channels)
    ensures |states| == |ops| + 1 && |states[|ops|].log| == channels
  {
    ConnRunInv(states, ops, channels, |ops|);
  }

  lemma CallsAre(earlier: seq<FdCall>, id: nat, body: seq<FdEvent>)
    ensures earlier + SessionCalls(id, body)
            == earlier + [CalledUp] + Procs(id, body) + if DownDue(body) then [CalledDown] else []
  {
    hide Procs, DownDue;
    var d := if DownDue(body) then [CalledDown] else [];
    Associate(earlier, [CalledUp] + Procs(id, body), d);
    Associate(earlier, [CalledUp], Procs(id, body));
  }

  lemma {:induction false} NoOwnClose(evs: seq<Event>, fd: nat)
    requires AppClose(fd) !in evs
    ensures forall i :: 0 <= i < |FdEvents(evs, fd)| ==> !FdEvents(evs, fd)[i].AppClosed?
  {
    if evs != [] {
      var e := evs[|evs| - 1];
      assert e in evs;
      NoOwnClose(evs[..|evs| - 1], fd);
    }
  }

  lemma TailNoClose(evs: seq<FdEvent>, pre: seq<FdEvent>, body: seq<FdEvent>)
    requires evs == pre + body && forall i :: 0 <= i < |evs| ==> !evs[i].AppClosed?
    ensures forall i :: 0 <= i < |body| ==> !body[i].AppClosed?
  {
    forall i | 0 <= i < |body| ensures !body[i].AppClosed? {
      assert evs[|pre| + i] == body[i];
    }
  }
}
