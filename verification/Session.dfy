/** The LOGIN / PROTO / CLOSE protocol between the conn process (tcp_socket.cpp, reactor.h) and a worker
    (shm_revent.cpp, net.cpp), over whole runs in which descriptors are reused. Each channel delivers what
    was pushed to it in order; an unsafe PROTO push may be dropped, the safe LOGIN and CLOSE pushes never. */
module Session {
  import opened Bytes

  datatype Msg = Login(fd: nat, id: nat) | Proto(fd: nat, id: nat) | Close(fd: nat, id: nat)

  // ----- the conn process -----

  /** A socket handler with its session id; Closing is m_is_closed, the output still being flushed. */
  datatype Handler = Open(id: nat) | Closing(id: nat)

  /** The handler table, the last id handed out, and everything pushed to each channel. */
  datatype ConnState = ConnState(handlers: map<nat, Handler>, lastId: nat, log: seq<seq<Msg>>)

  datatype ConnOp =
    | Accept(fd: nat, ok: bool)                        // start: ok unless registering or check_open_cli fails
    | Packet(fd: nat, channel: nat, delivered: bool)   // one framed packet; an unsafe push may be dropped
    | Fail(fd: nat)                                    // handle_error
    | Shut(fd: nat, flushing: bool)                    // shut, with or without unsent output

  /** make_id: 32-bit, skipping 0. */
  function MakeId(last: nat): (id: nat)
    ensures 0 < id < TWO32
  {
    var n := (last + 1) % TWO32;
    if n != 0 then n else 1
  }

  function ToAll(log: seq<seq<Msg>>, m: Msg): (r: seq<seq<Msg>>)
    ensures |r| == |log| && forall c :: 0 <= c < |log| ==> r[c] == log[c] + [m]
  {
    seq(|log|, c requires 0 <= c < |log| => log[c] + [m])
  }

  /** The kernel hands out free descriptors only; events reach registered handlers only. */
  predicate Enabled(s: ConnState, op: ConnOp) {
    match op
    case Accept(fd, _) => fd !in s.handlers
    case Packet(fd, c, _) => fd in s.handlers && s.handlers[fd].Open? && c < |s.log|
    case Fail(fd) => fd in s.handlers
    case Shut(fd, _) => fd in s.handlers
  }

  function ConnNext(s: ConnState, op: ConnOp): ConnState
    requires Enabled(s, op)
  {
    match op
    case Accept(fd, ok) =>
      var id := MakeId(s.lastId);
      if ok then ConnState(s.handlers[fd := Open(id)], id, ToAll(s.log, Login(fd, id))) else s.(lastId := id)
    case Packet(fd, c, delivered) =>
      if delivered then s.(log := s.log[c := s.log[c] + [Proto(fd, s.handlers[fd].id)]]) else s
    case Fail(fd) =>
      var h := s.handlers[fd];
      s.(handlers := s.handlers - {fd}, log := if h.Open? then ToAll(s.log, Close(fd, h.id)) else s.log)
    case Shut(fd, flushing) =>
      var h := s.handlers[fd];
      s.(handlers := if flushing then s.handlers[fd := Closing(h.id)] else s.handlers - {fd},
         log := ToAll(s.log, Close(fd, h.id)))
  }

  /** The source's objects: handlers register, push to every channel in a loop, and unregister. */
  class Conn {
    var handlers: map<nat, Handler>
    var lastId: nat
    var log: seq<seq<Msg>>

    ghost function Abs(): ConnState
      reads this
    {
      ConnState(handlers, lastId, log)
    }

    constructor (channels: nat)
      ensures Abs() == ConnState(map[], 0, seq(channels, _ => []))
    {
      handlers, lastId, log := map[], 0, seq(channels, _ => []);
    }

    /** The loop "notify all". */
    method NotifyAll(m: Msg)
      modifies this`log
      ensures log == ToAll(old(log), m)
    {
      var i := 0;
      while i < |log|
        invariant 0 <= i <= |log| == |old(log)|
        invariant forall c :: 0 <= c < |log| ==> log[c] == if c < i then old(log)[c] + [m] else old(log)[c]
      {
        log := log[i := log[i] + [m]];
        i := i + 1;
      }
    }

    /** c_tcp_socket::start */
    method Start(fd: nat, ok: bool)
      requires Enabled(Abs(), Accept(fd, ok))
      modifies this
      ensures Abs() == ConnNext(old(Abs()), Accept(fd, ok))
      ensures if ok then handlers == old(handlers)[fd := Open(lastId)] && log == ToAll(old(log), Login(fd, lastId))
              else handlers == old(handlers) && log == old(log)
    {
      lastId := MakeId(lastId);
      if ok {
        handlers := handlers[fd := Open(lastId)];
        NotifyAll(Login(fd, lastId));
      }
    }

    /** The dispatch of one packet in c_tcp_socket::handle_input */
    method Dispatch(fd: nat, channel: nat, delivered: bool)
      requires Enabled(Abs(), Packet(fd, channel, delivered))
      modifies this`log
      ensures Abs() == ConnNext(old(Abs()), Packet(fd, channel, delivered))
      ensures |log| == |old(log)|
      ensures log[channel] == old(log)[channel] + if delivered then [Proto(fd, handlers[fd].id)] else []
      ensures forall c :: 0 <= c < |log| && c != channel ==> log[c] == old(log)[c]
    {
      if delivered {
        log := log[channel := log[channel] + [Proto(fd, handlers[fd].id)]];
      }
    }

    /** c_tcp_socket::handle_error */
    method HandleError(fd: nat)
      requires Enabled(Abs(), Fail(fd))
      modifies this
      ensures Abs() == ConnNext(old(Abs()), Fail(fd))
      ensures fd !in handlers
      ensures log == var h := old(handlers)[fd]; if h.Open? then ToAll(old(log), Close(fd, h.id)) else old(log)
    {
      if handlers[fd].Open? {
        NotifyAll(Close(fd, handlers[fd].id));
      }
      handlers := handlers - {fd};
    }

    /** c_tcp_socket::shut */
    method ShutDown(fd: nat, flushing: bool)
      requires Enabled(Abs(), Shut(fd, flushing))
      modifies this
      ensures Abs() == ConnNext(old(Abs()), Shut(fd, flushing))
      ensures fd in handlers <==> flushing
      ensures log == ToAll(old(log), Close(fd, old(handlers)[fd].id))
    {
      NotifyAll(Close(fd, handlers[fd].id));
      if flushing {
        handlers := handlers[fd := Closing(handlers[fd].id)];
      } else {
        handlers := handlers - {fd};
      }
    }
  }

  // ----- the protocol on one channel, one descriptor at a time -----

  /** What one descriptor sees on one channel; AppClosed is the worker's own net_close_cli. */
  datatype FdEvent = Up(id: nat) | Data(id: nat) | Down(id: nat) | AppClosed

  datatype Phase = Fresh | InSession(id: nat) | Ended(id: nat)

  function EventOf(m: Msg): FdEvent {
    match m
    case Login(_, id) => Up(id)
    case Proto(_, id) => Data(id)
    case Close(_, id) => Down(id)
  }

  function Events(msgs: seq<Msg>, fd: nat): seq<FdEvent> {
    if msgs == [] then []
    else
      var m := msgs[|msgs| - 1];
      Events(msgs[..|msgs| - 1], fd) + if m.fd == fd then [EventOf(m)] else []
  }

  function PhaseNext(p: Phase, e: FdEvent): Option<Phase> {
    match e
    case Up(id) => if p.InSession? || id == 0 then None else Some(InSession(id))
    case Data(id) => if p == InSession(id) then Some(p) else None
    case Down(id) => if p == InSession(id) || p == Ended(id) then Some(Ended(id)) else None
    case AppClosed => Some(p)
  }

  /** The phase after these events, or None if they break the protocol: a session is one Up with a nonzero
      id, any number of Data and then at least one Down, all with that id, before the next Up. */
  function PhaseOf(evs: seq<FdEvent>): Option<Phase> {
    if evs == [] then Some(Fresh)
    else
      match PhaseOf(evs[..|evs| - 1])
      case None => None
      case Some(p) => PhaseNext(p, evs[|evs| - 1])
  }

  /** A handler's state is its descriptor's phase on every channel. */
  ghost predicate PhaseFits(s: ConnState, fd: nat, p: Option<Phase>) {
    && p.Some?
    && if fd !in s.handlers then !p.value.InSession?
       else match s.handlers[fd]
         case Open(id) => p.value == InSession(id)
         case Closing(id) => p.value == Ended(id)
  }

  ghost predicate ConnInv(s: ConnState) {
    forall c, fd: nat :: 0 <= c < |s.log| ==> PhaseFits(s, fd, PhaseOf(Events(s.log[c], fd)))
  }

  lemma PhaseSnoc(evs: seq<FdEvent>, e: FdEvent)
    ensures PhaseOf(evs + [e]) == if PhaseOf(evs).None? then None else PhaseNext(PhaseOf(evs).value, e)
  {
    assert (evs + [e])[..|evs|] == evs;
  }

  lemma EventsSnoc(msgs: seq<Msg>, m: Msg, fd: nat)
    ensures Events(msgs + [m], fd) == if m.fd == fd then Events(msgs, fd) + [EventOf(m)] else Events(msgs, fd)
  {
    assert (msgs + [m])[..|msgs|] == msgs;
    assert Events(msgs, fd) + [] == Events(msgs, fd);
  }

  lemma ConnNextInv(s: ConnState, op: ConnOp)
    requires ConnInv(s) && Enabled(s, op)
    ensures ConnInv(ConnNext(s, op)) && |ConnNext(s, op).log| == |s.log|
  {
    hide Events, PhaseOf;
    var s' := ConnNext(s, op);
    forall c, fd: nat | 0 <= c < |s'.log| ensures PhaseFits(s', fd, PhaseOf(Events(s'.log[c], fd))) {
      assert PhaseFits(s, fd, PhaseOf(Events(s.log[c], fd)));
      if s'.log[c] != s.log[c] {
        var m := s'.log[c][|s.log[c]|];
        assert s'.log[c] == s.log[c] + [m];
        EventsSnoc(s.log[c], m, fd);
        PhaseSnoc(Events(s.log[c], fd), EventOf(m));
      }
    }
  }

  ghost predicate ConnRun(states: seq<ConnState>, ops: seq<ConnOp>, channels: nat) {
    && |states| == |ops| + 1 && states[0] == ConnState(map[], 0, seq(channels, _ => []))
    && forall i :: 0 <= i < |ops| ==> Enabled(states[i], ops[i]) && states[i + 1] == ConnNext(states[i], ops[i])
  }

  /** A conn process and what happens to it, as far as it can: the object goes through a run. */
  method DriveConn(channels: nat, ops: seq<ConnOp>) returns (c: Conn, n: nat, ghost states: seq<ConnState>)
    ensures fresh(c) && n <= |ops| && ConnRun(states, ops[..n], channels) && c.Abs() == states[n]
    ensures n < |ops| ==> !Enabled(c.Abs(), ops[n])
  {
    hide ConnNext;
    c := new Conn(channels);
    n, states := 0, [c.Abs()];
    while n < |ops| && Enabled(ConnState(c.handlers, c.lastId, c.log), ops[n])
      invariant fresh(c) && n <= |ops| && ConnRun(states, ops[..n], channels) && c.Abs() == states[n]
    {
      match ops[n] {
        case Accept(fd, ok) => c.Start(fd, ok);
        case Packet(fd, channel, delivered) => c.Dispatch(fd, channel, delivered);
        case Fail(fd) => c.HandleError(fd);
        case Shut(fd, flushing) => c.ShutDown(fd, flushing);
      }
      ConnRunOn(states, ops, n, channels);
      states := states + [c.Abs()];
      n := n + 1;
    }
  }

  lemma ConnRunOn(states: seq<ConnState>, ops: seq<ConnOp>, n: nat, channels: nat)
    requires n < |ops| && ConnRun(states, ops[..n], channels) && Enabled(states[n], ops[n])
    ensures ConnRun(states + [ConnNext(states[n], ops[n])], ops[..n + 1], channels)
  {
    hide ConnNext, Enabled;
    var more := states + [ConnNext(states[n], ops[n])];
    forall i | 0 <= i < n + 1 ensures Enabled(more[i], ops[i]) && more[i + 1] == ConnNext(more[i], ops[i]) {
      if i < n {
        assert ops[..n][i] == ops[i] && more[i] == states[i] && more[i + 1] == states[i + 1];
      }
    }
  }

  lemma {:induction false} ConnRunInv(states: seq<ConnState>, ops: seq<ConnOp>, channels: nat, i: nat)
    requires ConnRun(states, ops, channels) && i < |states|
    ensures ConnInv(states[i]) && |states[i].log| == channels
  {
    hide ConnInv;
    if i == 0 {
      FreshInv(channels);
    } else {
      ConnRunInv(states, ops, channels, i - 1);
      assert Enabled(states[i - 1], ops[i - 1]) && states[i - 1 + 1] == ConnNext(states[i - 1], ops[i - 1]);
      ConnNextInv(states[i - 1], ops[i - 1]);
    }
  }

  lemma FreshInv(channels: nat)
    ensures ConnInv(ConnState(map[], 0, seq(channels, _ => [])))
  {
  }

  // ----- a worker -----

  datatype Event = Deliver(m: Msg) | AppClose(fd: nat)

  /** The plugin's upcalls; Proc carries the value of g_link_flags[fd] during the call. */
  datatype Call = LinkUp(fd: nat) | Proc(fd: nat, flag: nat) | LinkDown(fd: nat)

  /** g_link_flags and the upcalls made so far. */
  datatype WorkerState = WorkerState(flags: seq<nat>, calls: seq<Call>)

  function WorkerNext(w: WorkerState, e: Event): WorkerState
    requires FdOf(e) < |w.flags|
  {
    match e
    case Deliver(Login(fd, id)) => WorkerState(w.flags[fd := id], w.calls + [LinkUp(fd)])
    case Deliver(Proto(fd, id)) => WorkerState(w.flags[fd := id], w.calls + [Proc(fd, id)])
    case Deliver(Close(fd, _)) =>
      if w.flags[fd] != 0 then WorkerState(w.flags[fd := 0], w.calls + [LinkDown(fd)]) else w
    case AppClose(fd) => w.(flags := w.flags[fd := 0])
  }

  /** The worker process with its flag array. */
  class Worker {
    const linkFlags: array<nat>
    var calls: seq<Call>

    ghost function Abs(): WorkerState
      reads this, linkFlags
    {
      WorkerState(linkFlags[..], calls)
    }

    /** fork_work: all flags zero. */
    constructor (maxConnect: nat)
      ensures Abs() == WorkerState(seq(maxConnect, _ => 0), []) && fresh(linkFlags)
    {
      linkFlags := new nat[maxConnect](_ => 0);
      calls := [];
      new;
      assert linkFlags[..] == seq(maxConnect, _ => 0);
    }

    /** One block in c_revent::handle_input; the source sets the flag on PROTO without testing it. */
    method HandleBlock(m: Msg)
      requires m.fd < linkFlags.Length
      modifies this, linkFlags
      ensures Abs() == WorkerNext(old(Abs()), Deliver(m))
    {
      if m.Proto? {
        linkFlags[m.fd] := m.id;
        calls := calls + [Proc(m.fd, linkFlags[m.fd])];
      } else if m.Close? {
        if linkFlags[m.fd] != 0 {
          calls := calls + [LinkDown(m.fd)];
          linkFlags[m.fd] := 0;
        }
      } else {
        linkFlags[m.fd] := m.id;
        calls := calls + [LinkUp(m.fd)];
      }
    }

    /** net_close_cli: the block it sends back travels on the other ring. */
    method NetCloseCli(fd: nat) returns (sent: bool)
      modifies linkFlags
      ensures fd < linkFlags.Length ==> Abs() == WorkerNext(old(Abs()), AppClose(fd))
      ensures fd >= linkFlags.Length ==> Abs() == old(Abs())
      ensures sent == (fd < linkFlags.Length && old(linkFlags[..])[fd] != 0)
    {
      if fd >= linkFlags.Length || linkFlags[fd] == 0 {
        assert fd < linkFlags.Length ==> linkFlags[..][fd := 0] == linkFlags[..];
        return false;
      }
      linkFlags[fd] := 0;
      sent := true;
    }
  }

  // ----- one descriptor of a worker -----

  datatype FdCall = CalledUp | CalledProc(flag: nat) | CalledDown

  datatype FdState = FdState(flag: nat, calls: seq<FdCall>)

  function FdNext(s: FdState, e: FdEvent): FdState {
    match e
    case Up(id) => FdState(id, s.calls + [CalledUp])
    case Data(id) => FdState(id, s.calls + [CalledProc(id)])
    case Down(_) => if s.flag != 0 then FdState(0, s.calls + [CalledDown]) else s
    case AppClosed => s.(flag := 0)
  }

  function FdRun(evs: seq<FdEvent>): FdState {
    if evs == [] then FdState(0, []) else FdNext(FdRun(evs[..|evs| - 1]), evs[|evs| - 1])
  }

  /** The upcalls a session makes: link_up first, one proc_pkg per packet with the session's id in the
      flag, and at the end link_down if it is due. */
  function SessionCalls(id: nat, body: seq<FdEvent>): seq<FdCall> {
    [CalledUp] + Procs(id, body) + if DownDue(body) then [CalledDown] else []
  }

  function Procs(id: nat, body: seq<FdEvent>): seq<FdCall> {
    if body == [] then []
    else Procs(id, body[..|body| - 1]) + if body[|body| - 1].Data? then [CalledProc(id)] else []
  }

  predicate HasDown(body: seq<FdEvent>) {
    body != [] && (body[|body| - 1].Down? || HasDown(body[..|body| - 1]))
  }

  /** A CLOSE has come, and the event just before the first one was not the worker's own close. */
  predicate DownDue(body: seq<FdEvent>) {
    body != [] &&
    var b, e := body[..|body| - 1], body[|body| - 1];
    DownDue(b) || (e.Down? && !HasDown(b) && (b != [] ==> !b[|b| - 1].AppClosed?))
  }

  predicate NoUp(body: seq<FdEvent>) {
    forall k :: 0 <= k < |body| ==> !body[k].Up?
  }

  lemma {:induction false} PhaseOfPrefix(evs: seq<FdEvent>, n: nat)
    requires PhaseOf(evs).Some? && n <= |evs|
    ensures PhaseOf(evs[..n]).Some?
    decreases |evs|
  {
    if n < |evs| {
      PhaseOfPrefix(evs[..|evs| - 1], n);
      assert evs[..|evs| - 1][..n] == evs[..n];
    } else {
      assert evs[..n] == evs;
    }
  }

  /** Exactly what a session makes of the worker, whatever came before it and however often the worker
      closed it itself: link_up once and first, every proc_pkg in between with the sender's nonzero id in
      the flag, and link_down at most once and last, exactly when DownDue says. */
  lemma {:induction false} SessionExactly(pre: seq<FdEvent>, id: nat, body: seq<FdEvent>)
    requires PhaseOf(pre + [Up(id)] + body).Some? && NoUp(body)
    ensures FdRun(pre + [Up(id)] + body).calls == FdRun(pre).calls + SessionCalls(id, body)
    ensures id != 0
    ensures FdRun(pre + [Up(id)] + body).flag ==
            if HasDown(body) || (body != [] && body[|body| - 1].AppClosed?) then 0 else id
    ensures PhaseOf(pre + [Up(id)] + body) == Some(if HasDown(body) then Ended(id) else InSession(id))
    decreases |body|
  {
    if body == [] {
      assert pre + [Up(id)] + [] == pre + [Up(id)];
      FdRunSnoc(pre, Up(id));
      PhaseSnoc(pre, Up(id));
    } else {
      var n := |body| - 1;
      var b, e := body[..n], body[n];
      var before := pre + [Up(id)] + b;
      assert body == b + [e] && pre + [Up(id)] + body == before + [e];
      PhaseSnoc(before, e);
      SessionExactly(pre, id, b);
      FdRunSnoc(before, e);
      SessionCallsSnoc(id, b, e);
      hide DownDue, PhaseOf, FdRun, SessionCalls;
      var c := FdRun(pre).calls;
      assert c + (SessionCalls(id, b) + [CalledProc(id)]) == c + SessionCalls(id, b) + [CalledProc(id)];
      assert c + (SessionCalls(id, b) + [CalledDown]) == c + SessionCalls(id, b) + [CalledDown];
      assert c + (SessionCalls(id, b) + []) == c + SessionCalls(id, b);
    }
  }

  lemma FdRunSnoc(evs: seq<FdEvent>, e: FdEvent)
    ensures FdRun(evs + [e]) == FdNext(FdRun(evs), e)
  {
    assert (evs + [e])[..|evs|] == evs;
  }

  lemma SessionCallsSnoc(id: nat, b: seq<FdEvent>, e: FdEvent)
    requires !e.Up? && (e.Data? ==> !HasDown(b))
    ensures SessionCalls(id, b + [e]) == SessionCalls(id, b) +
              if e.Data? then [CalledProc(id)]
              else if e.Down? && !HasDown(b) && (b != [] ==> !b[|b| - 1].AppClosed?) then [CalledDown] else []
  {
    hide DownDue, HasDown, Procs;
    DueNeedsDown(b);
    BodySnoc(id, b, e);
    AddCall([CalledUp], Procs(id, b), if DownDue(b) then [CalledDown] else [], CalledProc(id));
    AddCall([CalledUp], Procs(id, b), [], CalledDown);
  }

  lemma AddCall(a: seq<FdCall>, b: seq<FdCall>, c: seq<FdCall>, x: FdCall)
    ensures a + b + c + [x] == a + b + (c + [x]) && a + b + c == a + b + c + []
    ensures c == [] ==> a + (b + [x]) + c == a + b + c + [x] && c + [x] == [x]
  {
  }

  lemma BodySnoc(id: nat, b: seq<FdEvent>, e: FdEvent)
    ensures Procs(id, b + [e]) == if e.Data? then Procs(id, b) + [CalledProc(id)] else Procs(id, b)
    ensures DownDue(b + [e]) <==> DownDue(b) || (e.Down? && !HasDown(b) && (b != [] ==> !b[|b| - 1].AppClosed?))
  {
    assert (b + [e])[..|b|] == b;
    assert Procs(id, b) + [] == Procs(id, b);
  }

  lemma {:induction false} DueNeedsDown(body: seq<FdEvent>)
    ensures DownDue(body) ==> HasDown(body)
  {
    if body != [] {
      DueNeedsDown(body[..|body| - 1]);
    }
  }

  /** A session the worker never closed itself is taken down exactly once, when its CLOSE comes. */
  lemma {:induction false} UndisturbedSession(body: seq<FdEvent>)
    requires forall k :: 0 <= k < |body| ==> !body[k].AppClosed?
    ensures DownDue(body) <==> HasDown(body)
  {
    if body != [] {
      UndisturbedSession(body[..|body| - 1]);
    }
  }

  // ----- workers fed by the conn process -----

  function Deliveries(evs: seq<Event>): seq<Msg> {
    if evs == [] then []
    else Deliveries(evs[..|evs| - 1]) + (var e := evs[|evs| - 1]; if e.Deliver? then [e.m] else [])
  }

  function FdEvents(evs: seq<Event>, fd: nat): seq<FdEvent> {
    if evs == [] then []
    else FdEvents(evs[..|evs| - 1], fd) + Seen(evs[|evs| - 1], fd)
  }

  function Seen(e: Event, fd: nat): seq<FdEvent> {
    if FdOf(e) != fd then [] else if e.Deliver? then [EventOf(e.m)] else [AppClosed]
  }

  function FdOf(e: Event): nat {
    if e.Deliver? then e.m.fd else e.fd
  }

  function CallOf(c: Call): FdCall {
    match c
    case LinkUp(_) => CalledUp
    case Proc(_, flag) => CalledProc(flag)
    case LinkDown(_) => CalledDown
  }

  function CallsOf(calls: seq<Call>, fd: nat): seq<FdCall> {
    if calls == [] then []
    else
      var c := calls[|calls| - 1];
      CallsOf(calls[..|calls| - 1], fd) + if c.fd == fd then [CallOf(c)] else []
  }

  predicate InRange(evs: seq<Event>, n: nat) {
    forall i :: 0 <= i < |evs| ==> FdOf(evs[i]) < n
  }

  function WorkerRun(evs: seq<Event>, n: nat): (w: WorkerState)
    requires InRange(evs, n)
    ensures |w.flags| == n
  {
    if evs == [] then WorkerState(seq(n, _ => 0), [])
    else WorkerNext(WorkerRun(evs[..|evs| - 1], n), evs[|evs| - 1])
  }

  /** A worker process and what happens to it: the object makes exactly the run. */
  method DriveWorker(maxConnect: nat, evs: seq<Event>) returns (w: Worker)
    requires InRange(evs, maxConnect)
    ensures fresh(w) && fresh(w.linkFlags) && w.Abs() == WorkerRun(evs, maxConnect)
  {
    hide WorkerNext;
    w := new Worker(maxConnect);
    for n := 0 to |evs|
      invariant fresh(w) && fresh(w.linkFlags) && w.linkFlags.Length == maxConnect
      invariant w.Abs() == WorkerRun(evs[..n], maxConnect)
    {
      assert evs[..n + 1][..n] == evs[..n] && FdOf(evs[n]) < maxConnect;
      match evs[n] {
        case Deliver(m) => w.HandleBlock(m);
        case AppClose(fd) => var _ := w.NetCloseCli(fd);
      }
    }
    assert evs[..|evs|] == evs;
  }

  /** Descriptors do not disturb each other in a worker. */
  lemma {:induction false} WorkerRunByFd(evs: seq<Event>, n: nat, fd: nat)
    requires InRange(evs, n) && fd < n
    ensures var w, f := WorkerRun(evs, n), FdRun(FdEvents(evs, fd));
            w.flags[fd] == f.flag && CallsOf(w.calls, fd) == f.calls
  {
    if evs != [] {
      var p, e := evs[..|evs| - 1], evs[|evs| - 1];
      WorkerRunByFd(p, n, fd);
      WorkerStepByFd(WorkerRun(p, n), e, fd, FdEvents(p, fd));
      hide WorkerNext, FdRun, CallsOf, Seen;
    }
  }

  lemma WorkerStepByFd(w: WorkerState, e: Event, fd: nat, before: seq<FdEvent>)
    requires fd < |w.flags| && FdOf(e) < |w.flags|
    requires w.flags[fd] == FdRun(before).flag && CallsOf(w.calls, fd) == FdRun(before).calls
    ensures var w', f := WorkerNext(w, e), FdRun(before + Seen(e, fd));
            w'.flags[fd] == f.flag && CallsOf(w'.calls, fd) == f.calls
  {
    hide FdRun, CallsOf;
    var w' := WorkerNext(w, e);
    if |w'.calls| > |w.calls| {
      CallsSnoc(w.calls, w'.calls[|w.calls|], fd);
    }
    if FdOf(e) == fd {
      var d := if e.Deliver? then EventOf(e.m) else AppClosed;
      assert Seen(e, fd) == [d];
      FdRunSnoc(before, d);
    } else {
      assert before + Seen(e, fd) == before;
      assert w'.flags[fd] == w.flags[fd];
    }
  }

  lemma CallsSnoc(calls: seq<Call>, c: Call, fd: nat)
    ensures CallsOf(calls + [c], fd) == if c.fd == fd then CallsOf(calls, fd) + [CallOf(c)] else CallsOf(calls, fd)
  {
    assert (calls + [c])[..|calls|] == calls;
    assert CallsOf(calls, fd) + [] == CallsOf(calls, fd);
  }

  /** What a worker has taken from its channel never breaks the protocol, whatever it closed itself. */
  lemma {:induction false} WorkerSeesProtocol(s: ConnState, c: nat, evs: seq<Event>, fd: nat)
    requires ConnInv(s) && c < |s.log| && Deliveries(evs) <= s.log[c]
    ensures PhaseOf(FdEvents(evs, fd)).Some?
    ensures PhaseOf(FdEvents(evs, fd)) == PhaseOf(Events(Deliveries(evs), fd))
    decreases |evs|
  {
    if evs != [] {
      var p, e := evs[..|evs| - 1], evs[|evs| - 1];
      assert evs == p + [e];
      hide PhaseOf, Events, ConnInv, FdEvents;
      DeliveriesSnoc(p, e, fd);
      WorkerSeesProtocol(s, c, p, fd);
      if e.Deliver? {
        assert Deliveries(evs) == s.log[c][..|Deliveries(p)| + 1];
        PrefixKeepsProtocol(s, c, |Deliveries(p)| + 1, fd);
        NextPhase(FdEvents(p, fd), Deliveries(p), e.m, fd);
      } else {
        assert Deliveries(p) + [] == Deliveries(p);
        OwnClose(FdEvents(p, fd), e, fd);
      }
    }
  }

  lemma DeliveriesSnoc(evs: seq<Event>, e: Event, fd: nat)
    ensures Deliveries(evs + [e]) == Deliveries(evs) + if e.Deliver? then [e.m] else []
    ensures FdEvents(evs + [e], fd) == FdEvents(evs, fd) + Seen(e, fd)
  {
    assert (evs + [e])[..|evs|] == evs;
  }

  lemma OwnClose(q: seq<FdEvent>, e: Event, fd: nat)
    requires PhaseOf(q).Some? && !e.Deliver?
    ensures PhaseOf(q + Seen(e, fd)) == PhaseOf(q)
  {
    hide PhaseOf;
    assert q + [] == q;
    PhaseSnoc(q, AppClosed);
  }

  lemma NextPhase(q: seq<FdEvent>, before: seq<Msg>, m: Msg, fd: nat)
    requires PhaseOf(q) == PhaseOf(Events(before, fd)) && PhaseOf(q).Some?
    ensures PhaseOf(q + Seen(Deliver(m), fd)) == PhaseOf(Events(before + [m], fd))
  {
    hide PhaseOf, Events, PhaseNext;
    EventsSnoc(before, m, fd);
    if m.fd == fd {
      PhaseSnoc(q, EventOf(m));
      PhaseSnoc(Events(before, fd), EventOf(m));
    } else {
      assert q + [] == q && Events(before, fd) + [] == Events(before, fd);
    }
  }

  lemma PrefixKeepsProtocol(s: ConnState, c: nat, n: nat, fd: nat)
    requires ConnInv(s) && c < |s.log| && n <= |s.log[c]|
    ensures PhaseOf(Events(s.log[c][..n], fd)).Some?
  {
    assert PhaseFits(s, fd, PhaseOf(Events(s.log[c], fd)));
    EventsPrefix(s.log[c], n, fd);
    assert Events(s.log[c], fd)[..|Events(s.log[c][..n], fd)|] == Events(s.log[c][..n], fd);
    PhaseOfPrefix(Events(s.log[c], fd), |Events(s.log[c][..n], fd)|);
  }

  lemma {:induction false} EventsPrefix(msgs: seq<Msg>, n: nat, fd: nat)
    requires n <= |msgs|
    ensures Events(msgs[..n], fd) <= Events(msgs, fd)
    decreases |msgs|
  {
    if n < |msgs| {
      EventsPrefix(msgs[..|msgs| - 1], n, fd);
      assert msgs[..|msgs| - 1][..n] == msgs[..n];
    } else {
      assert msgs[..n] == msgs;
    }
  }

  lemma {:induction false} CallsOnlyGrow(evs: seq<FdEvent>, rest: seq<FdEvent>)
    ensures FdRun(evs).calls <= FdRun(evs + rest).calls
    decreases |rest|
  {
    if rest == [] {
      assert evs + rest == evs;
    } else {
      var n := |rest| - 1;
      CallsOnlyGrow(evs, rest[..n]);
      assert evs + rest == evs + rest[..n] + [rest[n]];
      FdRunSnoc(evs + rest[..n], rest[n]);
    }
  }

  /** Whole systems: in every run of the conn process, for every worker that has taken some prefix of its
      channel and closed what it liked in between, and for every session of every descriptor up to the
      next one on it, the upcalls from its LOGIN on are exactly the session's. */
  lemma SystemSessions(states: seq<ConnState>, ops: seq<ConnOp>, channels: nat, c: nat, evs: seq<Event>, n: nat,
                       fd: nat, pre: seq<FdEvent>, id: nat, body: seq<FdEvent>, rest: seq<FdEvent>)
    requires ConnRun(states, ops, channels)
    requires c < |states[|ops|].log| && Deliveries(evs) <= states[|ops|].log[c]
    requires InRange(evs, n) && fd < n
    requires FdEvents(evs, fd) == pre + [Up(id)] + body + rest && NoUp(body) && (rest != [] ==> rest[0].Up?)
    ensures id != 0
    ensures var calls := FdRun(pre).calls + SessionCalls(id, body);
            calls <= CallsOf(WorkerRun(evs, n).calls, fd)
               && (rest == [] ==> calls == CallsOf(WorkerRun(evs, n).calls, fd))
  {
    hide PhaseOf, FdRun, CallsOf, WorkerRun, SessionCalls, FdEvents, Events, ConnInv;
    ConnRunInv(states, ops, channels, |ops|);
    WorkerSeesProtocol(states[|ops|], c, evs, fd);
    WorkerRunByFd(evs, n, fd);
    var whole := pre + [Up(id)] + body;
    assert (whole + rest)[..|whole|] == whole;
    PhaseOfPrefix(whole + rest, |whole|);
    SessionExactly(pre, id, body);
    CallsOnlyGrow(whole, rest);
    assert rest == [] ==> whole + rest == whole;
  }
}
